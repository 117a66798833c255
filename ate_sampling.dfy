/**
 * The number of graphs sampled and the number of samples drawn per graph when `get_ate_rms`
 * estimates an average treatment effect.
 */
module AteSampling {

  /** How many graphs are sampled and how many samples are drawn from each. */
  datatype SampleCounts = SampleCounts(graphs: nat, samplesPerGraph: nat)

  /**
   * `Ngraphs` and `Nsamples_per_graph`: with conditioning variables, 50000 samples in total
   * (one graph, or 10 graphs of 5000); without, 20000 (one graph, or 10000 graphs of 2).
   * A single graph is used exactly when the most likely graph is asked for.
   */
  function AteSampleCounts(conditioning: bool, mostLikelyGraph: bool): (r: SampleCounts)
    ensures r.graphs * r.samplesPerGraph == if conditioning then 50000 else 20000
    ensures r.graphs == 1 <==> mostLikelyGraph
    ensures r.graphs >= 1 && r.samplesPerGraph >= 1
  {
    if conditioning then
      if mostLikelyGraph then SampleCounts(1, 50000) else SampleCounts(10, 5000)
    else
      if mostLikelyGraph then SampleCounts(1, 20000) else SampleCounts(10000, 2)
  }
}
