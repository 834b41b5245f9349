/** AllHistoTasks.requires: the wrapper task of a year requires one HistoTask
    per region of the region table, in the table's order. */
module AllHistoTasks {
  import opened Types

  /** The tasks yielded by requires(): one per region, in region order, each
      carrying the wrapper's year. */
  function Requires(year: string, regions: seq<string>): (r: seq<HistoTask>)
    ensures |r| == |regions|
    ensures forall k :: 0 <= k < |regions| ==> r[k] == HistoTask(year, regions[k])
  {
    if regions == [] then [] else [HistoTask(year, regions[0])] + Requires(year, regions[1..])
  }

  /** A task is required exactly when it has the wrapper's year and one of the regions. */
  lemma {:induction false} RequiresMembership(year: string, regions: seq<string>, task: HistoTask)
    ensures task in Requires(year, regions) <==> task.year == year && task.region in regions
  {
    if task.year == year && task.region in regions {
      var k :| 0 <= k < |regions| && regions[k] == task.region;
      assert Requires(year, regions)[k] == task;
    }
  }

  /** The region table is a dictionary, so no task is required twice. */
  lemma RequiresDistinct(year: string, regions: seq<string>)
    requires forall a, b :: 0 <= a < b < |regions| ==> regions[a] != regions[b]
    ensures forall a, b :: 0 <= a < b < |Requires(year, regions)| ==> Requires(year, regions)[a] != Requires(year, regions)[b]
  {
  }
}
