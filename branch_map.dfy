/** HistoTask.create_branch_map: the expansion of the dataset and systematics
    tables into a densely numbered list of branches. The functions below are
    the specification; CreateBranchMap is the nested loop that builds it. */
module BranchMap {
  import opened Types

  /** A systematic is applied to a dataset in a year when it is a shape
      systematic, the year is one of its years, and it either names no
      datasets or names this one. */
  predicate Applies(systematic: Systematic, dataset: Dataset, year: string) {
    && systematic.kind == SHAPE
    && year in systematic.years
    && (systematic.datasets.None? || dataset.key in systematic.datasets.value)
  }

  /** The number of input files of a dataset in a year. */
  function FileCount(dataset: Dataset, year: string, gridCount: GridCount): nat {
    gridCount(dataset.isMC, year, dataset.fileName)
  }

  /** The variation labels a systematic produces per input file. */
  function Labels(systematic: string): seq<string> {
    if systematic == NOMINAL then [NOMINAL] else [systematic + UP, systematic + DOWN]
  }

  /** The branches appended for one input file. */
  function FileEntries(dataset: string, systematic: string, i: nat): seq<Entry> {
    seq(|Labels(systematic)|, k requires 0 <= k < |Labels(systematic)| => Entry(dataset, Labels(systematic)[k], i))
  }

  /** The branches appended for the first n input files of one applied pair. */
  function PairEntries(dataset: string, systematic: string, n: nat): seq<Entry> {
    if n == 0 then [] else PairEntries(dataset, systematic, n - 1) + FileEntries(dataset, systematic, n - 1)
  }

  /** The branches one systematic contributes for one dataset: those of the
      pair when the systematic applies, none otherwise. */
  function PairContribution(dataset: Dataset, systematic: Systematic, year: string, gridCount: GridCount): seq<Entry> {
    if Applies(systematic, dataset, year)
    then PairEntries(dataset.key, systematic.key, FileCount(dataset, year, gridCount))
    else []
  }

  /** The branches appended for one dataset, walking the systematics in order. */
  function DatasetEntries(dataset: Dataset, systematics: seq<Systematic>, year: string, gridCount: GridCount): seq<Entry>
    decreases |systematics|
  {
    if |systematics| == 0 then []
    else
      DatasetEntries(dataset, systematics[..|systematics| - 1], year, gridCount)
      + PairContribution(dataset, systematics[|systematics| - 1], year, gridCount)
  }

  /** The whole list of branches, walking the datasets in order. */
  function Branches(datasets: seq<Dataset>, systematics: seq<Systematic>, year: string, gridCount: GridCount): seq<Entry>
    decreases |datasets|
  {
    if |datasets| == 0 then []
    else
      Branches(datasets[..|datasets| - 1], systematics, year, gridCount)
      + DatasetEntries(datasets[|datasets| - 1], systematics, year, gridCount)
  }

  lemma DatasetEntriesStep(dataset: Dataset, systematics: seq<Systematic>, j: nat, year: string, gridCount: GridCount)
    requires j < |systematics|
    ensures DatasetEntries(dataset, systematics[..j + 1], year, gridCount)
         == DatasetEntries(dataset, systematics[..j], year, gridCount)
            + PairContribution(dataset, systematics[j], year, gridCount)
  {
    assert systematics[..j + 1][..j] == systematics[..j];
  }

  lemma BranchesStep(datasets: seq<Dataset>, systematics: seq<Systematic>, i: nat, year: string, gridCount: GridCount)
    requires i < |datasets|
    ensures Branches(datasets[..i + 1], systematics, year, gridCount)
         == Branches(datasets[..i], systematics, year, gridCount) + DatasetEntries(datasets[i], systematics, year, gridCount)
  {
    assert datasets[..i + 1][..i] == datasets[..i];
  }

  lemma AppendAssoc(a: seq<Entry>, b: seq<Entry>, c: seq<Entry>)
    ensures (a + b) + c == a + (b + c)
  {
  }

  /** The two innermost loops of create_branch_map: for each file index of an
      applied pair, append the nominal branch, or the UP branch followed by the
      DOWN branch. */
  method AppendPairBranches(branches: seq<Entry>, dataset: string, systematic: string, n: nat)
    returns (result: seq<Entry>)
    ensures result == branches + PairEntries(dataset, systematic, n)
  {
    result := branches;
    for i := 0 to n
      invariant result == branches + PairEntries(dataset, systematic, i)
    {
      ghost var before := result;
      if systematic == NOMINAL {
        result := result + [Entry(dataset, systematic, i)];
      } else {
        result := result + [Entry(dataset, systematic + UP, i)];
        result := result + [Entry(dataset, systematic + DOWN, i)];
      }
      assert result == before + FileEntries(dataset, systematic, i);
    }
  }

  /** The body of the systematics loop of create_branch_map: a systematic whose
      type, years or dataset list exclude the pair appends nothing, any other
      appends the branches of the pair. */
  method AppendSystematicBranches(branches: seq<Entry>, dataset: Dataset, systematic: Systematic,
                                  year: string, gridCount: GridCount)
    returns (result: seq<Entry>)
    ensures result == branches + PairContribution(dataset, systematic, year, gridCount)
  {
    result := branches;
    if systematic.kind == SHAPE && year in systematic.years {
      if systematic.datasets.None? || dataset.key in systematic.datasets.value {
        result := AppendPairBranches(result, dataset.key, systematic.key,
                                     gridCount(dataset.isMC, year, dataset.fileName));
      }
    }
  }

  /** The systematics loop of create_branch_map for one dataset. */
  method AppendDatasetBranches(branches: seq<Entry>, dataset: Dataset, systematics: seq<Systematic>,
                               year: string, gridCount: GridCount)
    returns (result: seq<Entry>)
    ensures result == branches + DatasetEntries(dataset, systematics, year, gridCount)
  {
    result := branches;
    for j := 0 to |systematics|
      invariant result == branches + DatasetEntries(dataset, systematics[..j], year, gridCount)
    {
      result := AppendSystematicBranches(result, dataset, systematics[j], year, gridCount);
      DatasetEntriesStep(dataset, systematics, j, year, gridCount);
      AppendAssoc(branches, DatasetEntries(dataset, systematics[..j], year, gridCount),
                  PairContribution(dataset, systematics[j], year, gridCount));
    }
    assert systematics[..|systematics|] == systematics;
  }

  /** create_branch_map: the branch list is built by walking the datasets in
      order and then numbered with dict(enumerate(...)), so the keys are exactly
      0..N-1 and key k is the k-th branch of Branches. */
  method CreateBranchMap(datasets: seq<Dataset>, systematics: seq<Systematic>, year: string, gridCount: GridCount)
    returns (branchMap: map<nat, Entry>)
    ensures forall k: nat :: k in branchMap <==> k < |Branches(datasets, systematics, year, gridCount)|
    ensures forall k: nat :: k < |Branches(datasets, systematics, year, gridCount)| ==>
      branchMap[k] == Branches(datasets, systematics, year, gridCount)[k]
  {
    var branches: seq<Entry> := [];
    for i := 0 to |datasets|
      invariant branches == Branches(datasets[..i], systematics, year, gridCount)
    {
      branches := AppendDatasetBranches(branches, datasets[i], systematics, year, gridCount);
      BranchesStep(datasets, systematics, i, year, gridCount);
    }
    assert datasets[..|datasets|] == datasets;
    branchMap := map k: nat | k < |branches| :: branches[k];
  }
}
