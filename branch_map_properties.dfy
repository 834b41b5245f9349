/** What the branch list of create_branch_map is: the layout of one applied
    pair, which branches occur, how many there are, that none repeats, and the
    order in which datasets and systematics appear. */
module BranchMapProperties {
  import opened Types
  import opened BranchMap

  /** A branch is produced by a dataset and a systematic when the systematic
      applies to the dataset, the branch carries the dataset's key and one of
      the systematic's labels, and its file index is one of the dataset's files. */
  predicate Produces(dataset: Dataset, systematic: Systematic, year: string, gridCount: GridCount, e: Entry) {
    && Applies(systematic, dataset, year)
    && e.dataset == dataset.key
    && e.variation in Labels(systematic.key)
    && e.index < FileCount(dataset, year, gridCount)
  }

  ghost predicate NoDuplicates(s: seq<Entry>) {
    forall p, q :: 0 <= p < q < |s| ==> s[p] != s[q]
  }

  // ---------------------------------------------------------------------------
  // Labels

  lemma LastChar(s: string, suffix: string)
    requires |suffix| > 0
    ensures (s + suffix)[|s + suffix| - 1] == suffix[|suffix| - 1]
  {
  }

  lemma SuffixCancel(s1: string, s2: string, suffix: string)
    requires s1 + suffix == s2 + suffix
    ensures s1 == s2
  {
    assert s1 == (s1 + suffix)[..|s1|];
    assert s2 == (s2 + suffix)[..|s2|];
  }

  /** Distinct systematics never share a variation label: the nominal label
      ends in 'l', the others in the 'P' of UP or the 'N' of DOWN, and equal
      suffixes leave equal systematic names. */
  lemma {:induction false} LabelsDisjoint(s1: string, s2: string)
    requires s1 != s2
    ensures forall v :: v in Labels(s1) ==> v !in Labels(s2)
  {
    LastChar(s1, UP);
    LastChar(s1, DOWN);
    LastChar(s2, UP);
    LastChar(s2, DOWN);
    assert NOMINAL[|NOMINAL| - 1] == 'l';
    if s1 != NOMINAL && s2 != NOMINAL {
      if s1 + UP == s2 + UP {
        SuffixCancel(s1, s2, UP);
      }
      if s1 + DOWN == s2 + DOWN {
        SuffixCancel(s1, s2, DOWN);
      }
    }
  }

  lemma LabelsDistinct(systematic: string)
    ensures forall a, b :: 0 <= a < b < |Labels(systematic)| ==> Labels(systematic)[a] != Labels(systematic)[b]
  {
    if systematic != NOMINAL {
      assert |systematic + UP| != |systematic + DOWN|;
    }
  }

  // ---------------------------------------------------------------------------
  // One applied pair

  /** The branches of one applied pair with n files: for file index i the
      labels in order, so a nominal pair gives [d, "nominal", i] for each i and
      any other systematic s gives [d, s+"UP", i] immediately followed by
      [d, s+"DOWN", i]; file indices ascend and n = 0 gives nothing. */
  lemma {:induction false} PairEntriesLayout(dataset: string, systematic: string, n: nat)
    ensures |PairEntries(dataset, systematic, n)| == n * |Labels(systematic)|
    ensures forall k :: 0 <= k < |PairEntries(dataset, systematic, n)| ==>
      PairEntries(dataset, systematic, n)[k]
      == Entry(dataset, Labels(systematic)[k % |Labels(systematic)|], k / |Labels(systematic)|)
  {
    if n > 0 {
      PairEntriesLayout(dataset, systematic, n - 1);
      var w := |Labels(systematic)|;
      var prev := PairEntries(dataset, systematic, n - 1);
      var pe := PairEntries(dataset, systematic, n);
      assert pe == prev + FileEntries(dataset, systematic, n - 1);
      forall k | 0 <= k < |pe| ensures pe[k] == Entry(dataset, Labels(systematic)[k % w], k / w) {
        if k >= |prev| {
          DivModSplit(k, n - 1, w);
        }
      }
    }
  }

  /** For a label count w of one or two, an index k in the block of file m
      has quotient m and remainder k - m·w. */
  lemma DivModSplit(k: int, m: int, w: int)
    requires (w == 1 || w == 2) && m * w <= k < m * w + w
    ensures k / w == m && k % w == k - m * w
  {
    if w == 2 {
      assert m * w == 2 * m;
    }
  }

  lemma {:induction false} PairEntriesSound(dataset: string, systematic: string, n: nat, k: nat)
    requires k < |PairEntries(dataset, systematic, n)|
    ensures PairEntries(dataset, systematic, n)[k].dataset == dataset
    ensures PairEntries(dataset, systematic, n)[k].variation in Labels(systematic)
    ensures PairEntries(dataset, systematic, n)[k].index < n
  {
    PairEntriesLayout(dataset, systematic, n);
    DivBelow(k, n, |Labels(systematic)|);
  }

  lemma DivBelow(k: nat, n: nat, w: nat)
    requires (w == 1 || w == 2) && k < n * w
    ensures k / w < n
  {
    if w == 2 {
      assert n * w == 2 * n;
    }
  }

  lemma {:induction false} PairEntriesComplete(dataset: string, systematic: string, n: nat, v: string, i: nat)
    requires v in Labels(systematic) && i < n
    ensures Entry(dataset, v, i) in PairEntries(dataset, systematic, n)
  {
    PairEntriesLayout(dataset, systematic, n);
    var pe := PairEntries(dataset, systematic, n);
    if systematic == NOMINAL {
      assert pe[i] == Entry(dataset, v, i);
    } else if v == systematic + UP {
      assert pe[2 * i] == Entry(dataset, v, i);
    } else {
      assert pe[2 * i + 1] == Entry(dataset, v, i);
    }
  }

  lemma PairEntriesDistinct(dataset: string, systematic: string, n: nat)
    ensures NoDuplicates(PairEntries(dataset, systematic, n))
  {
    PairEntriesLayout(dataset, systematic, n);
    LabelsDistinct(systematic);
    var pe := PairEntries(dataset, systematic, n);
    if systematic == NOMINAL {
      assert |Labels(systematic)| == 1;
    } else {
      assert |Labels(systematic)| == 2;
      forall p, q | 0 <= p < q < |pe| ensures pe[p] != pe[q] {
        if p % 2 != q % 2 {
          assert Labels(systematic)[p % 2] != Labels(systematic)[q % 2];
        }
      }
    }
  }

  // ---------------------------------------------------------------------------
  // Which branches occur

  lemma {:induction false} DatasetEntriesSound(dataset: Dataset, systematics: seq<Systematic>, year: string,
                                               gridCount: GridCount, k: nat)
    requires k < |DatasetEntries(dataset, systematics, year, gridCount)|
    ensures exists j :: (0 <= j < |systematics|
      && Produces(dataset, systematics[j], year, gridCount, DatasetEntries(dataset, systematics, year, gridCount)[k]))
    decreases |systematics|
  {
    var last := |systematics| - 1;
    var front := systematics[..last];
    var head := DatasetEntries(dataset, front, year, gridCount);
    var e := DatasetEntries(dataset, systematics, year, gridCount)[k];
    if k < |head| {
      DatasetEntriesSound(dataset, front, year, gridCount, k);
      var j :| 0 <= j < |front| && Produces(dataset, front[j], year, gridCount, head[k]);
      assert front[j] == systematics[j];
      assert Produces(dataset, systematics[j], year, gridCount, e);
    } else {
      var s := systematics[last];
      assert Applies(s, dataset, year);
      PairEntriesSound(dataset.key, s.key, FileCount(dataset, year, gridCount), k - |head|);
      assert Produces(dataset, systematics[last], year, gridCount, e);
    }
  }

  lemma {:induction false} DatasetEntriesComplete(dataset: Dataset, systematics: seq<Systematic>, year: string,
                                                  gridCount: GridCount, j: nat, e: Entry)
    requires j < |systematics| && Produces(dataset, systematics[j], year, gridCount, e)
    ensures e in DatasetEntries(dataset, systematics, year, gridCount)
    decreases |systematics|
  {
    var last := |systematics| - 1;
    var front := systematics[..last];
    if j == last {
      PairEntriesComplete(dataset.key, systematics[j].key, FileCount(dataset, year, gridCount), e.variation, e.index);
    } else {
      assert front[j] == systematics[j];
      DatasetEntriesComplete(dataset, front, year, gridCount, j, e);
    }
  }

  /** Every branch is well formed: it belongs to some dataset of the table and
      to some systematic that applies to that dataset in the year, its label is
      one of that systematic's labels and its file index is below the
      dataset's file count. */
  lemma {:induction false} BranchesSound(datasets: seq<Dataset>, systematics: seq<Systematic>, year: string,
                                         gridCount: GridCount, k: nat)
    requires k < |Branches(datasets, systematics, year, gridCount)|
    ensures exists i, j :: (0 <= i < |datasets| && 0 <= j < |systematics|
      && Produces(datasets[i], systematics[j], year, gridCount, Branches(datasets, systematics, year, gridCount)[k]))
    decreases |datasets|
  {
    var last := |datasets| - 1;
    var front := datasets[..last];
    var head := Branches(front, systematics, year, gridCount);
    var e := Branches(datasets, systematics, year, gridCount)[k];
    if k < |head| {
      BranchesSound(front, systematics, year, gridCount, k);
      var i, j :| 0 <= i < |front| && 0 <= j < |systematics|
        && Produces(front[i], systematics[j], year, gridCount, head[k]);
      assert front[i] == datasets[i];
      assert Produces(datasets[i], systematics[j], year, gridCount, e);
    } else {
      DatasetEntriesSound(datasets[last], systematics, year, gridCount, k - |head|);
      var j :| 0 <= j < |systematics| && Produces(datasets[last], systematics[j], year, gridCount, e);
    }
  }

  /** Every combination the applicability filter admits occurs: for each
      dataset, each systematic that applies to it, each of its labels and each
      file index below the dataset's file count, the branch is in the list. */
  lemma {:induction false} BranchesComplete(datasets: seq<Dataset>, systematics: seq<Systematic>, year: string,
                                            gridCount: GridCount, i: nat, j: nat, e: Entry)
    requires i < |datasets| && j < |systematics|
    requires Produces(datasets[i], systematics[j], year, gridCount, e)
    ensures e in Branches(datasets, systematics, year, gridCount)
    decreases |datasets|
  {
    var last := |datasets| - 1;
    var front := datasets[..last];
    if i == last {
      DatasetEntriesComplete(datasets[i], systematics, year, gridCount, j, e);
    } else {
      assert front[i] == datasets[i];
      BranchesComplete(front, systematics, year, gridCount, i, j, e);
    }
  }

  /** A systematic that is not a shape systematic, or whose years exclude the
      year, or whose dataset list excludes the dataset, contributes no branch for
      that dataset. */
  lemma NotAppliedContributesNothing(datasets: seq<Dataset>, systematics: seq<Systematic>, year: string,
                                     gridCount: GridCount, i: nat, j: nat)
    requires DistinctDatasetKeys(datasets) && DistinctSystematicKeys(systematics)
    requires i < |datasets| && j < |systematics|
    requires !Applies(systematics[j], datasets[i], year)
    ensures forall e :: (e in Branches(datasets, systematics, year, gridCount) && e.dataset == datasets[i].key
      ==> e.variation !in Labels(systematics[j].key))
  {
    var b := Branches(datasets, systematics, year, gridCount);
    forall e | e in b && e.dataset == datasets[i].key ensures e.variation !in Labels(systematics[j].key) {
      var k :| 0 <= k < |b| && b[k] == e;
      BranchesSound(datasets, systematics, year, gridCount, k);
      var i', j' :| 0 <= i' < |datasets| && 0 <= j' < |systematics|
        && Produces(datasets[i'], systematics[j'], year, gridCount, e);
      assert i' == i;
      if j' != j {
        LabelsDisjoint(systematics[j'].key, systematics[j].key);
      }
    }
  }

  // ---------------------------------------------------------------------------
  // How many branches there are

  /** The number of branches one pair contributes: the dataset's file count for
      the nominal systematic, twice that for any other, nothing when the
      systematic does not apply. */
  function PairSize(dataset: Dataset, systematic: Systematic, year: string, gridCount: GridCount): nat {
    if Applies(systematic, dataset, year)
    then FileCount(dataset, year, gridCount) * (if systematic.key == NOMINAL then 1 else 2)
    else 0
  }

  function DatasetSize(dataset: Dataset, systematics: seq<Systematic>, year: string, gridCount: GridCount): nat {
    if systematics == [] then 0
    else PairSize(dataset, systematics[0], year, gridCount) + DatasetSize(dataset, systematics[1..], year, gridCount)
  }

  function TotalSize(datasets: seq<Dataset>, systematics: seq<Systematic>, year: string, gridCount: GridCount): nat {
    if datasets == [] then 0
    else DatasetSize(datasets[0], systematics, year, gridCount) + TotalSize(datasets[1..], systematics, year, gridCount)
  }

  lemma {:induction false} DatasetSizeSnoc(dataset: Dataset, systematics: seq<Systematic>, year: string, gridCount: GridCount)
    requires |systematics| > 0
    ensures DatasetSize(dataset, systematics, year, gridCount)
         == DatasetSize(dataset, systematics[..|systematics| - 1], year, gridCount)
            + PairSize(dataset, systematics[|systematics| - 1], year, gridCount)
    decreases |systematics|
  {
    if |systematics| > 1 {
      var rest := systematics[1..];
      DatasetSizeSnoc(dataset, rest, year, gridCount);
      assert rest[..|rest| - 1] == systematics[..|systematics| - 1][1..];
    }
  }

  lemma {:induction false} TotalSizeSnoc(datasets: seq<Dataset>, systematics: seq<Systematic>, year: string, gridCount: GridCount)
    requires |datasets| > 0
    ensures TotalSize(datasets, systematics, year, gridCount)
         == TotalSize(datasets[..|datasets| - 1], systematics, year, gridCount)
            + DatasetSize(datasets[|datasets| - 1], systematics, year, gridCount)
    decreases |datasets|
  {
    if |datasets| > 1 {
      var rest := datasets[1..];
      TotalSizeSnoc(rest, systematics, year, gridCount);
      assert rest[..|rest| - 1] == datasets[..|datasets| - 1][1..];
    }
  }

  lemma {:induction false} DatasetEntriesCount(dataset: Dataset, systematics: seq<Systematic>, year: string, gridCount: GridCount)
    ensures |DatasetEntries(dataset, systematics, year, gridCount)| == DatasetSize(dataset, systematics, year, gridCount)
    decreases |systematics|
  {
    if |systematics| > 0 {
      var s := systematics[|systematics| - 1];
      DatasetEntriesCount(dataset, systematics[..|systematics| - 1], year, gridCount);
      DatasetSizeSnoc(dataset, systematics, year, gridCount);
      PairContributionCount(dataset, s, year, gridCount);
    }
  }

  lemma PairContributionCount(dataset: Dataset, systematic: Systematic, year: string, gridCount: GridCount)
    ensures |PairContribution(dataset, systematic, year, gridCount)| == PairSize(dataset, systematic, year, gridCount)
  {
    PairEntriesLayout(dataset.key, systematic.key, FileCount(dataset, year, gridCount));
    if systematic.key == NOMINAL {
      assert |Labels(systematic.key)| == 1;
    } else {
      assert |Labels(systematic.key)| == 2;
    }
  }

  /** The number of branches is the sum, over datasets d and the systematics s
      that apply to d, of d's file count, doubled when s is not nominal. */
  lemma {:induction false} BranchCount(datasets: seq<Dataset>, systematics: seq<Systematic>, year: string, gridCount: GridCount)
    ensures |Branches(datasets, systematics, year, gridCount)| == TotalSize(datasets, systematics, year, gridCount)
    decreases |datasets|
  {
    if |datasets| > 0 {
      BranchCount(datasets[..|datasets| - 1], systematics, year, gridCount);
      TotalSizeSnoc(datasets, systematics, year, gridCount);
      DatasetEntriesCount(datasets[|datasets| - 1], systematics, year, gridCount);
    }
  }

  /** The branch map is empty exactly when no pair that passes the filter has
      an input file; in particular with no datasets, or with no systematic that
      applies to any dataset. */
  lemma EmptyIff(datasets: seq<Dataset>, systematics: seq<Systematic>, year: string, gridCount: GridCount)
    ensures Branches(datasets, systematics, year, gridCount) == []
      <==> forall i, j :: 0 <= i < |datasets| && 0 <= j < |systematics| && Applies(systematics[j], datasets[i], year)
             ==> FileCount(datasets[i], year, gridCount) == 0
  {
    var b := Branches(datasets, systematics, year, gridCount);
    if b != [] {
      BranchesSound(datasets, systematics, year, gridCount, 0);
    }
    if exists i, j :: 0 <= i < |datasets| && 0 <= j < |systematics| && Applies(systematics[j], datasets[i], year)
         && FileCount(datasets[i], year, gridCount) != 0
    {
      var i, j :| 0 <= i < |datasets| && 0 <= j < |systematics| && Applies(systematics[j], datasets[i], year)
        && FileCount(datasets[i], year, gridCount) != 0;
      var e := Entry(datasets[i].key, Labels(systematics[j].key)[0], 0);
      BranchesComplete(datasets, systematics, year, gridCount, i, j, e);
    }
  }

  // ---------------------------------------------------------------------------
  // No branch repeats

  lemma NoDuplicatesAppend(a: seq<Entry>, b: seq<Entry>)
    requires NoDuplicates(a) && NoDuplicates(b)
    requires forall p, q :: 0 <= p < |a| && 0 <= q < |b| ==> a[p] != b[q]
    ensures NoDuplicates(a + b)
  {
  }

  lemma {:induction false} DatasetEntriesDistinct(dataset: Dataset, systematics: seq<Systematic>, year: string, gridCount: GridCount)
    requires DistinctSystematicKeys(systematics)
    ensures NoDuplicates(DatasetEntries(dataset, systematics, year, gridCount))
    decreases |systematics|
  {
    if |systematics| > 0 {
      var last := |systematics| - 1;
      var front := systematics[..last];
      var s := systematics[last];
      var a := DatasetEntries(dataset, front, year, gridCount);
      var b := PairContribution(dataset, s, year, gridCount);
      DatasetEntriesDistinct(dataset, front, year, gridCount);
      PairEntriesDistinct(dataset.key, s.key, FileCount(dataset, year, gridCount));
      forall p, q | 0 <= p < |a| && 0 <= q < |b| ensures a[p] != b[q] {
        DatasetEntriesSound(dataset, front, year, gridCount, p);
        var j :| 0 <= j < |front| && Produces(dataset, front[j], year, gridCount, a[p]);
        PairEntriesSound(dataset.key, s.key, FileCount(dataset, year, gridCount), q);
        assert front[j].key != s.key;
        LabelsDisjoint(front[j].key, s.key);
      }
      NoDuplicatesAppend(a, b);
    }
  }

  /** With distinct dataset keys and distinct systematic keys, no two branches
      are equal. */
  lemma {:induction false} BranchesDistinct(datasets: seq<Dataset>, systematics: seq<Systematic>, year: string, gridCount: GridCount)
    requires DistinctDatasetKeys(datasets) && DistinctSystematicKeys(systematics)
    ensures NoDuplicates(Branches(datasets, systematics, year, gridCount))
    decreases |datasets|
  {
    if |datasets| > 0 {
      var last := |datasets| - 1;
      var front := datasets[..last];
      var a := Branches(front, systematics, year, gridCount);
      var b := DatasetEntries(datasets[last], systematics, year, gridCount);
      BranchesDistinct(front, systematics, year, gridCount);
      DatasetEntriesDistinct(datasets[last], systematics, year, gridCount);
      OtherKeyAbsent(front, systematics, year, gridCount, datasets[last].key);
      forall q | 0 <= q < |b| ensures b[q].dataset == datasets[last].key {
        DatasetEntriesSound(datasets[last], systematics, year, gridCount, q);
      }
      NoDuplicatesAppend(a, b);
    }
  }

  // ---------------------------------------------------------------------------
  // Order

  /** A key that no dataset of the table carries is carried by no branch. */
  lemma OtherKeyAbsent(datasets: seq<Dataset>, systematics: seq<Systematic>, year: string, gridCount: GridCount, key: string)
    requires forall i :: 0 <= i < |datasets| ==> datasets[i].key != key
    ensures forall k :: 0 <= k < |Branches(datasets, systematics, year, gridCount)| ==>
      Branches(datasets, systematics, year, gridCount)[k].dataset != key
  {
    var b := Branches(datasets, systematics, year, gridCount);
    forall k | 0 <= k < |b| ensures b[k].dataset != key {
      BranchesSound(datasets, systematics, year, gridCount, k);
      var i, j :| 0 <= i < |datasets| && 0 <= j < |systematics| && Produces(datasets[i], systematics[j], year, gridCount, b[k]);
    }
  }

  /** A systematic name that no entry of the table carries labels no branch. */
  lemma OtherSystematicAbsent(dataset: Dataset, systematics: seq<Systematic>, year: string, gridCount: GridCount, key: string)
    requires forall j :: 0 <= j < |systematics| ==> systematics[j].key != key
    ensures forall k :: 0 <= k < |DatasetEntries(dataset, systematics, year, gridCount)| ==>
      DatasetEntries(dataset, systematics, year, gridCount)[k].variation !in Labels(key)
  {
    var d := DatasetEntries(dataset, systematics, year, gridCount);
    forall k | 0 <= k < |d| ensures d[k].variation !in Labels(key) {
      DatasetEntriesSound(dataset, systematics, year, gridCount, k);
      var j :| 0 <= j < |systematics| && Produces(dataset, systematics[j], year, gridCount, d[k]);
      LabelsDisjoint(systematics[j].key, key);
    }
  }

  /** Walking a concatenation of dataset tables appends their branch lists. */
  lemma {:induction false} BranchesAppend(first: seq<Dataset>, second: seq<Dataset>, systematics: seq<Systematic>,
                                          year: string, gridCount: GridCount)
    ensures Branches(first + second, systematics, year, gridCount)
         == Branches(first, systematics, year, gridCount) + Branches(second, systematics, year, gridCount)
    decreases |second|
  {
    if |second| == 0 {
      assert first + second == first;
    } else {
      BranchesAppend(first, second[..|second| - 1], systematics, year, gridCount);
      BranchesAppendStep(first, second, systematics, year, gridCount);
    }
  }

  lemma BranchesAppendStep(first: seq<Dataset>, second: seq<Dataset>, systematics: seq<Systematic>,
                           year: string, gridCount: GridCount)
    requires |second| > 0
    requires Branches(first + second[..|second| - 1], systematics, year, gridCount)
          == Branches(first, systematics, year, gridCount) + Branches(second[..|second| - 1], systematics, year, gridCount)
    ensures Branches(first + second, systematics, year, gridCount)
         == Branches(first, systematics, year, gridCount) + Branches(second, systematics, year, gridCount)
  {
    DropLastOfAppend(first, second);
  }

  /** Walking a concatenation of systematics tables appends their branch lists. */
  lemma {:induction false} DatasetEntriesAppend(dataset: Dataset, first: seq<Systematic>, second: seq<Systematic>,
                                                year: string, gridCount: GridCount)
    ensures DatasetEntries(dataset, first + second, year, gridCount)
         == DatasetEntries(dataset, first, year, gridCount) + DatasetEntries(dataset, second, year, gridCount)
    decreases |second|
  {
    if |second| == 0 {
      assert first + second == first;
    } else {
      DatasetEntriesAppend(dataset, first, second[..|second| - 1], year, gridCount);
      DatasetEntriesAppendStep(dataset, first, second, year, gridCount);
    }
  }

  lemma DatasetEntriesAppendStep(dataset: Dataset, first: seq<Systematic>, second: seq<Systematic>,
                                 year: string, gridCount: GridCount)
    requires |second| > 0
    requires DatasetEntries(dataset, first + second[..|second| - 1], year, gridCount)
          == DatasetEntries(dataset, first, year, gridCount) + DatasetEntries(dataset, second[..|second| - 1], year, gridCount)
    ensures DatasetEntries(dataset, first + second, year, gridCount)
         == DatasetEntries(dataset, first, year, gridCount) + DatasetEntries(dataset, second, year, gridCount)
  {
    DropLastOfAppend(first, second);
  }

  lemma DropLastOfAppend<T>(first: seq<T>, second: seq<T>)
    requires |second| > 0
    ensures (first + second)[..|first + second| - 1] == first + second[..|second| - 1]
    ensures (first + second)[|first + second| - 1] == second[|second| - 1]
  {
  }

  /** All branches of an earlier dataset precede all branches of a later one. */
  lemma DatasetOrder(datasets: seq<Dataset>, systematics: seq<Systematic>, year: string, gridCount: GridCount,
                     p: nat, q: nat, i: nat, j: nat)
    requires DistinctDatasetKeys(datasets)
    requires i < j < |datasets|
    requires p < |Branches(datasets, systematics, year, gridCount)| && q < |Branches(datasets, systematics, year, gridCount)|
    requires Branches(datasets, systematics, year, gridCount)[p].dataset == datasets[i].key
    requires Branches(datasets, systematics, year, gridCount)[q].dataset == datasets[j].key
    ensures p < q
  {
    var front, back := datasets[..j], datasets[j..];
    assert datasets == front + back;
    BranchesAppend(front, back, systematics, year, gridCount);
    OtherKeyAbsent(front, systematics, year, gridCount, datasets[j].key);
    OtherKeyAbsent(back, systematics, year, gridCount, datasets[i].key);
    var b1 := Branches(front, systematics, year, gridCount);
    assert p < |b1|;
    assert q >= |b1|;
  }

  /** Within one dataset, branches follow the order of the systematics table. */
  lemma DatasetEntriesOrder(dataset: Dataset, systematics: seq<Systematic>, year: string, gridCount: GridCount,
                            p: nat, q: nat, i: nat, j: nat)
    requires DistinctSystematicKeys(systematics)
    requires i < j < |systematics|
    requires p < |DatasetEntries(dataset, systematics, year, gridCount)| && q < |DatasetEntries(dataset, systematics, year, gridCount)|
    requires DatasetEntries(dataset, systematics, year, gridCount)[p].variation in Labels(systematics[i].key)
    requires DatasetEntries(dataset, systematics, year, gridCount)[q].variation in Labels(systematics[j].key)
    ensures p < q
  {
    BeforeSplit(dataset, systematics, year, gridCount, p, i, j);
    AfterSplit(dataset, systematics, year, gridCount, q, j);
  }

  /** A branch of an earlier systematic than systematics[j] lies among the
      branches of systematics[..j]. */
  lemma BeforeSplit(dataset: Dataset, systematics: seq<Systematic>, year: string, gridCount: GridCount,
                    p: nat, i: nat, j: nat)
    requires DistinctSystematicKeys(systematics)
    requires i < j < |systematics|
    requires p < |DatasetEntries(dataset, systematics, year, gridCount)|
    requires DatasetEntries(dataset, systematics, year, gridCount)[p].variation in Labels(systematics[i].key)
    ensures p < |DatasetEntries(dataset, systematics[..j], year, gridCount)|
  {
    var front, back := systematics[..j], systematics[j..];
    assert systematics == front + back;
    DatasetEntriesAppend(dataset, front, back, year, gridCount);
    OtherSystematicAbsent(dataset, back, year, gridCount, systematics[i].key);
  }

  /** A branch of systematics[j] lies after the branches of systematics[..j]. */
  lemma AfterSplit(dataset: Dataset, systematics: seq<Systematic>, year: string, gridCount: GridCount,
                   q: nat, j: nat)
    requires DistinctSystematicKeys(systematics)
    requires j < |systematics|
    requires q < |DatasetEntries(dataset, systematics, year, gridCount)|
    requires DatasetEntries(dataset, systematics, year, gridCount)[q].variation in Labels(systematics[j].key)
    ensures q >= |DatasetEntries(dataset, systematics[..j], year, gridCount)|
  {
    var front, back := systematics[..j], systematics[j..];
    assert systematics == front + back;
    DatasetEntriesAppend(dataset, front, back, year, gridCount);
    OtherSystematicAbsent(dataset, front, year, gridCount, systematics[j].key);
  }

  /** The branches of datasets[m] form one block of the list, between the
      branches of the datasets before it and those after it. */
  lemma DatasetBlock(datasets: seq<Dataset>, systematics: seq<Systematic>, year: string, gridCount: GridCount, m: nat)
    requires m < |datasets|
    ensures Branches(datasets, systematics, year, gridCount)
         == Branches(datasets[..m], systematics, year, gridCount)
            + DatasetEntries(datasets[m], systematics, year, gridCount)
            + Branches(datasets[m + 1..], systematics, year, gridCount)
  {
    assert datasets == datasets[..m + 1] + datasets[m + 1..];
    BranchesAppend(datasets[..m + 1], datasets[m + 1..], systematics, year, gridCount);
    BranchesStep(datasets, systematics, m, year, gridCount);
  }

  /** A branch that carries the key of datasets[m] lies in that dataset's block. */
  lemma InBlock(datasets: seq<Dataset>, systematics: seq<Systematic>, year: string, gridCount: GridCount, m: nat, p: nat)
    requires DistinctDatasetKeys(datasets)
    requires m < |datasets| && p < |Branches(datasets, systematics, year, gridCount)|
    requires Branches(datasets, systematics, year, gridCount)[p].dataset == datasets[m].key
    ensures |Branches(datasets[..m], systematics, year, gridCount)| <= p
    ensures p - |Branches(datasets[..m], systematics, year, gridCount)| < |DatasetEntries(datasets[m], systematics, year, gridCount)|
    ensures Branches(datasets, systematics, year, gridCount)[p]
         == DatasetEntries(datasets[m], systematics, year, gridCount)[p - |Branches(datasets[..m], systematics, year, gridCount)|]
  {
    DatasetBlock(datasets, systematics, year, gridCount, m);
    OtherKeyAbsent(datasets[..m], systematics, year, gridCount, datasets[m].key);
    OtherKeyAbsent(datasets[m + 1..], systematics, year, gridCount, datasets[m].key);
    var before := Branches(datasets[..m], systematics, year, gridCount);
    var block := DatasetEntries(datasets[m], systematics, year, gridCount);
    assert p >= |before|;
    assert p < |before| + |block|;
  }

  lemma DatasetIndex(datasets: seq<Dataset>, systematics: seq<Systematic>, year: string, gridCount: GridCount, k: nat)
    returns (m: nat)
    requires k < |Branches(datasets, systematics, year, gridCount)|
    ensures m < |datasets| && Branches(datasets, systematics, year, gridCount)[k].dataset == datasets[m].key
  {
    BranchesSound(datasets, systematics, year, gridCount, k);
    var i, j :| 0 <= i < |datasets| && 0 <= j < |systematics|
      && Produces(datasets[i], systematics[j], year, gridCount, Branches(datasets, systematics, year, gridCount)[k]);
    m := i;
  }

  /** Within one dataset of the whole list, branches follow the order of the
      systematics table. */
  lemma SystematicOrder(datasets: seq<Dataset>, systematics: seq<Systematic>, year: string, gridCount: GridCount,
                        p: nat, q: nat, i: nat, j: nat)
    requires DistinctDatasetKeys(datasets) && DistinctSystematicKeys(systematics)
    requires i < j < |systematics|
    requires p < |Branches(datasets, systematics, year, gridCount)| && q < |Branches(datasets, systematics, year, gridCount)|
    requires Branches(datasets, systematics, year, gridCount)[p].dataset == Branches(datasets, systematics, year, gridCount)[q].dataset
    requires Branches(datasets, systematics, year, gridCount)[p].variation in Labels(systematics[i].key)
    requires Branches(datasets, systematics, year, gridCount)[q].variation in Labels(systematics[j].key)
    ensures p < q
  {
    var m := DatasetIndex(datasets, systematics, year, gridCount, p);
    InBlock(datasets, systematics, year, gridCount, m, p);
    InBlock(datasets, systematics, year, gridCount, m, q);
    var offset := |Branches(datasets[..m], systematics, year, gridCount)|;
    DatasetEntriesOrder(datasets[m], systematics, year, gridCount, p - offset, q - offset, i, j);
  }
}
