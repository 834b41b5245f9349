/** HistoTask.log and HistoTask.output: the log target is the histopath of the
    branch with '.root' replaced by '.log', and the output targets are the log
    and the log with '.log' replaced back by '.root'. */
module TaskTargets {
  import opened Types
  import opened BranchMap
  import BranchMapProperties

  const ROOT_EXT: string := ".root"
  const LOG_EXT: string := ".log"

  /** Python's `pat in s`. */
  predicate Contains(s: string, pat: string)
    decreases |s|
  {
    |pat| <= |s| && (s[..|pat|] == pat || (|s| > 0 && Contains(s[1..], pat)))
  }

  /** Python's s.replace(pat, rep): scanning left to right, every occurrence of
      pat is replaced and scanning resumes after it, so occurrences do not
      overlap; an empty pat inserts rep before every character and at the end. */
  function Replace(s: string, pat: string, rep: string): (r: string)
    ensures |pat| > 0 && !Contains(s, pat) ==> r == s
    decreases |s|
  {
    if |pat| == 0 then (if |s| == 0 then rep else rep + [s[0]] + Replace(s[1..], pat, rep))
    else if |s| < |pat| then s
    else if s[..|pat|] == pat then rep + Replace(s[|pat|..], pat, rep)
    else [s[0]] + Replace(s[1..], pat, rep)
  }

  /** datasets[key]: the entry of the dataset table with that key, None where
      Python raises KeyError. */
  function FindDataset(datasets: seq<Dataset>, key: string): (r: Option<Dataset>)
    ensures r.Some? ==> r.value in datasets && r.value.key == key
    ensures r.None? <==> forall i :: 0 <= i < |datasets| ==> datasets[i].key != key
    ensures DistinctDatasetKeys(datasets) ==> forall i :: 0 <= i < |datasets| && datasets[i].key == key ==> r == Some(datasets[i])
  {
    if |datasets| == 0 then None
    else if datasets[0].key == key then Some(datasets[0])
    else FindDataset(datasets[1..], key)
  }

  /** log(): histopath of the branch, called with the dataset's MC flag and the
      dataset key as file name, with '.root' replaced by '.log'. */
  function Log(datasets: seq<Dataset>, histopath: HistoPath, task: HistoTask, branch: Entry): (r: Option<string>)
    ensures r.None? <==> forall i :: 0 <= i < |datasets| ==> datasets[i].key != branch.dataset
    ensures r.Some? ==> !Contains(r.value, ROOT_EXT)
  {
    match FindDataset(datasets, branch.dataset)
    case None => None
    case Some(dataset) =>
      var h := histopath(dataset.isMC, task.year, branch.dataset, task.region, branch.variation, branch.index);
      NoRootLeft(h);
      Some(Replace(h, ROOT_EXT, LOG_EXT))
  }

  /** output(): the log target and the log with '.log' replaced by '.root'. */
  function Output(datasets: seq<Dataset>, histopath: HistoPath, task: HistoTask, branch: Entry): (r: Option<seq<string>>)
    ensures r.None? <==> Log(datasets, histopath, task, branch).None?
    ensures r.Some? ==> |r.value| == 2 && r.value[0] == Log(datasets, histopath, task, branch).value
  {
    match Log(datasets, histopath, task, branch)
    case None => None
    case Some(log) => Some([log, Replace(log, LOG_EXT, ROOT_EXT)])
  }

  // ---------------------------------------------------------------------------
  // Replace

  lemma ContainsTail(s: string, pat: string)
    requires |s| > 0 && Contains(s[1..], pat)
    ensures Contains(s, pat)
  {
  }

  /** A string that holds no pat has no suffix that holds it. */
  lemma {:induction false} NotContainsSuffix(s: string, pat: string, n: nat)
    requires n <= |s| && !Contains(s, pat)
    ensures !Contains(s[n..], pat)
    decreases n
  {
    if n > 0 {
      NotContainsSuffix(s, pat, n - 1);
      if Contains(s[n..], pat) {
        assert s[n - 1..][1..] == s[n..];
        ContainsTail(s[n - 1..], pat);
      }
    }
  }

  /** Replacing '.root' by '.log' creates no prefix free of '.': whatever such
      prefix the result has, the original had. */
  lemma {:induction false} NoDotPrefix(s: string, w: string)
    requires '.' !in w
    ensures |w| <= |Replace(s, ROOT_EXT, LOG_EXT)| && Replace(s, ROOT_EXT, LOG_EXT)[..|w|] == w
            ==> |w| <= |s| && s[..|w|] == w
    decreases |s|
  {
    if |w| > 0 && |s| >= |ROOT_EXT| {
      var x := Replace(s, ROOT_EXT, LOG_EXT);
      if s[..|ROOT_EXT|] == ROOT_EXT {
        assert x[0] == '.' && w[0] != '.';
      } else {
        var y := Replace(s[1..], ROOT_EXT, LOG_EXT);
        assert x == [s[0]] + y;
        if |w| <= |x| && x[..|w|] == w {
          assert y[..|w| - 1] == w[1..];
        }
        NoDotPrefix(s[1..], w[1..]);
      }
    }
  }

  /** The output target computed from the log is the histopath again whenever
      the histopath holds no '.log': '.root' becomes '.log' and back. */
  lemma {:induction false} RestoreRoot(h: string)
    requires !Contains(h, LOG_EXT)
    ensures Replace(Replace(h, ROOT_EXT, LOG_EXT), LOG_EXT, ROOT_EXT) == h
    decreases |h|
  {
    if |h| < |ROOT_EXT| {
      assert Replace(h, ROOT_EXT, LOG_EXT) == h;
    } else if h[..|ROOT_EXT|] == ROOT_EXT {
      NotContainsSuffix(h, LOG_EXT, |ROOT_EXT|);
      RestoreRoot(h[|ROOT_EXT|..]);
      RestoreRootAtRoot(h);
    } else {
      NotContainsSuffix(h, LOG_EXT, 1);
      RestoreRoot(h[1..]);
      RestoreRootElsewhere(h);
    }
  }

  /** The step of RestoreRoot where h starts with '.root'. */
  lemma RestoreRootAtRoot(h: string)
    requires |h| >= |ROOT_EXT| && h[..|ROOT_EXT|] == ROOT_EXT
    requires Replace(Replace(h[|ROOT_EXT|..], ROOT_EXT, LOG_EXT), LOG_EXT, ROOT_EXT) == h[|ROOT_EXT|..]
    ensures Replace(Replace(h, ROOT_EXT, LOG_EXT), LOG_EXT, ROOT_EXT) == h
  {
    var t := h[|ROOT_EXT|..];
    var y := Replace(t, ROOT_EXT, LOG_EXT);
    assert Replace(h, ROOT_EXT, LOG_EXT) == LOG_EXT + y;
    assert (LOG_EXT + y)[..|LOG_EXT|] == LOG_EXT;
    assert (LOG_EXT + y)[|LOG_EXT|..] == y;
    assert h == ROOT_EXT + t;
  }

  /** The step of RestoreRoot where h does not start with '.root'. */
  lemma RestoreRootElsewhere(h: string)
    requires |h| >= |ROOT_EXT| && h[..|ROOT_EXT|] != ROOT_EXT && !Contains(h, LOG_EXT)
    requires Replace(Replace(h[1..], ROOT_EXT, LOG_EXT), LOG_EXT, ROOT_EXT) == h[1..]
    ensures Replace(Replace(h, ROOT_EXT, LOG_EXT), LOG_EXT, ROOT_EXT) == h
  {
    var x := Replace(h, ROOT_EXT, LOG_EXT);
    var y := Replace(h[1..], ROOT_EXT, LOG_EXT);
    NoLogCreated(h);
    assert x[1..] == y;
    assert h == [h[0]] + h[1..];
  }

  /** Where h does not start with '.root' and holds no '.log', replacing
      '.root' by '.log' keeps its first character and does not start the
      result with '.log'. */
  lemma NoLogCreated(h: string)
    requires |h| >= |ROOT_EXT| && h[..|ROOT_EXT|] != ROOT_EXT && !Contains(h, LOG_EXT)
    ensures var x := Replace(h, ROOT_EXT, LOG_EXT);
      |x| > 0 && x[0] == h[0] && x[1..] == Replace(h[1..], ROOT_EXT, LOG_EXT)
      && (|x| >= |LOG_EXT| ==> x[..|LOG_EXT|] != LOG_EXT)
  {
    var x := Replace(h, ROOT_EXT, LOG_EXT);
    var y := Replace(h[1..], ROOT_EXT, LOG_EXT);
    assert x == [h[0]] + y;
    if |x| >= |LOG_EXT| {
      assert x[..|LOG_EXT|] != LOG_EXT by {
        if x[..|LOG_EXT|] == LOG_EXT {
          assert y[..3] == x[..|LOG_EXT|][1..];
          NoDotPrefix(h[1..], "log");
        }
      }
    }
  }

  /** A string whose tail holds no pat, and which differs from pat at some
      position j, holds no pat. */
  lemma NotContainsFrom(z: string, i: nat, j: nat, pat: string)
    requires i < |z| && j < |pat| && (i + j < |z| ==> z[i + j] != pat[j]) && !Contains(z[i + 1..], pat)
    ensures !Contains(z[i..], pat)
  {
    assert z[i..][1..] == z[i + 1..];
    assert |pat| <= |z[i..]| ==> z[i..][..|pat|][j] == z[i + j];
  }

  /** After '.root' is replaced by '.log', no '.root' is left. */
  lemma {:induction false} NoRootLeft(h: string)
    ensures !Contains(Replace(h, ROOT_EXT, LOG_EXT), ROOT_EXT)
    decreases |h|
  {
    var x := Replace(h, ROOT_EXT, LOG_EXT);
    if |h| < |ROOT_EXT| {
    } else if h[..|ROOT_EXT|] == ROOT_EXT {
      var y := Replace(h[|ROOT_EXT|..], ROOT_EXT, LOG_EXT);
      NoRootLeft(h[|ROOT_EXT|..]);
      assert x == LOG_EXT + y;
      assert x[4..] == y;
      NotContainsFrom(x, 3, 0, ROOT_EXT);
      NotContainsFrom(x, 2, 0, ROOT_EXT);
      NotContainsFrom(x, 1, 0, ROOT_EXT);
      NotContainsFrom(x, 0, 1, ROOT_EXT);
    } else {
      var y := Replace(h[1..], ROOT_EXT, LOG_EXT);
      assert x == [h[0]] + y;
      NoRootLeft(h[1..]);
      if |x| >= |ROOT_EXT| {
        assert x[..|ROOT_EXT|] != ROOT_EXT by {
          if x[..|ROOT_EXT|] == ROOT_EXT {
            assert y[..4] == x[..|ROOT_EXT|][1..];
            NoDotPrefix(h[1..], "root");
          }
        }
      }
      assert x[1..] == y;
    }
  }

  // ---------------------------------------------------------------------------
  // Targets of a branch

  /** Every branch of the branch map names a dataset of the table, so log()
      and output() never raise KeyError on it, and output() has two targets. */
  lemma TargetsDefined(datasets: seq<Dataset>, systematics: seq<Systematic>, year: string, gridCount: GridCount,
                       histopath: HistoPath, region: string, k: nat)
    requires k < |Branches(datasets, systematics, year, gridCount)|
    ensures Log(datasets, histopath, HistoTask(year, region), Branches(datasets, systematics, year, gridCount)[k]).Some?
    ensures Output(datasets, histopath, HistoTask(year, region), Branches(datasets, systematics, year, gridCount)[k]).Some?
    ensures |Output(datasets, histopath, HistoTask(year, region), Branches(datasets, systematics, year, gridCount)[k]).value| == 2
  {
    BranchMapProperties.BranchesSound(datasets, systematics, year, gridCount, k);
    var e := Branches(datasets, systematics, year, gridCount)[k];
    var i, j :| 0 <= i < |datasets| && 0 <= j < |systematics|
      && BranchMapProperties.Produces(datasets[i], systematics[j], year, gridCount, e);
    assert datasets[i].key == e.dataset;
  }

  /** The log target never ends up holding '.root', and the second output
      target is the log with '.log' turned back into '.root'; when the histopath
      holds no '.log', that second target is the histopath itself. */
  lemma OutputTargets(datasets: seq<Dataset>, histopath: HistoPath, task: HistoTask, branch: Entry)
    requires FindDataset(datasets, branch.dataset).Some?
    ensures Log(datasets, histopath, task, branch).Some?
    ensures !Contains(Log(datasets, histopath, task, branch).value, ROOT_EXT)
    ensures Output(datasets, histopath, task, branch)
         == Some([Log(datasets, histopath, task, branch).value,
                  Replace(Log(datasets, histopath, task, branch).value, LOG_EXT, ROOT_EXT)])
    ensures var h := histopath(FindDataset(datasets, branch.dataset).value.isMC, task.year, branch.dataset,
                               task.region, branch.variation, branch.index);
            !Contains(h, LOG_EXT) ==> Output(datasets, histopath, task, branch).value[1] == h
  {
    var h := histopath(FindDataset(datasets, branch.dataset).value.isMC, task.year, branch.dataset,
                       task.region, branch.variation, branch.index);
    NoRootLeft(h);
    if !Contains(h, LOG_EXT) {
      RestoreRoot(h);
    }
  }
}
