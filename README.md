# Histogram workflow: branch map, task targets and region fan-out

This project models the core of the histogram-production workflow of an
analysis built on law/luigi, and proves properties of that model.

- **`HistoTask.create_branch_map`** expands the dataset table and the
  systematics table of a year into a list of branches, then numbers the list
  densely. A branch is `[dataset, variation, file index]`.
  - It walks the datasets in table order, and for each dataset the
    systematics in table order.
  - A (dataset, systematic) pair is kept when the systematic is of type
    `shape`, the year is one of its years, and it has no `datasets` entry or
    that entry names the dataset.
  - A kept `nominal` pair appends one `nominal` branch per input file. Any
    other kept systematic `s` appends, per input file, an `sUP` branch
    followed by an `sDOWN` branch.
- **`HistoTask.log` / `HistoTask.output`** derive the task's targets:
  - the log target is the histogram path with `.root` replaced by `.log`;
  - the output targets are the log and the log with `.log` replaced back by
    `.root`.
- **`AllHistoTasks.requires`** yields one `HistoTask` per region of the
  region table, for the wrapper's year.

The modules are:

- `Types` (`types.dfy`) holds the configuration records and the branch record.
  - A `Dataset` carries its key, its MC flag and its file name.
  - A `Systematic` carries its key, its type, its years and an optional
    dataset set.
  - An `Entry` is one branch.
  - The tables are sequences, in the order in which each table lists its keys.
  - The file lookup `len(getGridpaths(...))` is a parameter `GridCount`. The
    path scheme `histopath` is a parameter `HistoPath`.
- `BranchMap` (`branch_map.dfy`) holds the specification functions and the
  loops that build the list.
  - `PairEntries`, `DatasetEntries` and `Branches` are the specification.
  - `AppendPairBranches`, `AppendSystematicBranches`, `AppendDatasetBranches`
    and `CreateBranchMap` are the loops of `create_branch_map` and the body of
    its systematics loop, each proved against those functions.
- `BranchMapProperties` (`branch_map_properties.dfy`) proves what the list
  is:
  - the layout of one pair;
  - soundness and completeness against the applicability filter;
  - the total count;
  - the absence of duplicates;
  - the dataset, systematic and file order.
- `BranchMapExample` (`branch_map_example.dfy`) works out one instance in
  full.
- `TaskTargets` (`task_targets.dfy`) models Python's `str.replace` and the
  two target functions.
  - A `KeyError` from `datasets[...]` is the `None` of an `Option`.
- `AllHistoTasks` (`all_histo_tasks.dfy`) models the region fan-out.

## Model

| member | source | states |
|---|---|---|
| BranchMap.Applies | workflow/HistoTask.py:33-35 | the applicability filter: the systematic's type is `shape`, the year is in its years, and it has no dataset list or its list holds the dataset key; its consequences are stated by `NotAppliedContributesNothing`, `BranchesSound` and `BranchesComplete` |
| BranchMap.PairEntries | workflow/HistoTask.py:37-44 | the branches the file-index loop appends for the first n files of a pair: for i = 0..n-1 in order, `[d, label, i]` for each label of `Labels(s)` (`[nominal]`, or `[sUP, sDOWN]`); its layout is stated by `PairEntriesLayout` |
| BranchMap.DatasetEntries | workflow/HistoTask.py:31-44 | the branches appended for one dataset: the concatenation, in systematics order, of `PairEntries` for each systematic that passes `Applies`, and nothing for the others |
| BranchMap.Branches | workflow/HistoTask.py:29-44 | the whole `branches` list: the concatenation, in dataset order, of `DatasetEntries` for each dataset |
| BranchMap.CreateBranchMap | workflow/HistoTask.py:25-46 | the keys of the returned map are exactly 0..N-1, where N is the length of `Branches`; key k maps to the k-th branch of `Branches` (walk datasets in order, then `dict(enumerate(...))`) |
| BranchMap.AppendDatasetBranches | workflow/HistoTask.py:31-44 | the systematics loop of one dataset appends exactly `DatasetEntries`: the branches of each systematic that passes the type/year test and the dataset-list test, in table order, and nothing for any other systematic |
| BranchMap.AppendSystematicBranches | workflow/HistoTask.py:33-44 | one pass of the systematics loop appends exactly `PairContribution`: the pair's branches when both nested tests pass, nothing otherwise |
| BranchMap.AppendPairBranches | workflow/HistoTask.py:37-44 | the file-index loop of one kept pair appends exactly `PairEntries` for the pair's file count |
| BranchMapProperties.PairEntriesLayout | workflow/HistoTask.py:37-44 | a pair with n files gives n·w branches, where w is 1 for `nominal` and 2 otherwise; branch k is `[d, label k mod w, k div w]`, so `nominal` gives `[d, nominal, i]` for i = 0..n-1, any other s gives `[d, sUP, i]` immediately followed by `[d, sDOWN, i]`, indices ascend and n = 0 gives nothing |
| BranchMapProperties.PairEntriesSound | workflow/HistoTask.py:37-44 | every branch of a pair carries the pair's dataset, one of the systematic's labels and an index below n |
| BranchMapProperties.PairEntriesComplete | workflow/HistoTask.py:37-44 | every label of the systematic and every index below n occur in the pair's branches |
| BranchMapProperties.PairEntriesDistinct | workflow/HistoTask.py:37-44 | the branches of one pair are pairwise distinct |
| BranchMapProperties.LabelsDisjoint | workflow/HistoTask.py:40-44 | two different systematic names never share a variation label (`nominal`, `sUP`, `sDOWN`) |
| BranchMapProperties.LabelsDistinct | workflow/HistoTask.py:43-44 | the UP and DOWN labels of one systematic differ |
| BranchMapProperties.DatasetEntriesSound | workflow/HistoTask.py:31-44 | every branch appended for a dataset comes from a systematic of the table that applies to it, with one of its labels and an index below the dataset's file count |
| BranchMapProperties.DatasetEntriesComplete | workflow/HistoTask.py:31-44 | every branch such a systematic produces for the dataset is appended |
| BranchMapProperties.BranchesSound | workflow/HistoTask.py:30-44 | every branch is well formed: its dataset is a dataset of the table, its label is a label of a systematic that passes the filter for that dataset and year, and its index is below that dataset's file count |
| BranchMapProperties.BranchesComplete | workflow/HistoTask.py:30-44 | every (dataset, applied systematic, label, file index below the count) combination occurs in the list |
| BranchMapProperties.NotAppliedContributesNothing | workflow/HistoTask.py:33-35 | a systematic that is not `shape`, whose years exclude the year, or whose dataset list excludes the dataset, contributes no branch to that dataset |
| BranchMapProperties.PairContributionCount | workflow/HistoTask.py:33-44 | one systematic contributes to a dataset the file count, doubled unless the systematic is `nominal`, when it applies, and nothing otherwise |
| BranchMapProperties.DatasetEntriesCount | workflow/HistoTask.py:31-44 | the number of branches of one dataset is the sum of the contributions of the systematics |
| BranchMapProperties.BranchCount | workflow/HistoTask.py:29-46 | N equals the sum, over datasets d and the systematics s that apply to d, of d's file count times 1 for `nominal` and 2 otherwise (an independent head-first sum `TotalSize`) |
| BranchMapProperties.EmptyIff | workflow/HistoTask.py:29-46 | the list is empty exactly when every applied pair has no input file; in particular with no datasets or no applied systematic |
| BranchMapProperties.DatasetEntriesDistinct | workflow/HistoTask.py:31-44 | with distinct systematic keys, the branches of one dataset are pairwise distinct |
| BranchMapProperties.BranchesDistinct | workflow/HistoTask.py:30-46 | with distinct dataset keys and distinct systematic keys, no two branches are equal |
| BranchMapProperties.OtherKeyAbsent | workflow/HistoTask.py:30-44 | a key that no dataset of the table carries is carried by no branch |
| BranchMapProperties.OtherSystematicAbsent | workflow/HistoTask.py:31-44 | a label of a systematic not in the table is carried by no branch of a dataset |
| BranchMapProperties.BranchesAppend | workflow/HistoTask.py:30-44 | walking a concatenation of two dataset tables yields the concatenation of their branch lists |
| BranchMapProperties.DatasetEntriesAppend | workflow/HistoTask.py:31-44 | walking a concatenation of two systematics tables yields the concatenation of their branches |
| BranchMapProperties.DatasetOrder | workflow/HistoTask.py:30-44 | every branch of an earlier dataset precedes every branch of a later one |
| BranchMapProperties.DatasetEntriesOrder | workflow/HistoTask.py:31-44 | within one dataset, the branches of an earlier systematic precede those of a later one |
| BranchMapProperties.BeforeSplit | workflow/HistoTask.py:31-44 | a branch of a systematic before systematics[j] lies among the branches of systematics[..j] |
| BranchMapProperties.AfterSplit | workflow/HistoTask.py:31-44 | a branch of systematics[j] lies after the branches of systematics[..j] |
| BranchMapProperties.DatasetBlock | workflow/HistoTask.py:30-44 | the branches of datasets[m] form one contiguous block between those of the earlier and the later datasets |
| BranchMapProperties.InBlock | workflow/HistoTask.py:30-44 | with distinct dataset keys, a branch carrying datasets[m]'s key lies inside that dataset's block |
| BranchMapProperties.DatasetIndex | workflow/HistoTask.py:30-44 | every branch's dataset is the key of some dataset of the table |
| BranchMapProperties.SystematicOrder | workflow/HistoTask.py:30-44 | in the whole list, two branches of the same dataset follow the order of their systematics |
| BranchMapExample.TwoDatasetExample | workflow/HistoTask.py:25-46 | A (two files) and B (one file), with `nominal` and a `jes` systematic restricted to A, give exactly `[A/nominal/0, A/nominal/1, A/jesUP/0, A/jesDOWN/0, A/jesUP/1, A/jesDOWN/1, B/nominal/0]` |
| TaskTargets.FindDataset | workflow/HistoTask.py:58 | `datasets[key]`: the result is the table entry with that key, and is None exactly when no entry has the key (Python's KeyError); with distinct keys it is that entry |
| TaskTargets.Replace | workflow/HistoTask.py:63 | Python's `s.replace(pat, rep)`: left to right, every non-overlapping occurrence replaced, `rep` inserted around every character for an empty `pat`; its contract states that a non-empty `pat` that does not occur leaves `s` unchanged |
| TaskTargets.Log | workflow/HistoTask.py:54-63 | `log()`: None exactly when `datasets[branch_data[0]]` raises KeyError (no dataset has that key); otherwise `Replace(histopath(MC, year, key, region, label, i), '.root', '.log')`, which never holds `.root` |
| TaskTargets.Output | workflow/HistoTask.py:65-70 | `output()`: None exactly when `log()` fails; otherwise two targets, the first being the log; the second is `Replace(log, '.log', '.root')` as `OutputTargets` states |
| TaskTargets.NoDotPrefix | workflow/HistoTask.py:63 | replacing `.root` by `.log` creates no prefix free of `.` that the original lacked |
| TaskTargets.NoRootLeft | workflow/HistoTask.py:58-63 | the log target never contains `.root` |
| TaskTargets.NoLogCreated | workflow/HistoTask.py:63 | where the path does not start with `.root` and holds no `.log`, the log keeps the first character and does not start with `.log` |
| TaskTargets.RestoreRoot | workflow/HistoTask.py:58-70 | if the histogram path holds no `.log`, then replacing `.root` by `.log` and then `.log` by `.root` gives the path back |
| TaskTargets.OutputTargets | workflow/HistoTask.py:54-70 | `output()` is `[log, log.replace('.log', '.root')]`, with `log = histopath(...).replace('.root', '.log')`; the log holds no `.root`, and when the histogram path holds no `.log` the second target is that path |
| TaskTargets.TargetsDefined | workflow/HistoTask.py:58-63 | for every branch of the branch map, the dataset lookup in `log()` succeeds, so `log()` and `output()` are defined and `output()` has two targets |
| AllHistoTasks.Requires | workflow/HistoTask.py:92-97 | `requires()`, `[HistoTask(year, r) for r in regions]`: one task per region, in region order, each with the wrapper's year |
| AllHistoTasks.RequiresMembership | workflow/HistoTask.py:96-97 | a task is required exactly when it has the wrapper's year and one of the regions |
| AllHistoTasks.RequiresDistinct | workflow/HistoTask.py:96-97 | with distinct region keys, no task is required twice |

## Left out

- `run` and `save_execute` (workflow/HistoTask.py:72-80) launch a subprocess and write its log. That is I/O, so they are not modelled.
- `htcondor_bootstrap_file` and `max_runtime` (workflow/HistoTask.py:23,48-52) only configure the HTCondor environment.
- The law/luigi base classes are not modelled: `HTCondorBaseTask`, `law.WrapperTask`, `luigi.Parameter` and `law.LocalFileTarget`. Targets are plain strings, and a task is its (year, region) pair.
- `histopath`, `getGridpaths` and the `config.*` tables are not part of this model. The tables are input sequences, `histopath` is an uninterpreted function, and only the length of `getGridpaths(...)` enters, as `GridCount`.
- Distinct log paths across branches are not proved. They depend on the body of `histopath`, which is not part of this model.
- Configuration errors are not modelled, for example a systematic that names an unknown dataset. The code performs no such check: it only filters.
- A job plan over all regions × branches is not modelled. The code has `requires()` yield one wrapper-level task per region, and the branches of each task come from its own branch map.
- `log()` passes the dataset KEY (`branch_data[0]`) as `filename` to `histopath`, not the dataset's `FileName`. This is modelled as written.
- Whether a systematic is nominal is decided only by its name being `nominal`, as the code does. There is no separate attribute for it.
- Python dictionaries iterate in insertion order, so each table is a sequence in that order.
