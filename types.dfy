/** Values shared by the histogram workflow: the configuration tables it reads,
    the branches it produces and the task parameters that address them. */
module Types {

  datatype Option<T> = None | Some(value: T)

  /** One entry of the dataset table: its key, whether it is simulation ('MC')
      and the file name ('FileName') used to look up its grid files. */
  datatype Dataset = Dataset(key: string, isMC: bool, fileName: string)

  /** One entry of the systematics table: its key, its 'type', the 'years' it
      applies to and, when the table has a 'datasets' entry, the datasets it is
      restricted to (None when that entry is absent). */
  datatype Systematic = Systematic(key: string, kind: string, years: set<string>, datasets: Option<set<string>>)

  /** One branch of the branch map: [dataset, variation label, file index]. */
  datatype Entry = Entry(dataset: string, variation: string, index: nat)

  /** The parameters of one HistoTask. */
  datatype HistoTask = HistoTask(year: string, region: string)

  /** The number of grid files, len(getGridpaths(isMC, year, filename)); the
      lookup itself is not part of this model. */
  type GridCount = (bool, string, string) -> nat

  /** histopath(isMC, year, filename, region, systematic, number); its naming
      scheme is not part of this model. */
  type HistoPath = (bool, string, string, string, string, nat) -> string

  const SHAPE: string := "shape"
  const NOMINAL: string := "nominal"
  const UP: string := "UP"
  const DOWN: string := "DOWN"

  /** The dataset table is a dictionary: its keys are distinct. */
  ghost predicate DistinctDatasetKeys(datasets: seq<Dataset>) {
    forall a, b :: 0 <= a < b < |datasets| ==> datasets[a].key != datasets[b].key
  }

  /** The systematics table is a dictionary: its keys are distinct. */
  ghost predicate DistinctSystematicKeys(systematics: seq<Systematic>) {
    forall a, b :: 0 <= a < b < |systematics| ==> systematics[a].key != systematics[b].key
  }
}
