/** A worked instance of create_branch_map: datasets A (two files) and B (one
    file), the nominal systematic for every dataset and a shape systematic
    'jes' restricted to A, both applied in 2018. */
module BranchMapExample {
  import opened Types
  import opened BranchMap

  const A: Dataset := Dataset("A", true, "a.txt")
  const B: Dataset := Dataset("B", true, "b.txt")
  const NOMINAL_SHAPE: Systematic := Systematic(NOMINAL, SHAPE, {"2018"}, None)
  const JES: Systematic := Systematic("jes", SHAPE, {"2018"}, Some({"A"}))
  const GRID: GridCount := (isMC, year, fileName) => if fileName == "a.txt" then 2 else 1

  lemma ExamplePairs()
    ensures PairEntries("A", NOMINAL, 2) == [Entry("A", NOMINAL, 0), Entry("A", NOMINAL, 1)]
    ensures PairEntries("A", "jes", 2)
         == [Entry("A", "jesUP", 0), Entry("A", "jesDOWN", 0), Entry("A", "jesUP", 1), Entry("A", "jesDOWN", 1)]
    ensures PairEntries("B", NOMINAL, 1) == [Entry("B", NOMINAL, 0)]
  {
    assert "jes" + UP == "jesUP" && "jes" + DOWN == "jesDOWN";
  }

  lemma ExampleDatasetA()
    ensures DatasetEntries(A, [NOMINAL_SHAPE, JES], "2018", GRID)
         == [Entry("A", NOMINAL, 0), Entry("A", NOMINAL, 1),
             Entry("A", "jesUP", 0), Entry("A", "jesDOWN", 0), Entry("A", "jesUP", 1), Entry("A", "jesDOWN", 1)]
  {
    ExamplePairs();
    assert [NOMINAL_SHAPE, JES][..1] == [NOMINAL_SHAPE];
    assert FileCount(A, "2018", GRID) == 2;
    assert Applies(NOMINAL_SHAPE, A, "2018") && Applies(JES, A, "2018");
    assert PairContribution(A, NOMINAL_SHAPE, "2018", GRID) == PairEntries("A", NOMINAL, 2);
    assert PairContribution(A, JES, "2018", GRID) == PairEntries("A", "jes", 2);
    assert DatasetEntries(A, [NOMINAL_SHAPE], "2018", GRID) == PairEntries("A", NOMINAL, 2);
  }

  lemma ExampleDatasetB()
    ensures DatasetEntries(B, [NOMINAL_SHAPE, JES], "2018", GRID) == [Entry("B", NOMINAL, 0)]
  {
    ExamplePairs();
    assert [NOMINAL_SHAPE, JES][..1] == [NOMINAL_SHAPE];
    assert FileCount(B, "2018", GRID) == 1;
    assert Applies(NOMINAL_SHAPE, B, "2018") && !Applies(JES, B, "2018");
    assert PairContribution(B, NOMINAL_SHAPE, "2018", GRID) == PairEntries("B", NOMINAL, 1);
    assert DatasetEntries(B, [NOMINAL_SHAPE], "2018", GRID) == PairEntries("B", NOMINAL, 1);
  }

  /** Seven branches: A's two nominal files, then A's jes UP/DOWN pairs per
      file, then B's single nominal file, since jes is restricted to A. */
  lemma TwoDatasetExample()
    ensures Branches([A, B], [NOMINAL_SHAPE, JES], "2018", GRID)
         == [Entry("A", NOMINAL, 0), Entry("A", NOMINAL, 1), Entry("A", "jesUP", 0), Entry("A", "jesDOWN", 0),
             Entry("A", "jesUP", 1), Entry("A", "jesDOWN", 1), Entry("B", NOMINAL, 0)]
  {
    ExampleDatasetA();
    ExampleDatasetB();
    assert [A, B][..1] == [A] && [A, B][1] == B && [A][..0] == [];
    assert Branches([A], [NOMINAL_SHAPE, JES], "2018", GRID) == DatasetEntries(A, [NOMINAL_SHAPE, JES], "2018", GRID);
    assert Branches([A, B], [NOMINAL_SHAPE, JES], "2018", GRID)
        == DatasetEntries(A, [NOMINAL_SHAPE, JES], "2018", GRID) + DatasetEntries(B, [NOMINAL_SHAPE, JES], "2018", GRID);
  }
}
