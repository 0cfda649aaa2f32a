/**
 * Reporting structures of small concrete directories: a plain tree, two
 * paths to one employee, a cycle back to the root, and dangling ids.
 */
module Scenarios {
  import opened Directory
  import opened Repository

  /** A record with no personal details, only its id and direct reports. */
  function Manager(id: EmployeeId, reports: seq<EmployeeId>): (e: Employee)
  {
    Employee(id, "", "", "", "", reports, None)
  }

  /** X has direct reports A and B; A has C; B and C have none. */
  function TreeStore(): (s: Store)
  {
    map["X" := Manager("X", ["A", "B"]),
        "A" := Manager("A", ["C"]),
        "B" := Manager("B", []),
        "C" := Manager("C", [])]
  }

  lemma TreeReaches()
    ensures ReachableFrom(TreeStore(), TreeStore()["X"].directReports) == {"A", "B", "C"}
  {
    var store, start := TreeStore(), ["A", "B"];
    StartReaches(store, start, "A");
    StartReaches(store, start, "B");
    StepReaches(store, start, "A", "C");
    forall y, z | y in {"A", "B", "C"} && y in store && z in store[y].directReports && z in store
      ensures z in {"A", "B", "C"}
    {
      assert y == "A" || y == "B" || y == "C";
    }
    LeastClosed(store, start, {"A", "B", "C"});
  }

  lemma TreeCountsThree()
    ensures |ReachableFrom(TreeStore(), TreeStore()["X"].directReports)| == 3
  {
    TreeReaches();
    assert "A" != "B" && "A" != "C" && "B" != "C";
  }

  /** X has A and B; both A and B have C: C is reached twice, counted once. */
  function DiamondStore(): (s: Store)
  {
    map["X" := Manager("X", ["A", "B"]),
        "A" := Manager("A", ["C"]),
        "B" := Manager("B", ["C"]),
        "C" := Manager("C", [])]
  }

  lemma DiamondReaches()
    ensures ReachableFrom(DiamondStore(), DiamondStore()["X"].directReports) == {"A", "B", "C"}
  {
    var store, start := DiamondStore(), ["A", "B"];
    StartReaches(store, start, "A");
    StartReaches(store, start, "B");
    StepReaches(store, start, "A", "C");
    forall y, z | y in {"A", "B", "C"} && y in store && z in store[y].directReports && z in store
      ensures z in {"A", "B", "C"}
    {
      assert y == "A" || y == "B" || y == "C";
    }
    LeastClosed(store, start, {"A", "B", "C"});
  }

  lemma DiamondCountsSharedReportOnce()
    ensures |ReachableFrom(DiamondStore(), DiamondStore()["X"].directReports)| == 3
  {
    DiamondReaches();
    assert "A" != "B" && "A" != "C" && "B" != "C";
  }

  /**
   * Y has A; A has Y. The traversal reaches Y again through A, counts it
   * once, and stops: two reports.
   */
  function CycleStore(): (s: Store)
  {
    map["Y" := Manager("Y", ["A"]),
        "A" := Manager("A", ["Y"])]
  }

  lemma CycleReaches()
    ensures ReachableFrom(CycleStore(), CycleStore()["Y"].directReports) == {"A", "Y"}
  {
    var store, start := CycleStore(), ["A"];
    StartReaches(store, start, "A");
    StepReaches(store, start, "A", "Y");
    LeastClosed(store, start, {"A", "Y"});
  }

  lemma CycleCountsRootOnce()
    ensures |ReachableFrom(CycleStore(), CycleStore()["Y"].directReports)| == 2
  {
    CycleReaches();
    assert "A" != "Y";
  }

  /** X lists A and the unknown id Q; A lists the unknown id R. */
  function DanglingStore(): (s: Store)
  {
    map["X" := Manager("X", ["A", "Q"]),
        "A" := Manager("A", ["R"])]
  }

  lemma DanglingCountsNothing()
    ensures ReachableFrom(DanglingStore(), DanglingStore()["X"].directReports) == {"A"}
  {
    var store, start := DanglingStore(), ["A", "Q"];
    StartReaches(store, start, "A");
    forall y, z | y in {"A"} && y in store && z in store[y].directReports && z in store
      ensures z in {"A"}
    {
      assert z == "R";
    }
    LeastClosed(store, start, {"A"});
  }
}
