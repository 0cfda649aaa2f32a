/**
 * The employee repository: the keyed lookup and the reporting-structure
 * aggregation (`$match` on the root id, `$graphLookup` over
 * `directReports` -> `employeeId` without a depth limit, `$project` of the
 * root and the size of the collected set).
 *
 * What `$graphLookup` collects is specified by chains of direct-report
 * links (`Reaches`, `ReachableFrom`); `DirectReportTree` computes the same
 * set with a worklist and a visited set.
 */
module Repository {
  import opened Directory

  /** `findByEmployeeId`: the record whose `employeeId` is `id`, if any. */
  function FindByEmployeeId(store: Store, id: EmployeeId): (r: Option<Employee>)
    requires WellKeyed(store)
    ensures r.Some? ==> r.value in store.Values && r.value.employeeId == id
    ensures forall e :: e in store.Values && e.employeeId == id ==> r == Some(e)
  {
    if id in store then Some(store[id]) else None
  }

  // ---------------------------------------------------------------------
  // Specification of what $graphLookup collects

  /**
   * `p` is a non-empty walk through stored records in which every next id
   * is listed in the previous record's `directReports`.
   */
  ghost predicate IsChain(store: Store, p: seq<EmployeeId>)
  {
    && |p| > 0
    && (forall i :: 0 <= i < |p| ==> p[i] in store)
    && (forall i :: 0 < i < |p| ==> p[i] in store[p[i - 1]].directReports)
  }

  /** Some chain starts at an id listed in `start` and ends at `x`. */
  ghost predicate Reaches(store: Store, start: seq<EmployeeId>, x: EmployeeId)
  {
    exists p :: IsChain(store, p) && p[0] in start && p[|p| - 1] == x
  }

  /** The ids of every stored record reachable from `start`. */
  ghost function ReachableFrom(store: Store, start: seq<EmployeeId>): (r: set<EmployeeId>)
    ensures r <= store.Keys
  {
    set x | x in store.Keys && Reaches(store, start, x)
  }

  /**
   * `s` holds every stored id listed in `start`, and with every member of
   * `s` every stored id that member lists as a direct report.
   */
  ghost predicate ClosedUnderReports(store: Store, start: seq<EmployeeId>, s: set<EmployeeId>)
  {
    && (forall x :: x in start && x in store ==> x in s)
    && (forall y, z :: y in s && y in store && z in store[y].directReports && z in store ==> z in s)
  }

  /** A stored id listed in `start` is reached by the one-element chain. */
  lemma StartReaches(store: Store, start: seq<EmployeeId>, x: EmployeeId)
    requires x in start && x in store
    ensures x in ReachableFrom(store, start)
  {
    assert IsChain(store, [x]);
  }

  /** Following one more link from a reached record reaches its stored report. */
  lemma StepReaches(store: Store, start: seq<EmployeeId>, y: EmployeeId, z: EmployeeId)
    requires y in ReachableFrom(store, start)
    requires z in store[y].directReports && z in store
    ensures z in ReachableFrom(store, start)
  {
    var p :| IsChain(store, p) && p[0] in start && p[|p| - 1] == y;
    var q := p + [z];
    assert forall i :: 0 <= i < |p| ==> q[i] == p[i];
    assert IsChain(store, q);
  }

  /** The reachable set is closed: nothing a reached record lists is left out. */
  lemma ReachableIsClosed(store: Store, start: seq<EmployeeId>)
    ensures ClosedUnderReports(store, start, ReachableFrom(store, start))
  {
    forall x | x in start && x in store
      ensures x in ReachableFrom(store, start)
    {
      StartReaches(store, start, x);
    }
    forall y, z | y in ReachableFrom(store, start) && y in store && z in store[y].directReports && z in store
      ensures z in ReachableFrom(store, start)
    {
      StepReaches(store, start, y, z);
    }
  }

  /** Every id along a chain from `start` lies in any closed set. */
  lemma {:induction false} ChainInClosed(store: Store, start: seq<EmployeeId>, s: set<EmployeeId>,
                                         p: seq<EmployeeId>, i: nat)
    requires ClosedUnderReports(store, start, s)
    requires IsChain(store, p) && p[0] in start
    requires i < |p|
    ensures p[i] in s
    decreases i
  {
    if i > 0 {
      ChainInClosed(store, start, s, p, i - 1);
      assert p[i] in store[p[i - 1]].directReports;
    }
  }

  /**
   * The reachable set is contained in every closed set; with
   * `ReachableIsClosed`, it is the least closed set, which is what
   * `$graphLookup` collects.
   */
  lemma {:induction false} LeastClosed(store: Store, start: seq<EmployeeId>, s: set<EmployeeId>)
    requires ClosedUnderReports(store, start, s)
    ensures ReachableFrom(store, start) <= s
  {
    forall x | x in ReachableFrom(store, start)
      ensures x in s
    {
      var p :| IsChain(store, p) && p[0] in start && p[|p| - 1] == x;
      ChainInClosed(store, start, s, p, |p| - 1);
    }
  }

  // ---------------------------------------------------------------------
  // The traversal

  /**
   * The worklist invariant: everything visited, and every stored id still
   * in the frontier, is reachable; and every stored id listed in `start`,
   * or listed by a visited record, is visited already or still waits in
   * the frontier.
   */
  ghost predicate Worklist(store: Store, start: seq<EmployeeId>, visited: set<EmployeeId>,
                           frontier: seq<EmployeeId>)
  {
    && visited <= ReachableFrom(store, start)
    && (forall x :: x in frontier && x in store ==> x in ReachableFrom(store, start))
    && (forall x :: x in start && x in store ==> x in visited || x in frontier)
    && (forall y, z :: y in visited && y in store && z in store[y].directReports && z in store ==>
          z in visited || z in frontier)
  }

  lemma WorklistInit(store: Store, start: seq<EmployeeId>)
    ensures Worklist(store, start, {}, start)
  {
    forall x | x in start && x in store
      ensures x in ReachableFrom(store, start)
    {
      StartReaches(store, start, x);
    }
  }

  /** One step of the worklist keeps the invariant. */
  lemma WorklistStep(store: Store, start: seq<EmployeeId>, visited: set<EmployeeId>,
                     frontier: seq<EmployeeId>)
    requires frontier != []
    requires Worklist(store, start, visited, frontier)
    ensures frontier[0] in store && frontier[0] !in visited ==>
              Worklist(store, start, visited + {frontier[0]}, frontier[1..] + store[frontier[0]].directReports)
    ensures !(frontier[0] in store && frontier[0] !in visited) ==>
              Worklist(store, start, visited, frontier[1..])
  {
    var id, rest := frontier[0], frontier[1..];
    assert forall x :: x in frontier ==> x == id || x in rest;
    if id in store && id !in visited {
      var visited', frontier' := visited + {id}, rest + store[id].directReports;
      forall x | x in frontier' && x in store
        ensures x in ReachableFrom(store, start)
      {
        if x !in rest {
          StepReaches(store, start, id, x);
        }
      }
      forall y, z | y in visited' && y in store && z in store[y].directReports && z in store
        ensures z in visited' || z in frontier'
      {
        if y == id {
          assert z in frontier';
        }
      }
    }
  }

  /** An exhausted frontier leaves exactly the reachable set visited. */
  lemma WorklistDone(store: Store, start: seq<EmployeeId>, visited: set<EmployeeId>)
    requires Worklist(store, start, visited, [])
    ensures visited == ReachableFrom(store, start)
  {
    assert ClosedUnderReports(store, start, visited);
    LeastClosed(store, start, visited);
  }

  /** Visiting a new stored id leaves one fewer stored id unvisited. */
  lemma VisitShrinksUnvisited(keys: set<EmployeeId>, visited: set<EmployeeId>, id: EmployeeId)
    requires id in keys && id !in visited
    ensures |keys - (visited + {id})| < |keys - visited|
  {
    assert keys - (visited + {id}) == (keys - visited) - {id};
  }

  /**
   * The `directReportTree` of `$graphLookup` as a breadth-first worklist:
   * take the next id off the frontier; skip it when it names no stored
   * record or was already visited; otherwise visit it and append its
   * `directReports`. Each stored record is visited at most once, so the
   * loop ends on cyclic graphs.
   */
  method DirectReportTree(store: Store, start: seq<EmployeeId>) returns (visited: set<EmployeeId>)
    ensures visited == ReachableFrom(store, start)
  {
    WorklistInit(store, start);
    visited := {};
    var frontier := start;
    while frontier != []
      invariant Worklist(store, start, visited, frontier)
      decreases |store.Keys - visited|, |frontier|
    {
      var id := frontier[0];
      WorklistStep(store, start, visited, frontier);
      frontier := frontier[1..];
      if id in store && id !in visited {
        VisitShrinksUnvisited(store.Keys, visited, id);
        visited := visited + {id};
        frontier := frontier + store[id].directReports;
      }
    }
    WorklistDone(store, start, visited);
  }

  /**
   * `getReportingStructureByEmployeeId`: nothing when no record has the
   * id (the `$match` stage is empty); otherwise the matched record,
   * unchanged, with the number of distinct stored records reachable from
   * its `directReports`.
   */
  method GetReportingStructureByEmployeeId(store: Store, employeeId: EmployeeId)
    returns (r: Option<ReportingStructure>)
    requires WellKeyed(store)
    ensures r.None? <==> employeeId !in store
    ensures r.Some? ==> r.value.employee == store[employeeId]
    ensures r.Some? ==> r.value.numberOfReports == |ReachableFrom(store, store[employeeId].directReports)|
  {
    match FindByEmployeeId(store, employeeId)
    case None =>
      r := None;
    case Some(root) =>
      var tree := DirectReportTree(store, root.directReports);
      r := Some(ReportingStructure(root, |tree|));
  }

  // ---------------------------------------------------------------------
  // Properties of the count

  /** A root without direct reports has no reports. */
  lemma NoDirectReportsNoReports(store: Store)
    ensures ReachableFrom(store, []) == {}
  {
  }

  /** At most every stored record is counted. */
  lemma ReportsBounded(store: Store, start: seq<EmployeeId>)
    ensures |ReachableFrom(store, start)| <= |store|
  {
    assert |store| == |store.Keys|;
    SubsetCardinality(ReachableFrom(store, start), store.Keys);
  }

  lemma {:induction false} SubsetCardinality<T>(a: set<T>, b: set<T>)
    requires a <= b
    ensures |a| <= |b|
  {
    if a != {} {
      var x :| x in a;
      SubsetCardinality(a - {x}, b - {x});
    }
  }

  /**
   * A direct-report id that names no stored record is neither counted nor
   * expanded: dropping it from the start list changes nothing.
   */
  lemma DanglingIgnored(store: Store, start: seq<EmployeeId>, dangling: EmployeeId)
    requires dangling !in store
    ensures dangling !in ReachableFrom(store, start)
    ensures ReachableFrom(store, start + [dangling]) == ReachableFrom(store, start)
  {
  }

  /**
   * An id that names no stored record, listed by some stored record, is
   * not expanded: adding it to that record's `directReports` changes
   * nothing collected.
   */
  lemma DanglingReportIgnored(store: Store, start: seq<EmployeeId>, k: EmployeeId, dangling: EmployeeId)
    requires k in store && dangling !in store
    ensures ReachableFrom(store[k := store[k].(directReports := store[k].directReports + [dangling])], start)
            == ReachableFrom(store, start)
  {
  }

  /**
   * Two stores agree on which ids are stored and on the SET of direct
   * reports of each record.
   */
  ghost predicate SameReportLinks(s1: Store, s2: Store)
  {
    && s1.Keys == s2.Keys
    && forall k, x :: k in s1 && k in s2 ==> (x in s1[k].directReports <==> x in s2[k].directReports)
  }

  /**
   * Such stores, from start lists with the same members, reach the same
   * records: the order of, and repetitions in, any `directReports` list
   * do not matter.
   */
  lemma OrderIndependent(s1: Store, s2: Store, start1: seq<EmployeeId>, start2: seq<EmployeeId>)
    requires SameReportLinks(s1, s2)
    requires forall x :: x in start1 <==> x in start2
    ensures ReachableFrom(s1, start1) == ReachableFrom(s2, start2)
  {
  }
}
