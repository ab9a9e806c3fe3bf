/** What the loader checks and relies on about the group graph, and how the implicit groups
    "all" and "ungrouped" sit in it. */
module InventoryShape {
  import opened GroupGraph

  const ALL := "all"
  const UNGROUPED := "ungrouped"

  datatype LoadError =
    | EmptyFile
    | Cycle(path: seq<string>)
    | Undefined(name: string)

  /** The reported path runs along real child edges and ends on a name it already visited. */
  ghost predicate ClosesCycle(g: Graph, path: seq<string>) {
    && IsPath(g, path)
    && exists i :: 0 <= i < |path| - 1 && IsCycle(g, path[i..])
  }

  ghost predicate TrueReport(g: Graph, e: LoadError) {
    match e
    case EmptyFile => false
    case Cycle(path) => ClosesCycle(g, path)
    case Undefined(n) => n !in g && exists a :: a in g && n in g[a]
  }

  /** Groups the search is done with: their children are done too and no cycle starts at one. */
  ghost predicate Finished(g: Graph, done: set<string>) {
    && (forall a :: a in done ==> a in g && forall b :: b in g[a] ==> b in done)
    && (forall p :: IsCycle(g, p) ==> p[0] !in done)
  }

  /** A path that starts among finished groups stays among them. */
  lemma {:induction false} FinishedPath(g: Graph, done: set<string>, p: seq<string>, i: nat)
    requires forall a :: a in done ==> a in g && forall b :: b in g[a] ==> b in done
    requires IsPath(g, p) && p[0] in done && i < |p|
    ensures p[i] in done
  {
    if i > 0 {
      FinishedPath(g, done, p, i - 1);
      assert Edge(g, p[i - 1], p[i]);
    }
  }

  /** A group whose children are all finished can be finished itself. */
  lemma FinishOne(g: Graph, done: set<string>, n: string)
    requires Finished(g, done) && n in g && n !in done
    requires forall b :: b in g[n] ==> b in done
    ensures Finished(g, done + {n})
  {
    forall p | IsCycle(g, p)
      ensures p[0] != n
    {
      if p[0] == n {
        assert Edge(g, p[0], p[1]);
        SubPath(g, p, 1, |p|);
        FinishedPath(g, done, p[1..], |p| - 2);
      }
    }
  }

  lemma CycleStartsDefined(g: Graph, p: seq<string>)
    requires IsCycle(g, p)
    ensures p[0] in g
  {
    assert Edge(g, p[0], p[1]);
  }

  lemma AllFinished(g: Graph, done: set<string>)
    requires Finished(g, done) && g.Keys <= done
    ensures Acyclic(g) && Closed(g)
  {
    forall p
      ensures !IsCycle(g, p)
    {
      if IsCycle(g, p) {
        CycleStartsDefined(g, p);
      }
    }
  }

  lemma TrueReportRefutes(g: Graph, e: LoadError)
    requires TrueReport(g, e)
    ensures !(Acyclic(g) && Closed(g))
  {
  }

  /** The shape a loaded inventory has: no cycles, no undefined child, and every group below
      the group "all". */
  ghost predicate Rooted(g: Graph) {
    && Acyclic(g) && Closed(g) && ALL in g
    && forall n :: n in g ==> Reaches(g, ALL, n)
  }

  lemma RootHasNoParent(g: Graph, a: string)
    requires Rooted(g)
    ensures !Edge(g, a, ALL)
  {
    if Edge(g, a, ALL) {
      NoWayBack(g, a, ALL);
    }
  }

  /** The groups of a host that is listed directly in the groups `direct`: those groups, all
      their ancestors, and "all". */
  ghost predicate Belongs(g: Graph, direct: set<string>, n: string) {
    n == ALL || exists d :: d in direct && Reaches(g, n, d)
  }

  /** A set of groups that holds the direct groups and, with each group but "all", its
      parents, holds everything above the direct groups. */
  lemma {:induction false} UpwardClosed(g: Graph, s: set<string>, p: seq<string>)
    requires Rooted(g) && IsPath(g, p) && p[|p| - 1] in s
    requires forall c, n :: c in s && c != ALL && Edge(g, n, c) ==> n in s
    ensures p[0] in s
  {
    if |p| > 1 {
      var m := |p| - 2;
      assert Edge(g, p[m], p[m + 1]);
      RootHasNoParent(g, p[m]);
      UpwardClosed(g, s, p[..m + 1]);
    }
  }

  // ----- The implicit group "ungrouped"

  /** `g1` is `g0` with "ungrouped" hung below "all". */
  ghost predicate Grown(g0: Graph, g1: Graph) {
    && g1.Keys == g0.Keys + {UNGROUPED}
    && forall a, b :: Edge(g1, a, b) <==> Edge(g0, a, b) || (a == ALL && b == UNGROUPED)
  }

  lemma GrownPath(g0: Graph, g1: Graph, p: seq<string>)
    requires Rooted(g0) && Grown(g0, g1) && IsPath(g1, p)
    ensures forall i :: 0 < i < |p| ==> p[i] != ALL
    ensures p[0] != ALL ==> IsPath(g0, p)
  {
    forall i | 0 < i < |p|
      ensures p[i] != ALL
    {
      assert Edge(g1, p[i - 1], p[i]);
      RootHasNoParent(g0, p[i - 1]);
    }
  }

  lemma GrownReaches(g0: Graph, g1: Graph, a: string, b: string)
    requires Rooted(g0) && Grown(g0, g1)
    ensures Reaches(g0, a, b) ==> Reaches(g1, a, b)
    ensures a != ALL && Reaches(g1, a, b) ==> Reaches(g0, a, b)
  {
    if Reaches(g0, a, b) {
      var p :| PathBetween(g0, a, b, p);
      forall i | 0 <= i < |p| - 1
        ensures Edge(g1, p[i], p[i + 1])
      {
        assert Edge(g0, p[i], p[i + 1]);
      }
      assert PathBetween(g1, a, b, p);
    }
    if a != ALL && Reaches(g1, a, b) {
      var p :| PathBetween(g1, a, b, p);
      GrownPath(g0, g1, p);
      assert PathBetween(g0, a, b, p);
    }
  }

  lemma GrownRooted(g0: Graph, g1: Graph)
    requires Rooted(g0) && Grown(g0, g1)
    ensures Rooted(g1)
  {
    forall p | IsCycle(g1, p)
      ensures IsCycle(g0, p)
    {
      GrownPath(g0, g1, p);
    }
    forall a, b | a in g1 && b in g1[a]
      ensures b in g1
    {
      assert Edge(g1, a, b);
      assert Edge(g0, a, b) ==> b in g0;
    }
    forall n | n in g1
      ensures Reaches(g1, ALL, n)
    {
      if n in g0 {
        GrownReaches(g0, g1, ALL, n);
      } else {
        ReachesRefl(g1, ALL);
        assert Edge(g1, ALL, n);
        ReachesExtend(g1, ALL, ALL, n);
      }
    }
  }

  predicate OnlyImplicit(names: seq<string>) {
    forall n <- names :: n == ALL || n == UNGROUPED
  }

  /** For a host that was in some explicit group nothing changes. */
  lemma ExplicitHostAgrees(g0: Graph, g1: Graph, direct: set<string>, n: string)
    requires Rooted(g0) && Grown(g0, g1) && direct != {} && direct <= g0.Keys && n in g1
    ensures Belongs(g0, direct, n) <==> exists d :: d in direct && Reaches(g1, n, d)
  {
    GrownRooted(g0, g1);
    if n == ALL {
      var d :| d in direct;
      assert Reaches(g1, n, d);
    } else {
      forall d | d in direct
        ensures Reaches(g1, n, d) <==> Reaches(g0, n, d)
      {
        GrownReaches(g0, g1, n, d);
      }
    }
  }

  /** Only "all" and "ungrouped" lie above an implicit host, if "ungrouped" has no other parent. */
  lemma AboveUngrouped(g0: Graph, g1: Graph, n: string)
    requires Rooted(g0) && Grown(g0, g1)
    requires forall p :: Edge(g0, p, UNGROUPED) ==> p == ALL
    ensures Reaches(g1, n, UNGROUPED) <==> n == ALL || n == UNGROUPED
    ensures Reaches(g1, n, ALL) <==> n == ALL
  {
    GrownRooted(g0, g1);
    ReachesRefl(g1, n);
    assert UNGROUPED in g1;
    if Reaches(g1, n, ALL) && n != ALL {
      var c := ReachesLast(g1, n, ALL);
      RootHasNoParent(g1, c);
    }
    if Reaches(g1, n, UNGROUPED) && n != UNGROUPED {
      var c := ReachesLast(g1, n, UNGROUPED);
      assert c == ALL;
    }
  }

  lemma ImplicitHostAgrees(g0: Graph, g1: Graph, direct0: set<string>, groups0: seq<string>, n: string)
    requires Rooted(g0) && Grown(g0, g1) && n in g1
    requires forall p :: Edge(g0, p, UNGROUPED) ==> p == ALL
    requires forall m :: m in groups0 <==> Belongs(g0, direct0, m)
    requires OnlyImplicit(groups0)
    ensures n in groups0 || n == UNGROUPED <==> exists d :: d in direct0 + {UNGROUPED} && Reaches(g1, n, d)
  {
    AboveUngrouped(g0, g1, n);
    forall d | d in direct0
      ensures d == ALL || d == UNGROUPED
    {
      ReachesRefl(g0, d);
      assert d in groups0;
    }
    assert UNGROUPED in direct0 + {UNGROUPED};
    assert n in groups0 ==> n == ALL || n == UNGROUPED;
    assert ALL in groups0;
  }
}
