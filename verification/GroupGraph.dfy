/** Directed graphs of inventory groups: each group name maps to the ordered list of its
    children.  A name that is mentioned as a child but has no entry of its own has no
    children. */
module GroupGraph {

  type Graph = map<string, seq<string>>

  function Children(g: Graph, n: string): seq<string> {
    if n in g then g[n] else []
  }

  predicate Edge(g: Graph, a: string, b: string) {
    b in Children(g, a)
  }

  /** Every child that is mentioned is itself defined. */
  predicate Closed(g: Graph) {
    forall a <- g, b <- g[a] :: b in g
  }

  /** A nonempty sequence of names, each the child of the one before. */
  ghost predicate IsPath(g: Graph, p: seq<string>) {
    |p| >= 1 && forall i :: 0 <= i < |p| - 1 ==> Edge(g, p[i], p[i + 1])
  }

  ghost predicate PathBetween(g: Graph, a: string, b: string, p: seq<string>) {
    IsPath(g, p) && p[0] == a && p[|p| - 1] == b
  }

  /** `b` is `a` or a descendant of `a`. */
  ghost predicate Reaches(g: Graph, a: string, b: string) {
    exists p :: PathBetween(g, a, b, p)
  }

  /** A path with at least one edge that returns to its start. */
  ghost predicate IsCycle(g: Graph, p: seq<string>) {
    IsPath(g, p) && |p| >= 2 && p[0] == p[|p| - 1]
  }

  ghost predicate Acyclic(g: Graph) {
    forall p :: !IsCycle(g, p)
  }

  lemma ReachesRefl(g: Graph, a: string)
    ensures Reaches(g, a, a)
  {
    assert PathBetween(g, a, a, [a]);
  }

  lemma ConcatPaths(g: Graph, p: seq<string>, q: seq<string>)
    requires IsPath(g, p) && IsPath(g, q) && Edge(g, p[|p| - 1], q[0])
    ensures IsPath(g, p + q)
  {
    var r := p + q;
    forall i | 0 <= i < |r| - 1
      ensures Edge(g, r[i], r[i + 1])
    {
      if i < |p| - 1 {
      } else if i == |p| - 1 {
        assert r[i] == p[|p| - 1] && r[i + 1] == q[0];
      } else {
        assert r[i] == q[i - |p|] && r[i + 1] == q[i - |p| + 1];
      }
    }
  }

  lemma SubPath(g: Graph, p: seq<string>, i: nat, j: nat)
    requires IsPath(g, p) && i < j <= |p|
    ensures IsPath(g, p[i..j])
  {
  }

  lemma ReachesStep(g: Graph, a: string, b: string, c: string)
    requires Edge(g, a, b) && Reaches(g, b, c)
    ensures Reaches(g, a, c)
  {
    var q :| PathBetween(g, b, c, q);
    ConcatPaths(g, [a], q);
    assert PathBetween(g, a, c, [a] + q);
  }

  lemma ReachesExtend(g: Graph, a: string, b: string, c: string)
    requires Reaches(g, a, b) && Edge(g, b, c)
    ensures Reaches(g, a, c)
  {
    var p :| PathBetween(g, a, b, p);
    ConcatPaths(g, p, [c]);
    assert PathBetween(g, a, c, p + [c]);
  }

  lemma ReachesTrans(g: Graph, a: string, b: string, c: string)
    requires Reaches(g, a, b) && Reaches(g, b, c)
    ensures Reaches(g, a, c)
  {
    var p :| PathBetween(g, a, b, p);
    var q :| PathBetween(g, b, c, q);
    if |q| == 1 {
    } else {
      SubPath(g, q, 1, |q|);
      ConcatPaths(g, p, q[1..]);
      assert PathBetween(g, a, c, p + q[1..]);
    }
  }

  /** Following a path either stops at once or goes through a child. */
  lemma ReachesFirst(g: Graph, a: string, b: string) returns (c: string)
    requires Reaches(g, a, b) && a != b
    ensures Edge(g, a, c) && Reaches(g, c, b)
  {
    var p :| PathBetween(g, a, b, p);
    c := p[1];
    SubPath(g, p, 1, |p|);
    assert PathBetween(g, c, b, p[1..]);
  }

  lemma ReachesLast(g: Graph, a: string, b: string) returns (c: string)
    requires Reaches(g, a, b) && a != b
    ensures Reaches(g, a, c) && Edge(g, c, b)
  {
    var p :| PathBetween(g, a, b, p);
    c := p[|p| - 2];
    SubPath(g, p, 0, |p| - 1);
    assert PathBetween(g, a, c, p[..|p| - 1]);
  }

  lemma WayBackIsCycle(g: Graph, a: string, b: string) returns (p: seq<string>)
    requires Edge(g, a, b) && Reaches(g, b, a)
    ensures IsCycle(g, p) && p[0] == a
  {
    var q :| PathBetween(g, b, a, q);
    ConcatPaths(g, [a], q);
    p := [a] + q;
  }

  /** In an acyclic graph a child does not reach its parent. */
  lemma NoWayBack(g: Graph, a: string, b: string)
    requires Acyclic(g) && Edge(g, a, b)
    ensures !Reaches(g, b, a)
  {
    if Reaches(g, b, a) {
      var p := WayBackIsCycle(g, a, b);
    }
  }

  // ----- Finitely many names

  ghost function Names(g: Graph): set<string> {
    g.Keys + set a, b | a in g && b in g[a] :: b
  }

  /** The name itself together with all its descendants. */
  ghost function Descendants(g: Graph, n: string): set<string> {
    set m | m in Names(g) + {n} && Reaches(g, n, m)
  }

  lemma InDescendants(g: Graph, n: string, m: string)
    ensures m in Descendants(g, n) <==> Reaches(g, n, m)
  {
    if Reaches(g, n, m) && n != m {
      var c := ReachesLast(g, n, m);
      assert c in g && m in g[c];
    }
  }

  /** The walk from a group down to its members terminates: each child has strictly fewer
      descendants than its parent. */
  lemma DescendantsShrink(g: Graph, a: string, b: string)
    requires Acyclic(g) && Edge(g, a, b)
    ensures Descendants(g, b) < Descendants(g, a)
  {
    forall m | m in Descendants(g, b)
      ensures m in Descendants(g, a)
    {
      InDescendants(g, b, m);
      ReachesStep(g, a, b, m);
      InDescendants(g, a, m);
    }
    ReachesRefl(g, a);
    InDescendants(g, a, a);
    NoWayBack(g, a, b);
    InDescendants(g, b, a);
  }

  /** The part of a path between two occurrences of one name is a cycle. */
  lemma RepeatIsCycle(g: Graph, p: seq<string>, i: nat, j: nat)
    requires IsPath(g, p) && i < j < |p| && p[i] == p[j]
    ensures IsCycle(g, p[i..j + 1])
  {
    SubPath(g, p, i, j + 1);
  }

  lemma AcyclicPathIsInjective(g: Graph, p: seq<string>)
    requires Acyclic(g) && IsPath(g, p)
    ensures forall i, j :: 0 <= i < j < |p| ==> p[i] != p[j]
  {
    forall i, j | 0 <= i < j < |p|
      ensures p[i] != p[j]
    {
      if p[i] == p[j] {
        RepeatIsCycle(g, p, i, j);
      }
    }
  }

  lemma DistinctLength(p: seq<string>, s: set<string>)
    requires forall i, j :: 0 <= i < j < |p| ==> p[i] != p[j]
    requires forall i :: 0 <= i < |p| ==> p[i] in s
    ensures |p| <= |s|
  {
    if p != [] {
      var n := |p| - 1;
      DistinctLength(p[..n], s - {p[n]});
    }
  }

  /** A path of an acyclic graph has no more edges than there are defined groups. */
  lemma AcyclicPathLength(g: Graph, p: seq<string>)
    requires Acyclic(g) && IsPath(g, p)
    ensures |p| - 1 <= |g.Keys|
  {
    AcyclicPathIsInjective(g, p);
    var q := p[..|p| - 1];
    forall i | 0 <= i < |q|
      ensures q[i] in g.Keys
    {
      assert Edge(g, p[i], p[i + 1]);
    }
    DistinctLength(q, g.Keys);
  }

  lemma {:induction false} RankGrows(g: Graph, rank: string -> int, p: seq<string>, i: nat)
    requires forall a, b :: Edge(g, a, b) ==> rank(a) < rank(b)
    requires IsPath(g, p) && i < |p|
    ensures rank(p[0]) + i <= rank(p[i])
  {
    if i > 0 {
      RankGrows(g, rank, p, i - 1);
      assert Edge(g, p[i - 1], p[i]);
    }
  }

  /** A number that grows along every edge rules cycles out. */
  lemma RankedIsAcyclic(g: Graph, rank: string -> int)
    requires forall a, b :: Edge(g, a, b) ==> rank(a) < rank(b)
    ensures Acyclic(g)
  {
    forall p
      ensures !IsCycle(g, p)
    {
      if IsCycle(g, p) {
        RankGrows(g, rank, p, |p| - 1);
      }
    }
  }
}
