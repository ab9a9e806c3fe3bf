/** The depth of a group is the length of the longest chain of child edges from "all". */
module GroupDepths {
  import opened GroupGraph
  import opened InventoryShape

  type Depths = map<string, nat>

  /** Some path from "all" to `n` has `d` edges. */
  ghost predicate Witnessed(g: Graph, n: string, d: nat) {
    exists p :: PathBetween(g, ALL, n, p) && |p| - 1 == d
  }

  /** Exactly the groups below "all" are labelled, each with the length of its longest path. */
  ghost predicate LongestPaths(g: Graph, depths: Depths) {
    && (forall n :: n in depths <==> Reaches(g, ALL, n))
    && (forall n :: n in depths ==> Witnessed(g, n, depths[n]))
    && (forall n, p :: n in depths && PathBetween(g, ALL, n, p) ==> |p| - 1 <= depths[n])
  }

  /** All children of `n` are labelled strictly deeper than `n`. */
  ghost predicate Settled(g: Graph, depths: Depths, n: string)
    requires n in depths
  {
    forall c :: Edge(g, n, c) ==> c in depths && depths[n] < depths[c]
  }

  lemma WitnessChild(g: Graph, n: string, d: nat, c: string)
    requires Acyclic(g) && Witnessed(g, n, d) && Edge(g, n, c)
    ensures Witnessed(g, c, d + 1) && d + 1 <= |g.Keys|
  {
    var p :| PathBetween(g, ALL, n, p) && |p| - 1 == d;
    ConcatPaths(g, p, [c]);
    assert PathBetween(g, ALL, c, p + [c]);
    AcyclicPathLength(g, p + [c]);
  }

  /** Where every labelled group is settled, labels bound the length of every path. */
  lemma {:induction false} SettledBoundsPaths(g: Graph, depths: Depths, p: seq<string>)
    requires ALL in depths && forall n :: n in depths ==> Settled(g, depths, n)
    requires IsPath(g, p) && p[0] == ALL
    ensures p[|p| - 1] in depths && |p| - 1 <= depths[p[|p| - 1]]
  {
    if |p| > 1 {
      var m := |p| - 1;
      SettledBoundsPaths(g, depths, p[..m]);
      assert Edge(g, p[m - 1], p[m]);
    }
  }

  lemma SettledIsLongest(g: Graph, depths: Depths)
    requires ALL in depths
    requires forall n :: n in depths ==> Witnessed(g, n, depths[n]) && Settled(g, depths, n)
    ensures LongestPaths(g, depths)
  {
    forall n
      ensures n in depths <==> Reaches(g, ALL, n)
    {
      if Reaches(g, ALL, n) {
        var p :| PathBetween(g, ALL, n, p);
        SettledBoundsPaths(g, depths, p);
      }
    }
    forall n, p | n in depths && PathBetween(g, ALL, n, p)
      ensures |p| - 1 <= depths[n]
    {
      SettledBoundsPaths(g, depths, p);
    }
  }

  /** Longest paths strictly order ancestors before descendants. */
  lemma DescendantIsDeeper(g: Graph, depths: Depths, a: string, b: string)
    requires LongestPaths(g, depths) && a in depths && Reaches(g, a, b) && a != b
    ensures b in depths && depths[a] < depths[b]
  {
    var p :| PathBetween(g, ALL, a, p) && |p| - 1 == depths[a];
    var q :| PathBetween(g, a, b, q);
    SubPath(g, q, 1, |q|);
    ConcatPaths(g, p, q[1..]);
    var r := p + q[1..];
    assert PathBetween(g, ALL, b, r);
    assert |r| - 1 > depths[a];
  }

  // ----- Why the worklist stops

  /** The labels a group can still be raised to. */
  ghost function Room(g: Graph, depths: Depths): set<(string, int)> {
    set n, d | n in Names(g) + {ALL} && 0 <= d <= |g.Keys| && !(n in depths && d <= depths[n]) :: (n, d)
  }

  lemma RaisingLeavesLessRoom(g: Graph, depths: Depths, c: string, d: nat)
    requires c in Names(g) + {ALL} && d <= |g.Keys| && (c in depths ==> depths[c] < d)
    ensures Room(g, depths[c := d]) < Room(g, depths)
  {
    assert (c, d) in Room(g, depths) && (c, d) !in Room(g, depths[c := d]);
  }

  // ----- The worklist

  /** Queued items and labels are lengths of real paths; an item never exceeds its label. */
  ghost predicate QueueSound(g: Graph, depths: Depths, queue: seq<(string, nat)>) {
    && (forall n :: n in depths ==> Witnessed(g, n, depths[n]))
    && (forall it :: it in queue ==> it.0 in depths && it.1 <= depths[it.0] && Witnessed(g, it.0, it.1))
  }

  /** The current label of `n` is still queued, or `n` is settled. */
  ghost predicate Covered(g: Graph, depths: Depths, queue: seq<(string, nat)>, n: string)
    requires n in depths
  {
    (n, depths[n]) in queue || Settled(g, depths, n)
  }

  ghost predicate QueueCovers(g: Graph, depths: Depths, queue: seq<(string, nat)>) {
    forall n :: n in depths ==> Covered(g, depths, queue, n)
  }

  /** Every labelled group is covered, save perhaps the one whose label is `cur`. */
  ghost predicate CoversBut(g: Graph, depths: Depths, queue: seq<(string, nat)>, cur: (string, nat)) {
    forall n :: n in depths ==> Covered(g, depths, queue, n) || (n, depths[n]) == cur
  }

  lemma CoveredAfterRaise(g: Graph, depths: Depths, queue: seq<(string, nat)>, c: string, d: nat, n: string)
    requires n in depths && Covered(g, depths, queue, n) && (c in depths ==> depths[c] < d)
    ensures Covered(g, depths[c := d], queue + [(c, d)], n)
  {
    if n != c && (n, depths[n]) !in queue {
      assert Settled(g, depths, n);
    }
  }

  /** Raising the label of one child and queueing it keeps the worklist sound and covering. */
  lemma RaiseChild(g: Graph, depths: Depths, queue: seq<(string, nat)>, cur: (string, nat), c: string)
    requires Acyclic(g) && cur.0 in depths && Witnessed(g, cur.0, cur.1) && Edge(g, cur.0, c)
    requires QueueSound(g, depths, queue) && CoversBut(g, depths, queue, cur)
    requires c in depths ==> depths[c] < cur.1 + 1
    ensures QueueSound(g, depths[c := cur.1 + 1], queue + [(c, cur.1 + 1)])
    ensures CoversBut(g, depths[c := cur.1 + 1], queue + [(c, cur.1 + 1)], cur)
    ensures Room(g, depths[c := cur.1 + 1]) < Room(g, depths)
  {
    var d := cur.1 + 1;
    WitnessChild(g, cur.0, cur.1, c);
    assert c in Names(g) by {
      assert cur.0 in g && c in g[cur.0];
    }
    RaisingLeavesLessRoom(g, depths, c, d);
    forall n | n in depths && Covered(g, depths, queue, n)
      ensures Covered(g, depths[c := d], queue + [(c, d)], n)
    {
      CoveredAfterRaise(g, depths, queue, c, d, n);
    }
    assert Covered(g, depths[c := d], queue + [(c, d)], c);
  }

  lemma DropProcessed(g: Graph, depths: Depths, queue: seq<(string, nat)>, cur: (string, nat))
    requires cur.0 in depths && CoversBut(g, depths, queue, cur)
    requires cur.1 == depths[cur.0] ==> Settled(g, depths, cur.0)
    ensures QueueCovers(g, depths, queue)
  {
  }

  lemma StartQueue(g: Graph)
    ensures QueueSound(g, map[ALL := 0], [(ALL, 0)]) && QueueCovers(g, map[ALL := 0], [(ALL, 0)])
  {
    assert PathBetween(g, ALL, ALL, [ALL]);
    assert (ALL, 0) in [(ALL, 0)];
  }

  lemma TakeFirst(g: Graph, depths: Depths, queue: seq<(string, nat)>)
    requires queue != [] && QueueSound(g, depths, queue) && QueueCovers(g, depths, queue)
    ensures QueueSound(g, depths, queue[1..]) && CoversBut(g, depths, queue[1..], queue[0])
    ensures queue[0].0 in depths && queue[0].1 <= depths[queue[0].0] && Witnessed(g, queue[0].0, queue[0].1)
  {
    assert queue == [queue[0]] + queue[1..] && queue[0] in queue;
    forall n | n in depths
      ensures Covered(g, depths, queue[1..], n) || (n, depths[n]) == queue[0]
    {
      assert Covered(g, depths, queue, n);
    }
  }

  lemma EmptyQueueIsLongest(g: Graph, depths: Depths)
    requires ALL in depths && QueueSound(g, depths, []) && QueueCovers(g, depths, [])
    ensures LongestPaths(g, depths)
  {
    forall n | n in depths
      ensures Settled(g, depths, n)
    {
      assert Covered(g, depths, [], n);
    }
    SettledIsLongest(g, depths);
  }
}
