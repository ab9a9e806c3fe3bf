/** Which group decides the value of a host variable. */
module VarPrecedence {
  import opened Values
  import opened GroupGraph
  import opened InventoryShape
  import opened InventoryGroups
  import opened GroupDepths
  import opened Ordering
  import opened VarMerge

  datatype Ranked = Ranked(name: string, depth: nat)

  predicate RankLe(a: Ranked, b: Ranked) {
    if a.depth != b.depth then a.depth < b.depth else StringLe(a.name, b.name)
  }

  lemma RankOrder()
    ensures TotalOrder(RankLe)
  {
    StringOrder();
  }

  /** A group without a label counts as depth 0. */
  function Rank(depths: Depths, n: string): Ranked {
    Ranked(n, if n in depths then depths[n] else 0)
  }

  // ----- Laying variable maps over each other

  function Overlay(layers: seq<Vars>): Vars {
    MergeLayers(layers, Replace)
  }

  // ----- Winners

  /** The variable maps of some groups, by group name. */
  type Layer = map<string, Vars>

  /** What each group sets for all its hosts. */
  function GroupLayer(groups: Groups): Layer {
    map n | n in groups :: groups[n].vars
  }

  /** What each group sets in its entry for the host `h`. */
  function HostLayer(groups: Groups, h: string): Layer {
    map n | n in groups && h in groups[n].hostVars :: groups[n].hostVars[h]
  }

  predicate Sets(layer: Layer, n: string, k: string) {
    n in layer && k in layer[n]
  }

  /** Among the groups `names` that set `k`, `n` is the greatest. */
  ghost predicate Winner(layer: Layer, depths: Depths, names: seq<string>, n: string, k: string) {
    && n in names && Sets(layer, n, k)
    && forall m :: m in names && Sets(layer, m, k) ==> RankLe(Rank(depths, m), Rank(depths, n))
  }

  ghost predicate NobodySets(layer: Layer, names: seq<string>, k: string) {
    forall m :: m in names ==> !Sets(layer, m, k)
  }

  /** `merged` holds for each key the value its winner sets, and no other keys. */
  ghost predicate Decided(layer: Layer, depths: Depths, names: seq<string>, merged: Vars) {
    && (forall n, k :: Winner(layer, depths, names, n, k) ==> k in merged && merged[k] == layer[n][k])
    && (forall k :: k in merged <==> !NobodySets(layer, names, k))
  }

  /** Host entries decide first; group variables decide the keys no host entry sets. */
  ghost predicate HostBeforeGroup(groups: Groups, depths: Depths, names: seq<string>, h: string, merged: Vars) {
    && (forall n, k :: Winner(HostLayer(groups, h), depths, names, n, k) ==>
          k in merged && merged[k] == groups[n].hostVars[h][k])
    && (forall n, k :: NobodySets(HostLayer(groups, h), names, k) && Winner(GroupLayer(groups), depths, names, n, k) ==>
          k in merged && merged[k] == groups[n].vars[k])
    && (forall k :: k in merged <==>
          !NobodySets(HostLayer(groups, h), names, k) || !NobodySets(GroupLayer(groups), names, k))
  }

  /** The groups of a host in the order in which their variables are laid down. */
  ghost predicate InRankOrder(depths: Depths, names: seq<string>, ranked: seq<Ranked>) {
    && SortedBy(ranked, RankLe)
    && (forall r :: r in ranked ==> r.name in names && r == Rank(depths, r.name))
    && (forall n :: n in names ==> Rank(depths, n) in ranked)
  }

  function LayerOf(layer: Layer, n: string): Vars {
    if n in layer then layer[n] else map[]
  }

  function LayerList(layer: Layer, ranked: seq<Ranked>): seq<Vars> {
    seq(|ranked|, i requires 0 <= i < |ranked| => LayerOf(layer, ranked[i].name))
  }

  lemma OverlayNothing(base: Vars)
    ensures base == base + Overlay([])
  {
  }

  lemma OverlayOneMore(base: Vars, layers: seq<Vars>, i: nat)
    requires i < |layers|
    ensures base + Overlay(layers[..i + 1]) == (base + Overlay(layers[..i])) + layers[i]
  {
    assert layers[..i + 1][..i] == layers[..i];
    ReplacingIsUpdating(Overlay(layers[..i]), layers[i]);
  }

  lemma LastLayerIsWinner(layer: Layer, depths: Depths, names: seq<string>, ranked: seq<Ranked>, i: nat, k: string)
    requires InRankOrder(depths, names, ranked)
    requires i < |ranked| && k in LayerList(layer, ranked)[i]
    requires forall j :: i < j < |ranked| ==> k !in LayerList(layer, ranked)[j]
    ensures Winner(layer, depths, names, ranked[i].name, k)
  {
    RankOrder();
    assert ranked[i] in ranked;
    forall m | m in names && Sets(layer, m, k)
      ensures RankLe(Rank(depths, m), ranked[i])
    {
      var j :| 0 <= j < |ranked| && ranked[j] == Rank(depths, m);
      assert k in LayerList(layer, ranked)[j];
    }
  }

  ghost function DepthOf(depths: Depths, n: string): nat {
    if n in depths then depths[n] else 0
  }

  /** The winner is deeper than every other group that sets the key, or as deep with the greater
      name. */
  lemma WinnerIsDeepest(layer: Layer, depths: Depths, names: seq<string>, n: string, k: string)
    ensures Winner(layer, depths, names, n, k) <==>
      && n in names && n in layer && k in layer[n]
      && forall m :: m in names && m in layer && k in layer[m] ==>
        DepthOf(depths, m) < DepthOf(depths, n) || (DepthOf(depths, m) == DepthOf(depths, n) && StringLe(m, n))
  {
    if Winner(layer, depths, names, n, k) {
      forall m | m in names && m in layer && k in layer[m]
        ensures DepthOf(depths, m) < DepthOf(depths, n) || (DepthOf(depths, m) == DepthOf(depths, n) && StringLe(m, n))
      {
        assert Sets(layer, m, k);
      }
    }
  }

  lemma WinnerUnique(layer: Layer, depths: Depths, names: seq<string>, a: string, b: string, k: string)
    requires Winner(layer, depths, names, a, k) && Winner(layer, depths, names, b, k)
    ensures a == b
  {
    RankOrder();
    assert Rank(depths, a) == Rank(depths, b);
  }

  /** Laying the maps down in rank order gives every key to its winner. */
  lemma OverlayDecides(layer: Layer, depths: Depths, names: seq<string>, ranked: seq<Ranked>)
    requires InRankOrder(depths, names, ranked)
    ensures Decided(layer, depths, names, Overlay(LayerList(layer, ranked)))
  {
    var layers := LayerList(layer, ranked);
    forall k
      ensures k in Overlay(layers) <==> !NobodySets(layer, names, k)
      ensures forall n :: Winner(layer, depths, names, n, k) ==>
        k in Overlay(layers) && Overlay(layers)[k] == layer[n][k]
    {
      LastLayerDecides(layers, k);
      if m :| m in names && Sets(layer, m, k) {
        var j :| 0 <= j < |ranked| && ranked[j] == Rank(depths, m);
        assert k in layers[j];
      }
      if k in Overlay(layers) {
        var i :| 0 <= i < |layers| && k in layers[i] && Overlay(layers)[k] == layers[i][k]
          && forall j :: i < j < |layers| ==> k !in layers[j];
        LastLayerIsWinner(layer, depths, names, ranked, i, k);
        forall n | Winner(layer, depths, names, n, k)
          ensures n == ranked[i].name
        {
          WinnerUnique(layer, depths, names, n, ranked[i].name, k);
        }
      }
    }
  }

  lemma OverDecides(groups: Groups, depths: Depths, names: seq<string>, h: string, byGroup: Vars, byHost: Vars)
    requires Decided(GroupLayer(groups), depths, names, byGroup)
    requires Decided(HostLayer(groups, h), depths, names, byHost)
    ensures HostBeforeGroup(groups, depths, names, h, byGroup + byHost)
  {
  }

  /** A group never wins over one of its own descendants. */
  lemma DescendantBeatsAncestor(g: Graph, depths: Depths, layer: Layer, names: seq<string>,
                                ancestor: string, descendant: string, k: string)
    requires LongestPaths(g, depths) && ancestor in depths && ancestor != descendant
    requires Reaches(g, ancestor, descendant)
    requires descendant in names && Sets(layer, descendant, k)
    ensures !Winner(layer, depths, names, ancestor, k)
  {
    DescendantIsDeeper(g, depths, ancestor, descendant);
  }

  function RankAll(depths: Depths, names: seq<string>): (r: seq<Ranked>)
    ensures |r| == |names| && forall i :: 0 <= i < |r| ==> r[i] == Rank(depths, names[i])
  {
    seq(|names|, i requires 0 <= i < |names| => Rank(depths, names[i]))
  }

  lemma SortedByRank(s: seq<Ranked>)
    ensures SortedBy(Sort(s, RankLe), RankLe)
  {
    RankOrder();
    SortSorted(s, RankLe);
  }

  lemma RankOrderOf(depths: Depths, names: seq<string>)
    ensures InRankOrder(depths, names, Sort(RankAll(depths, names), RankLe))
  {
    var s := RankAll(depths, names);
    SortedByRank(s);
    SortElements(s, RankLe);
    forall n | n in names
      ensures Rank(depths, n) in s
    {
      var i :| 0 <= i < |names| && names[i] == n;
      assert s[i] == Rank(depths, n);
    }
  }

  lemma LastSetter(layer: Layer, depths: Depths, names: seq<string>, ranked: seq<Ranked>, k: string)
    requires InRankOrder(depths, names, ranked) && !NobodySets(layer, names, k)
    ensures exists n :: Winner(layer, depths, names, n, k)
  {
    var layers := LayerList(layer, ranked);
    OverlayDecides(layer, depths, names, ranked);
    LastLayerDecides(layers, k);
    var i :| 0 <= i < |layers| && k in layers[i] && forall j :: i < j < |layers| ==> k !in layers[j];
    LastLayerIsWinner(layer, depths, names, ranked, i, k);
  }

  /** Every key that some group sets has a winner. */
  lemma WinnerExists(layer: Layer, depths: Depths, names: seq<string>, k: string)
    requires !NobodySets(layer, names, k)
    ensures exists n :: Winner(layer, depths, names, n, k)
  {
    var ranked := Sort(RankAll(depths, names), RankLe);
    RankOrderOf(depths, names);
    LastSetter(layer, depths, names, ranked, k);
  }

  /** So the result is fully determined by the declarations, whatever order the groups were
      visited in. */
  lemma DecidedUnique(groups: Groups, depths: Depths, names: seq<string>, h: string, a: Vars, b: Vars)
    requires HostBeforeGroup(groups, depths, names, h, a) && HostBeforeGroup(groups, depths, names, h, b)
    ensures a == b
  {
    forall k | k in a
      ensures a[k] == b[k]
    {
      if NobodySets(HostLayer(groups, h), names, k) {
        WinnerExists(GroupLayer(groups), depths, names, k);
      } else {
        WinnerExists(HostLayer(groups, h), depths, names, k);
      }
    }
  }
}
