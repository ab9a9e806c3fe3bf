/** Merging layers of variables, by replacing or deeply. */
module VarMerge {
  import opened Values
  import opened Ordering

  datatype Strategy = Replace | Deep

  /** Values of the override replace values of the base; under the deep strategy two maps under
      the same key are merged in turn. */
  function Merge(base: Vars, override: Vars, strategy: Strategy): Vars
    decreases Map(override)
  {
    map k | k in base.Keys + override.Keys ::
      if k !in override then base[k]
      else if k in base && strategy.Deep? && base[k].Map? && override[k].Map?
      then Map(Merge(base[k].fields, override[k].fields, strategy))
      else override[k]
  }

  method MergeMaps(base: Vars, override: Vars, strategy: Strategy) returns (result: Vars)
    ensures result == Merge(base, override, strategy)
    decreases Map(override)
  {
    result := base;
    var todo := override.Keys;
    while todo != {}
      invariant todo <= override.Keys
      invariant result.Keys == base.Keys + (override.Keys - todo)
      invariant forall k :: k in result ==>
        result[k] == if k in override.Keys - todo then Merge(base, override, strategy)[k] else base[k]
      decreases todo
    {
      var key :| key in todo;
      todo := todo - {key};
      var value := override[key];
      if key in result && strategy.Deep? && result[key].Map? && value.Map? {
        assert value.fields == override[key].fields;
        var merged := MergeMaps(result[key].fields, value.fields, strategy);
        result := result[key := Map(merged)];
      } else {
        result := result[key := value];
      }
    }
  }

  // ----- Replacing

  lemma ReplacingIsUpdating(base: Vars, override: Vars)
    ensures Merge(base, override, Replace) == base + override
  {
  }

  function MergeLayers(layers: seq<Vars>, strategy: Strategy): Vars {
    if layers == [] then map[]
    else Merge(MergeLayers(layers[..|layers| - 1], strategy), layers[|layers| - 1], strategy)
  }

  /** Under replacement every key has the value of the last layer that defines it. */
  lemma {:induction false} LastLayerDecides(layers: seq<Vars>, k: string)
    ensures k in MergeLayers(layers, Replace) <==> exists i :: 0 <= i < |layers| && k in layers[i]
    ensures k in MergeLayers(layers, Replace) ==>
      exists i :: 0 <= i < |layers| && k in layers[i] && MergeLayers(layers, Replace)[k] == layers[i][k]
        && forall j :: i < j < |layers| ==> k !in layers[j]
  {
    if layers != [] {
      var n := |layers| - 1;
      LastLayerDecides(layers[..n], k);
      if k !in layers[n] && k in MergeLayers(layers[..n], Replace) {
        var i :| 0 <= i < n && k in layers[..n][i] && MergeLayers(layers[..n], Replace)[k] == layers[..n][i][k]
          && forall j :: i < j < n ==> k !in layers[..n][j];
        assert k in layers[i];
        forall j | i < j < |layers|
          ensures k !in layers[j]
        {
          if j < n {
            assert layers[..n][j] == layers[j];
          }
        }
      }
    }
  }

  // ----- Merging deeply

  function DeepMerge(a: Vars, b: Vars): Vars {
    Merge(a, b, Deep)
  }

  lemma EmptyIsIdentity(a: Vars)
    ensures DeepMerge(a, map[]) == a && DeepMerge(map[], a) == a
  {
  }

  lemma {:induction false} DeepMergeIdempotent(a: Vars)
    ensures DeepMerge(a, a) == a
    decreases Map(a)
  {
    forall k | k in a
      ensures DeepMerge(a, a)[k] == a[k]
    {
      if a[k].Map? {
        DeepMergeIdempotent(a[k].fields);
      }
    }
  }

  /** Laying `c` over `a` leaves nothing of `a` to be seen. */
  predicate Covers(c: Vars, a: Vars)
    decreases Map(a)
  {
    forall k <- a :: k in c && (a[k].Map? && c[k].Map? ==> Covers(c[k].fields, a[k].fields))
  }

  lemma {:induction false} CoversIffHidden(c: Vars, a: Vars)
    ensures Covers(c, a) <==> DeepMerge(a, c) == c
    decreases Map(a)
  {
    var m := DeepMerge(a, c);
    forall k | k in a && k in c && a[k].Map? && c[k].Map?
      ensures Covers(c[k].fields, a[k].fields) <==> m[k] == c[k]
    {
      CoversIffHidden(c[k].fields, a[k].fields);
    }
    if Covers(c, a) {
      assert forall k :: k in m ==> k in c && m[k] == c[k];
      assert m == c;
    } else {
      var k :| k in a && !(k in c && (a[k].Map? && c[k].Map? ==> Covers(c[k].fields, a[k].fields)));
      assert k in m;
    }
  }

  /** Somewhere a plain value of `b` stands between two maps, and the upper map does not cover
      the lower one: the lower map shines through only if the upper two are merged first. */
  predicate Sandwiched(a: Vars, b: Vars, c: Vars)
    decreases Map(a), 1
  {
    exists k <- a :: SandwichedAt(a, b, c, k)
  }

  predicate SandwichedAt(a: Vars, b: Vars, c: Vars, k: string)
    requires k in a
    decreases Map(a), 0
  {
    k in b && k in c && a[k].Map? && c[k].Map? &&
    if b[k].Map? then Sandwiched(a[k].fields, b[k].fields, c[k].fields)
    else !Covers(c[k].fields, a[k].fields)
  }

  lemma {:induction false} AssociativeAt(a: Vars, b: Vars, c: Vars, k: string)
    requires k in a
    ensures DeepMerge(DeepMerge(a, b), c)[k] != DeepMerge(a, DeepMerge(b, c))[k] <==> SandwichedAt(a, b, c, k)
    decreases Map(a), 0
  {
    hide Sandwiched, Covers;
    if k in b && k in c && a[k].Map? && c[k].Map? {
      if b[k].Map? {
        DeepMergeAssociative(a[k].fields, b[k].fields, c[k].fields);
      } else {
        CoversIffHidden(c[k].fields, a[k].fields);
      }
    }
  }

  lemma MergeKeys(a: Vars, b: Vars, c: Vars)
    ensures var left, right := DeepMerge(DeepMerge(a, b), c), DeepMerge(a, DeepMerge(b, c));
      && left.Keys == right.Keys == a.Keys + b.Keys + c.Keys
      && forall k :: k in left && k !in a ==> left[k] == right[k]
  {
  }

  /** Deep merging is associative exactly when no plain value is sandwiched between two maps
      of which the upper does not cover the lower. */
  lemma {:induction false} DeepMergeAssociative(a: Vars, b: Vars, c: Vars)
    ensures DeepMerge(DeepMerge(a, b), c) == DeepMerge(a, DeepMerge(b, c)) <==> !Sandwiched(a, b, c)
    decreases Map(a), 1
  {
    hide DeepMerge, SandwichedAt;
    MergeKeys(a, b, c);
    forall k | k in a
      ensures DeepMerge(DeepMerge(a, b), c)[k] != DeepMerge(a, DeepMerge(b, c))[k] <==> SandwichedAt(a, b, c, k)
    {
      AssociativeAt(a, b, c, k);
    }
  }

  // ----- The layers of a host

  /** The `i`-th of some layers is the last that has the key `k`. */
  predicate LastWith(layers: seq<Vars>, i: nat, k: string) {
    i < |layers| && k in layers[i] && forall j :: i < j < |layers| ==> k !in layers[j]
  }

  /** All plain values of `m` for keys that are not in `but` are in the map `v`. */
  ghost predicate Keeps(v: Value, m: Vars, but: set<string>) {
    v.Map? && forall f <- m :: f !in but && !m[f].Map? ==> f in v.fields && v.fields[f] == m[f]
  }

  /** What deep merging makes of a key that the `i`-th layer is the last to have: its value stands,
      unless it is a map over a map; then its plain values stand in the merged map, and those of the
      map below under the keys it does not have itself. */
  ghost predicate TopAt(layers: seq<Vars>, i: nat, k: string, v: Value)
    requires i < |layers| && k in layers[i]
  {
    var top := layers[i][k];
    && (top.Map? ==> Keeps(v, top.fields, {}))
    && (!top.Map? || (forall j :: 0 <= j < i ==> k !in layers[j]) ==> v == top)
    && (forall j: nat :: j < i && LastWith(layers[..i], j, k) && top.Map? ==>
          if layers[j][k].Map? then Keeps(v, layers[j][k].fields, top.fields.Keys) else v == top)
  }

  ghost predicate TopDecides(layers: seq<Vars>, values: Vars) {
    && (forall k :: k in values <==> exists i: nat :: LastWith(layers, i, k))
    && (forall i: nat, k :: LastWith(layers, i, k) ==> TopAt(layers, i, k, values[k]))
  }

  lemma TopOfShorter(layers: seq<Vars>, n: nat, i: nat, k: string, v: Value)
    requires i < n <= |layers| && k in layers[i] && TopAt(layers[..n], i, k, v)
    ensures TopAt(layers, i, k, v)
  {
    assert layers[..n][..i] == layers[..i];
  }

  lemma TopAlone(layers: seq<Vars>, n: nat, k: string, v: Value)
    requires n == |layers| - 1 && k in layers[n] && v == layers[n][k]
    ensures TopAt(layers, n, k, v) || exists j: nat :: LastWith(layers[..n], j, k)
  {
  }

  lemma TopOverLower(layers: seq<Vars>, n: nat, j: nat, k: string, lower: Value, v: Value)
    requires n == |layers| - 1 && k in layers[n] && LastWith(layers[..n], j, k) && TopAt(layers[..n], j, k, lower)
    requires var top := layers[n][k];
      v == if lower.Map? && top.Map? then Map(Merge(lower.fields, top.fields, Deep)) else top
    ensures TopAt(layers, n, k, v)
  {
  }

  lemma TopOfMerge(layers: seq<Vars>, n: nat, k: string, below: Vars)
    requires n == |layers| - 1 && k in layers[n] && TopDecides(layers[..n], below)
    ensures TopAt(layers, n, k, Merge(below, layers[n], Deep)[k])
  {
    hide TopAt;
    var top, v := layers[n][k], Merge(below, layers[n], Deep)[k];
    if k in below {
      var j: nat :| LastWith(layers[..n], j, k);
      assert TopAt(layers[..n], j, k, below[k]);
      TopOverLower(layers, n, j, k, below[k], v);
    } else {
      TopAlone(layers, n, k, v);
    }
  }

  lemma MergedKeys(base: Vars, override: Vars)
    ensures Merge(base, override, Deep).Keys == base.Keys + override.Keys
    ensures forall k :: k in base && k !in override ==> Merge(base, override, Deep)[k] == base[k]
  {
  }

  lemma TopOfSnoc(layers: seq<Vars>, n: nat, k: string, below: Vars, values: Vars)
    requires n == |layers| - 1 && TopDecides(layers[..n], below) && values == Merge(below, layers[n], Deep)
    ensures k in values <==> exists i: nat :: LastWith(layers, i, k)
    ensures forall i: nat :: LastWith(layers, i, k) ==> TopAt(layers, i, k, values[k])
  {
    hide TopAt, Merge;
    MergedKeys(below, layers[n]);
    if k in layers[n] {
      assert LastWith(layers, n, k);
      TopOfMerge(layers, n, k, below);
    } else {
      forall i: nat
        ensures LastWith(layers, i, k) <==> LastWith(layers[..n], i, k)
        ensures LastWith(layers, i, k) ==> TopAt(layers, i, k, values[k])
      {
        if LastWith(layers, i, k) {
          assert LastWith(layers[..n], i, k);
          TopOfShorter(layers, n, i, k, values[k]);
        }
      }
    }
  }

  lemma {:induction false} DeepTop(layers: seq<Vars>)
    ensures TopDecides(layers, MergeLayers(layers, Deep))
  {
    hide TopAt, Merge;
    if layers != [] {
      var n := |layers| - 1;
      DeepTop(layers[..n]);
      forall k
        ensures k in MergeLayers(layers, Deep) <==> exists i: nat :: LastWith(layers, i, k)
        ensures forall i: nat :: LastWith(layers, i, k) ==> TopAt(layers, i, k, MergeLayers(layers, Deep)[k])
      {
        TopOfSnoc(layers, n, k, MergeLayers(layers[..n], Deep), MergeLayers(layers, Deep));
      }
    }
  }

  /** Under replacement, the last of six layers that has a key decides it. */
  lemma SixLayers(a: Vars, b: Vars, c: Vars, d: Vars, e: Vars, f: Vars)
    ensures var values := MergeLayers([a, b, c, d, e, f], Replace);
      && values.Keys == a.Keys + b.Keys + c.Keys + d.Keys + e.Keys + f.Keys
      && forall k <- values :: values[k] ==
           (if k in f then f[k] else if k in e then e[k] else if k in d then d[k] else if k in c then c[k]
            else if k in b then b[k] else a[k])
  {
    hide MergeLayers;
    var layers := [a, b, c, d, e, f];
    forall k
      ensures var values := MergeLayers(layers, Replace);
        && (k in values <==> k in a || k in b || k in c || k in d || k in e || k in f)
        && (k in values ==>
              values[k] ==
                (if k in f then f[k] else if k in e then e[k] else if k in d then d[k] else if k in c then c[k]
                 else if k in b then b[k] else a[k]))
    {
      LastLayerDecides(layers, k);
      assert layers[0] == a && layers[1] == b && layers[2] == c && layers[3] == d && layers[4] == e && layers[5] == f;
    }
  }

  datatype HostLayers = HostLayers(group: Vars, host: Vars, play: Vars, runtime: Vars, task: Vars, extra: Vars)

  function InOrder(l: HostLayers): seq<Vars> {
    [l.group, l.host, l.play, l.runtime, l.task, l.extra]
  }

  /** The variable files of the groups; a group without a file counts as an empty one. */
  function FilesOf(groups: seq<string>, groupVars: map<string, Vars>): (r: seq<Vars>)
    ensures |r| == |groups|
    ensures forall i :: 0 <= i < |r| ==> r[i] == if groups[i] in groupVars then groupVars[groups[i]] else map[]
  {
    seq(|groups|, i requires 0 <= i < |groups| => if groups[i] in groupVars then groupVars[groups[i]] else map[])
  }

  predicate Defines(groups: seq<string>, groupVars: map<string, Vars>, g: string, k: string) {
    g in groups && g != "" && g in groupVars && k in groupVars[g]
  }

  /** No group that defines `k` has a greater name than `g`. */
  ghost predicate Greatest(groups: seq<string>, groupVars: map<string, Vars>, g: string, k: string) {
    Defines(groups, groupVars, g, k) && forall other :: Defines(groups, groupVars, other, k) ==> StringLe(other, g)
  }

  /** Under replacement, of the groups that define a key the one with the greatest name decides. */
  ghost predicate GreatestNameDecides(groups: seq<string>, groupVars: map<string, Vars>, merged: Vars) {
    && (forall k :: k in merged <==> exists g :: Defines(groups, groupVars, g, k))
    && (forall g, k :: Greatest(groups, groupVars, g, k) ==> merged[k] == groupVars[g][k])
  }

  lemma SortedNamesDecide(groups: seq<string>, groupVars: map<string, Vars>, sorted: seq<string>)
    requires Lists(sorted, set g | g in groups && g != "")
    ensures GreatestNameDecides(groups, groupVars, MergeLayers(FilesOf(sorted, groupVars), Replace))
  {
    hide MergeLayers, FilesOf;
    StringOrder();
    var layers := FilesOf(sorted, groupVars);
    forall k
      ensures k in MergeLayers(layers, Replace) <==> exists g :: Defines(groups, groupVars, g, k)
      ensures forall g :: Greatest(groups, groupVars, g, k) ==> MergeLayers(layers, Replace)[k] == groupVars[g][k]
    {
      LastLayerDecides(layers, k);
      if g :| Defines(groups, groupVars, g, k) {
        assert g in sorted;
        var i :| 0 <= i < |sorted| && sorted[i] == g;
        assert k in layers[i];
      }
      if k in MergeLayers(layers, Replace) {
        var i :| 0 <= i < |layers| && k in layers[i] && MergeLayers(layers, Replace)[k] == layers[i][k]
          && forall j :: i < j < |layers| ==> k !in layers[j];
        assert sorted[i] in sorted;
        assert Defines(groups, groupVars, sorted[i], k);
        forall g | Defines(groups, groupVars, g, k)
          ensures StringLe(g, sorted[i])
        {
          assert g in sorted;
          var j :| 0 <= j < |sorted| && sorted[j] == g;
          assert k in layers[j];
        }
      }
    }
  }

  /** Merges the variable files of the groups a host is in, in the order of their names; an
      unnamed group is passed over. */
  method MergeGroupVars(groups: seq<string>, groupVars: map<string, Vars>, strategy: Strategy)
    returns (merged: Vars, ghost sorted: seq<string>)
    ensures Lists(sorted, set g | g in groups && g != "")
    ensures merged == MergeLayers(FilesOf(sorted, groupVars), strategy)
    ensures strategy == Replace ==> GreatestNameDecides(groups, groupVars, merged)
    ensures strategy == Deep ==> TopDecides(FilesOf(sorted, groupVars), merged)
  {
    hide FilesOf, Lists, Merge, GreatestNameDecides, TopDecides;
    var names := SortedNames(set g | g in groups && g != "");
    sorted := names;
    ghost var layers := FilesOf(sorted, groupVars);
    merged := map[];
    for i := 0 to |names|
      invariant merged == MergeLayers(layers[..i], strategy)
    {
      merged := MergeMaps(merged, if names[i] in groupVars then groupVars[names[i]] else map[], strategy);
      assert layers[..i + 1][..i] == layers[..i];
    }
    assert layers[..|names|] == layers;
    SortedNamesDecide(groups, groupVars, sorted);
    DeepTop(layers);
  }

  /** What a host resolves to: the layers by name, and their values merged. */
  datatype Resolved = Resolved(values: Vars, namespaces: HostLayers)

  /** Without a strategy, layers replace each other. */
  method ResolveHostVars(host: string, groups: seq<string>, groupVars: map<string, Vars>, hostVars: map<string, Vars>,
                         play: Vars, runtime: Vars, task: Vars, extra: Vars, chosen: Option<Strategy>)
    returns (resolved: Resolved, ghost sorted: seq<string>)
    ensures Lists(sorted, set g | g in groups && g != "")
    ensures var strategy := if chosen.Some? then chosen.value else Replace;
      && resolved.namespaces == HostLayers(
           MergeLayers(FilesOf(sorted, groupVars), strategy), if host in hostVars then hostVars[host] else map[],
           play, runtime, task, extra)
      && resolved.values == MergeLayers(InOrder(resolved.namespaces), strategy)
    ensures chosen != Some(Deep) ==> GreatestNameDecides(groups, groupVars, resolved.namespaces.group)
    ensures chosen != Some(Deep) ==>
      var group, host := resolved.namespaces.group, resolved.namespaces.host;
      && resolved.values.Keys == group.Keys + host.Keys + play.Keys + runtime.Keys + task.Keys + extra.Keys
      && forall k <- resolved.values :: resolved.values[k] ==
           (if k in extra then extra[k] else if k in task then task[k] else if k in runtime then runtime[k]
            else if k in play then play[k] else if k in host then host[k] else group[k])
    ensures chosen == Some(Deep) ==>
      TopDecides([resolved.namespaces.group, resolved.namespaces.host, play, runtime, task, extra], resolved.values)
  {
    hide Merge, Lists, GreatestNameDecides, FilesOf, TopDecides;
    var strategy := if chosen.Some? then chosen.value else Replace;
    var group;
    group, sorted := MergeGroupVars(groups, groupVars, strategy);
    var namespaces := HostLayers(
      group, if host in hostVars then hostVars[host] else map[], play, runtime, task, extra);
    var layers := InOrder(namespaces);
    var merged: Vars := map[];
    for i := 0 to |layers|
      invariant merged == MergeLayers(layers[..i], strategy)
    {
      merged := MergeMaps(merged, layers[i], strategy);
      assert layers[..i + 1][..i] == layers[..i];
    }
    assert layers[..|layers|] == layers;
    assert layers == [group, namespaces.host, play, runtime, task, extra];
    if strategy == Deep {
      DeepTop(layers);
    } else {
      assert strategy == Replace && merged == MergeLayers(layers, Replace);
      SixLayers(group, namespaces.host, play, runtime, task, extra);
    }
    resolved := Resolved(merged, namespaces);
  }
}
