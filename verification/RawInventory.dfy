/** The decoded inventory file: a tree of group declarations in which one group may be
    declared in several places. */
module RawInventory {
  import opened Values
  import opened GroupGraph
  import opened InventoryShape

  datatype RawGroup = RawGroup(vars: Vars, hosts: map<string, Vars>, children: map<string, RawGroup>)

  /** What has been collected about one group from all its declarations. */
  datatype Declaration = Declaration(vars: Vars, hosts: map<string, Vars>, children: set<string>)

  type Collected = map<string, Declaration>

  /** `n` is declared somewhere below the node ... */
  ghost predicate Named(node: RawGroup, n: string)
    decreases node, 1
  {
    exists k :: NamedAt(node, k, n)
  }

  /** ... namely by or below its child `k`. */
  ghost predicate NamedAt(node: RawGroup, k: string, n: string)
    decreases node, 0
  {
    k in node.children && (k == n || Named(node.children[k], n))
  }

  /** Somewhere below the node, a declaration of `a` has the child `b`. */
  ghost predicate Nested(node: RawGroup, a: string, b: string)
    decreases node, 1
  {
    exists k :: NestedAt(node, k, a, b)
  }

  ghost predicate NestedAt(node: RawGroup, k: string, a: string, b: string)
    decreases node, 0
  {
    k in node.children && ((k == a && b in node.children[k].children) || Nested(node.children[k], a, b))
  }

  /** Somewhere below the node, a declaration of `n` lists the host `h`. */
  ghost predicate Listed(node: RawGroup, n: string, h: string)
    decreases node, 1
  {
    exists k :: ListedAt(node, k, n, h)
  }

  ghost predicate ListedAt(node: RawGroup, k: string, n: string, h: string)
    decreases node, 0
  {
    k in node.children && ((k == n && h in node.children[k].hosts) || Listed(node.children[k], n, h))
  }

  /** Somewhere below the node, a declaration of `n` sets the variable `k` to `v`. */
  ghost predicate VarFrom(node: RawGroup, n: string, k: string, v: Value)
    decreases node, 1
  {
    exists c :: VarFromAt(node, c, n, k, v)
  }

  predicate Binds<T(==)>(m: map<string, T>, k: string, v: T) {
    k in m && m[k] == v
  }

  ghost predicate VarFromAt(node: RawGroup, c: string, n: string, k: string, v: Value)
    decreases node, 0
  {
    c in node.children && ((c == n && Binds(node.children[c].vars, k, v)) || VarFrom(node.children[c], n, k, v))
  }

  /** Somewhere below the node, a declaration of `n` lists the host `h` with the variables `hv`. */
  ghost predicate EntryFrom(node: RawGroup, n: string, h: string, hv: Vars)
    decreases node, 1
  {
    exists c :: EntryFromAt(node, c, n, h, hv)
  }

  ghost predicate EntryFromAt(node: RawGroup, c: string, n: string, h: string, hv: Vars)
    decreases node, 0
  {
    c in node.children && ((c == n && Binds(node.children[c].hosts, h, hv)) || EntryFrom(node.children[c], n, h, hv))
  }

  ghost predicate HasVar(c: Collected, n: string, k: string) {
    n in c && k in c[n].vars
  }

  ghost predicate VarIs(c: Collected, n: string, k: string, v: Value) {
    n in c && Binds(c[n].vars, k, v)
  }

  ghost predicate EntryIs(c: Collected, n: string, h: string, hv: Vars) {
    n in c && Binds(c[n].hosts, h, hv)
  }

  ghost predicate ChildIn(c: Collected, a: string, b: string) {
    a in c && b in c[a].children
  }

  ghost predicate HostIn(c: Collected, n: string, h: string) {
    n in c && h in c[n].hosts
  }

  /** The single root the loader puts above everything.  A top-level group other than "all"
      becomes a child of "all", unless "all" declares a child of that name itself. */
  function Wrap(raw: map<string, RawGroup>): RawGroup {
    var root :=
      if ALL in raw then raw[ALL].(children := (raw - {ALL}) + raw[ALL].children)
      else RawGroup(map[], map[], raw);
    RawGroup(map[], map[], map[ALL := root])
  }

  // ----- What the file itself says

  /** A top-level group counts unless "all" is there and declares a child of that name itself. */
  predicate Kept(raw: map<string, RawGroup>, k: string) {
    k in raw && (k == "all" || "all" !in raw || k !in raw["all"].children)
  }

  /** The file declares the group `n`: there is always "all", and the rest is found at the top or
      below. */
  ghost predicate FileNames(raw: map<string, RawGroup>, n: string) {
    n == "all" || exists k :: Kept(raw, k) && (k == n || Named(raw[k], n))
  }

  /** The file makes `b` a child of `a`: by hanging it below "all", or by a declaration of `a`. */
  ghost predicate FileNests(raw: map<string, RawGroup>, a: string, b: string) {
    || (a == "all" && b != "all" && Kept(raw, b))
    || exists k :: Kept(raw, k) && ((k == a && b in raw[k].children) || Nested(raw[k], a, b))
  }

  /** Some declaration of `n` in the file lists the host `h`. */
  ghost predicate FileLists(raw: map<string, RawGroup>, n: string, h: string) {
    exists k :: Kept(raw, k) && ((k == n && h in raw[k].hosts) || Listed(raw[k], n, h))
  }

  /** Some declaration of `n` in the file sets the variable `k` to `v`. */
  ghost predicate FileSets(raw: map<string, RawGroup>, n: string, k: string, v: Value) {
    exists c :: Kept(raw, c) && ((c == n && Binds(raw[c].vars, k, v)) || VarFrom(raw[c], n, k, v))
  }

  /** Some declaration of `n` in the file lists the host `h` with the variables `hv`. */
  ghost predicate FileEntry(raw: map<string, RawGroup>, n: string, h: string, hv: Vars) {
    exists c :: Kept(raw, c) && ((c == n && Binds(raw[c].hosts, h, hv)) || EntryFrom(raw[c], n, h, hv))
  }

  /** The children the root ends up with. */
  lemma WrapRoot(raw: map<string, RawGroup>)
    ensures var node := Wrap(raw);
      && node.children.Keys == {ALL}
      && (forall k :: k in node.children[ALL].children <==>
            (ALL in raw && k in raw[ALL].children) || (k in raw && (ALL !in raw || k != ALL)))
      && (forall k :: k in node.children[ALL].children ==>
            node.children[ALL].children[k] ==
              (if ALL in raw && k in raw[ALL].children then raw[ALL].children[k] else raw[k]))
      && node.children[ALL].hosts == (if ALL in raw then raw[ALL].hosts else map[])
      && node.children[ALL].vars == (if ALL in raw then raw[ALL].vars else map[])
  {
  }

  lemma NamedWhere(node: RawGroup, n: string) returns (k: string)
    requires Named(node, n)
    ensures NamedAt(node, k, n)
  {
    k :| NamedAt(node, k, n);
  }

  lemma WrapNamed(raw: map<string, RawGroup>, n: string)
    ensures Named(Wrap(raw), n) <==> FileNames(raw, n)
  {
    WrapRoot(raw);
    var node, root := Wrap(raw), Wrap(raw).children[ALL];
    assert Named(node, n) <==> NamedAt(node, ALL, n);
    if Named(root, n) {
      var k := NamedWhere(root, n);
      if ALL in raw && k in raw[ALL].children {
        assert NamedAt(raw[ALL], k, n) && Kept(raw, ALL);
      } else {
        assert Kept(raw, k);
      }
    }
    if k :| Kept(raw, k) && (k == n || Named(raw[k], n)) {
      if k != ALL {
        assert NamedAt(root, k, n);
      } else if Named(raw[ALL], n) {
        var j := NamedWhere(raw[ALL], n);
        assert NamedAt(root, j, n);
      }
    }
  }

  lemma NestedWhere(node: RawGroup, a: string, b: string) returns (k: string)
    requires Nested(node, a, b)
    ensures NestedAt(node, k, a, b)
  {
    k :| NestedAt(node, k, a, b);
  }

  lemma WrapNested(raw: map<string, RawGroup>, a: string, b: string)
    ensures Nested(Wrap(raw), a, b) <==> FileNests(raw, a, b)
  {
    WrapRoot(raw);
    var node, root := Wrap(raw), Wrap(raw).children[ALL];
    assert Nested(node, a, b) <==> NestedAt(node, ALL, a, b);
    if Nested(root, a, b) {
      var k := NestedWhere(root, a, b);
      if ALL in raw && k in raw[ALL].children {
        assert NestedAt(raw[ALL], k, a, b) && Kept(raw, ALL);
      } else {
        assert Kept(raw, k);
      }
    }
    if k :| Kept(raw, k) && ((k == a && b in raw[k].children) || Nested(raw[k], a, b)) {
      if k != ALL {
        assert NestedAt(root, k, a, b);
      } else if Nested(raw[ALL], a, b) {
        var j := NestedWhere(raw[ALL], a, b);
        assert NestedAt(root, j, a, b);
      }
    }
  }

  lemma ListedWhere(node: RawGroup, n: string, h: string) returns (k: string)
    requires Listed(node, n, h)
    ensures ListedAt(node, k, n, h)
  {
    k :| ListedAt(node, k, n, h);
  }

  lemma WrapListed(raw: map<string, RawGroup>, n: string, h: string)
    ensures Listed(Wrap(raw), n, h) <==> FileLists(raw, n, h)
  {
    WrapRoot(raw);
    var node, root := Wrap(raw), Wrap(raw).children[ALL];
    assert Listed(node, n, h) <==> ListedAt(node, ALL, n, h);
    if Listed(root, n, h) {
      var k := ListedWhere(root, n, h);
      if ALL in raw && k in raw[ALL].children {
        assert ListedAt(raw[ALL], k, n, h) && Kept(raw, ALL);
      } else {
        assert Kept(raw, k);
      }
    }
    if k :| Kept(raw, k) && ((k == n && h in raw[k].hosts) || Listed(raw[k], n, h)) {
      if k != ALL {
        assert ListedAt(root, k, n, h);
      } else if Listed(raw[ALL], n, h) {
        var j := ListedWhere(raw[ALL], n, h);
        assert ListedAt(root, j, n, h);
      }
    }
  }

  lemma VarFromWhere(node: RawGroup, n: string, v: string, value: Value) returns (k: string)
    requires VarFrom(node, n, v, value)
    ensures VarFromAt(node, k, n, v, value)
  {
    k :| VarFromAt(node, k, n, v, value);
  }

  lemma WrapVar(raw: map<string, RawGroup>, n: string, v: string, value: Value)
    ensures VarFrom(Wrap(raw), n, v, value) <==> FileSets(raw, n, v, value)
  {
    WrapRoot(raw);
    var node, root := Wrap(raw), Wrap(raw).children[ALL];
    assert VarFrom(node, n, v, value) <==> VarFromAt(node, ALL, n, v, value);
    if VarFrom(root, n, v, value) {
      var k := VarFromWhere(root, n, v, value);
      if ALL in raw && k in raw[ALL].children {
        assert VarFromAt(raw[ALL], k, n, v, value) && Kept(raw, ALL);
      } else {
        assert Kept(raw, k);
      }
    }
    if k :| Kept(raw, k) && ((k == n && Binds(raw[k].vars, v, value)) || VarFrom(raw[k], n, v, value)) {
      if k != ALL {
        assert VarFromAt(root, k, n, v, value);
      } else if VarFrom(raw[ALL], n, v, value) {
        var j := VarFromWhere(raw[ALL], n, v, value);
        assert VarFromAt(root, j, n, v, value);
      }
    }
  }

  lemma EntryFromWhere(node: RawGroup, n: string, h: string, hv: Vars) returns (k: string)
    requires EntryFrom(node, n, h, hv)
    ensures EntryFromAt(node, k, n, h, hv)
  {
    k :| EntryFromAt(node, k, n, h, hv);
  }

  lemma WrapEntry(raw: map<string, RawGroup>, n: string, h: string, hv: Vars)
    ensures EntryFrom(Wrap(raw), n, h, hv) <==> FileEntry(raw, n, h, hv)
  {
    WrapRoot(raw);
    var node, root := Wrap(raw), Wrap(raw).children[ALL];
    assert EntryFrom(node, n, h, hv) <==> EntryFromAt(node, ALL, n, h, hv);
    if EntryFrom(root, n, h, hv) {
      var k := EntryFromWhere(root, n, h, hv);
      if ALL in raw && k in raw[ALL].children {
        assert EntryFromAt(raw[ALL], k, n, h, hv) && Kept(raw, ALL);
      } else {
        assert Kept(raw, k);
      }
    }
    if k :| Kept(raw, k) && ((k == n && Binds(raw[k].hosts, h, hv)) || EntryFrom(raw[k], n, h, hv)) {
      if k != ALL {
        assert EntryFromAt(root, k, n, h, hv);
      } else if EntryFrom(raw[ALL], n, h, hv) {
        var j := EntryFromWhere(raw[ALL], n, h, hv);
        assert EntryFromAt(root, j, n, h, hv);
      }
    }
  }

  /** Under the single root stands what the file says, and nothing else. */
  lemma WrapKeeps(raw: map<string, RawGroup>)
    ensures forall n :: Named(Wrap(raw), n) <==> FileNames(raw, n)
    ensures forall a, b :: Nested(Wrap(raw), a, b) <==> FileNests(raw, a, b)
    ensures forall n, h :: Listed(Wrap(raw), n, h) <==> FileLists(raw, n, h)
    ensures forall n, k, v :: VarFrom(Wrap(raw), n, k, v) <==> FileSets(raw, n, k, v)
    ensures forall n, h, hv :: EntryFrom(Wrap(raw), n, h, hv) <==> FileEntry(raw, n, h, hv)
  {
    forall n
      ensures Named(Wrap(raw), n) <==> FileNames(raw, n)
    {
      WrapNamed(raw, n);
    }
    forall a, b
      ensures Nested(Wrap(raw), a, b) <==> FileNests(raw, a, b)
    {
      WrapNested(raw, a, b);
    }
    forall n, h
      ensures Listed(Wrap(raw), n, h) <==> FileLists(raw, n, h)
    {
      WrapListed(raw, n, h);
    }
    forall n, k, v
      ensures VarFrom(Wrap(raw), n, k, v) <==> FileSets(raw, n, k, v)
    {
      WrapVar(raw, n, k, v);
    }
    forall n, h, hv
      ensures EntryFrom(Wrap(raw), n, h, hv) <==> FileEntry(raw, n, h, hv)
    {
      WrapEntry(raw, n, h, hv);
    }
  }

  /** Adds one declaration to what is already known about the group. */
  function Declare(collected: Collected, name: string, rg: RawGroup): Collected {
    if name in collected then
      var existing := collected[name];
      collected[name := Declaration(existing.vars + rg.vars, existing.hosts + rg.hosts,
                                    existing.children + rg.children.Keys)]
    else
      collected[name := Declaration(rg.vars, rg.hosts, rg.children.Keys)]
  }

  method CollectGroups(node: RawGroup, collected0: Collected) returns (collected: Collected)
    ensures forall n :: n in collected <==> (n in collected0 || Named(node, n))
    ensures forall a, b :: ChildIn(collected, a, b) <==> (ChildIn(collected0, a, b) || Nested(node, a, b))
    ensures forall n, h :: HostIn(collected, n, h) <==> (HostIn(collected0, n, h) || Listed(node, n, h))
    ensures forall n, k, v :: VarIs(collected, n, k, v) ==> VarIs(collected0, n, k, v) || VarFrom(node, n, k, v)
    ensures forall n, k, v :: VarFrom(node, n, k, v) ==> HasVar(collected, n, k)
    ensures forall n, k :: HasVar(collected0, n, k) ==> HasVar(collected, n, k)
    ensures forall n, h, hv :: EntryIs(collected, n, h, hv) ==>
      EntryIs(collected0, n, h, hv) || EntryFrom(node, n, h, hv)
    decreases node, 1
  {
    collected := collected0;
    var todo := node.children.Keys;
    while todo != {}
      invariant todo <= node.children.Keys
      invariant forall n :: n in collected <==> (n in collected0 || exists k :: k !in todo && NamedAt(node, k, n))
      invariant forall a, b :: ChildIn(collected, a, b) <==>
        (ChildIn(collected0, a, b) || exists k :: k !in todo && NestedAt(node, k, a, b))
      invariant forall n, h :: HostIn(collected, n, h) <==>
        (HostIn(collected0, n, h) || exists k :: k !in todo && ListedAt(node, k, n, h))
      invariant forall n, k, v :: VarIs(collected, n, k, v) ==> VarIs(collected0, n, k, v) || VarFrom(node, n, k, v)
      invariant forall c, n, k, v :: c !in todo && VarFromAt(node, c, n, k, v) ==> HasVar(collected, n, k)
      invariant forall n, k :: HasVar(collected0, n, k) ==> HasVar(collected, n, k)
      invariant forall n, h, hv :: EntryIs(collected, n, h, hv) ==>
        EntryIs(collected0, n, h, hv) || EntryFrom(node, n, h, hv)
      decreases todo
    {
      var name :| name in todo;
      todo := todo - {name};
      collected := CollectOne(node, name, collected);
    }
  }

  method CollectOne(node: RawGroup, name: string, collected0: Collected) returns (collected: Collected)
    requires name in node.children
    ensures forall n :: n in collected <==> (n in collected0 || NamedAt(node, name, n))
    ensures forall a, b :: ChildIn(collected, a, b) <==> (ChildIn(collected0, a, b) || NestedAt(node, name, a, b))
    ensures forall n, h :: HostIn(collected, n, h) <==> (HostIn(collected0, n, h) || ListedAt(node, name, n, h))
    ensures forall n, k, v :: VarIs(collected, n, k, v) ==> VarIs(collected0, n, k, v) || VarFromAt(node, name, n, k, v)
    ensures forall n, k, v :: VarFromAt(node, name, n, k, v) ==> HasVar(collected, n, k)
    ensures forall n, k :: HasVar(collected0, n, k) ==> HasVar(collected, n, k)
    ensures forall n, h, hv :: EntryIs(collected, n, h, hv) ==>
      EntryIs(collected0, n, h, hv) || EntryFromAt(node, name, n, h, hv)
    decreases node, 0
  {
    collected := Declare(collected0, name, node.children[name]);
    collected := CollectGroups(node.children[name], collected);
  }

  /** The graph has exactly the declared groups and child edges of the file. */
  ghost predicate Depicts(g: Graph, node: RawGroup) {
    && (forall n :: n in g <==> Named(node, n))
    && (forall a, b :: Edge(g, a, b) <==> Nested(node, a, b))
  }

  /** The graph has exactly the groups and child edges the file declares. */
  ghost predicate FileGraph(g: Graph, raw: map<string, RawGroup>) {
    && (forall n :: n in g <==> FileNames(raw, n))
    && (forall a, b :: Edge(g, a, b) <==> FileNests(raw, a, b))
  }

  lemma DepictsFile(g: Graph, raw: map<string, RawGroup>)
    requires Depicts(g, Wrap(raw))
    ensures FileGraph(g, raw)
  {
    WrapKeeps(raw);
  }

  lemma {:induction false} NestedIsNamed(node: RawGroup, a: string, b: string)
    requires Nested(node, a, b)
    ensures Named(node, b)
  {
    var k :| NestedAt(node, k, a, b);
    if Nested(node.children[k], a, b) {
      NestedIsNamed(node.children[k], a, b);
    } else {
      assert NamedAt(node.children[k], b, b);
    }
    assert NamedAt(node, k, b);
  }

  /** Everything below a declaration of `x` is reachable from `x`. */
  lemma {:induction false} BelowIsReachable(g: Graph, node: RawGroup, x: string, n: string)
    requires Named(node, n)
    requires forall b :: b in node.children ==> Edge(g, x, b)
    requires forall a, b :: Nested(node, a, b) ==> Edge(g, a, b)
    ensures Reaches(g, x, n)
  {
    var k :| NamedAt(node, k, n);
    var rg := node.children[k];
    assert Edge(g, x, k);
    ReachesRefl(g, k);
    if Named(rg, n) && k != n {
      forall a, b | Nested(rg, a, b)
        ensures Edge(g, a, b)
      {
        assert NestedAt(node, k, a, b);
      }
      forall b | b in rg.children
        ensures Edge(g, k, b)
      {
        assert NestedAt(node, k, k, b);
      }
      BelowIsReachable(g, rg, k, n);
    }
    ReachesStep(g, x, k, n);
  }

  /** Whatever the file says, the collected graph defines every child it mentions and hangs
      everything below "all"; only cycles remain to be excluded. */
  lemma CollectedShape(g: Graph, raw: map<string, RawGroup>)
    requires Depicts(g, Wrap(raw))
    ensures Closed(g) && ALL in g && forall n :: n in g ==> Reaches(g, ALL, n)
    ensures Acyclic(g) ==> Rooted(g)
  {
    var node := Wrap(raw);
    forall a, b | a in g && b in g[a]
      ensures b in g
    {
      assert Edge(g, a, b);
      NestedIsNamed(node, a, b);
    }
    assert ALL in node.children;
    var root := node.children[ALL];
    forall b | b in root.children
      ensures Edge(g, ALL, b)
    {
      assert NestedAt(node, ALL, ALL, b);
    }
    forall a, b | Nested(root, a, b)
      ensures Edge(g, a, b)
    {
      assert NestedAt(node, ALL, a, b);
    }
    assert NamedAt(node, ALL, ALL);
    forall n | n in g
      ensures Reaches(g, ALL, n)
    {
      ReachesRefl(g, ALL);
      assert Named(node, n);
      var k :| NamedAt(node, k, n);
      if Named(root, n) {
        BelowIsReachable(g, root, ALL, n);
      }
    }
  }

  /** A host of the file that is listed in no group other than "all" and "ungrouped", nor in
      any group below another one. */
  ghost predicate ImplicitHost(g: Graph, node: RawGroup, h: string) {
    && (exists n :: Listed(node, n, h))
    && (forall n, d :: Listed(node, d, h) && Reaches(g, n, d) ==> n == ALL || n == UNGROUPED)
  }

  // ----- A file for which the two views of membership disagree

  const LEAF := RawGroup(map[], map[], map[])
  const WEB := RawGroup(map[], map[], map[UNGROUPED := LEAF])

  /** The group "web" declares "ungrouped" as its child, and a host is listed under "all" only. */
  const UNGROUPED_UNDER_WEB := map[ALL := RawGroup(map[], map["h1" := map[]], map["web" := WEB])]

  lemma BelowWeb(n: string, a: string, b: string, h: string)
    ensures Named(WEB, n) <==> n == UNGROUPED
    ensures !Nested(WEB, a, b) && !Listed(WEB, n, h)
  {
    assert WEB.children == map[UNGROUPED := LEAF];
    assert !Named(LEAF, n) && !Nested(LEAF, a, b) && !Listed(LEAF, n, h);
    assert NamedAt(WEB, UNGROUPED, n) <==> n == UNGROUPED;
    assert !NestedAt(WEB, UNGROUPED, a, b) && !ListedAt(WEB, UNGROUPED, n, h);
  }

  lemma BelowAll(n: string, a: string, b: string, h: string)
    ensures var all := UNGROUPED_UNDER_WEB[ALL];
      && (Named(all, n) <==> n == "web" || n == UNGROUPED)
      && (Nested(all, a, b) <==> a == "web" && b == UNGROUPED)
      && !Listed(all, n, h)
  {
    var all := UNGROUPED_UNDER_WEB[ALL];
    BelowWeb(n, a, b, h);
    assert NamedAt(all, "web", n) <==> n == "web" || n == UNGROUPED;
    assert NestedAt(all, "web", a, b) <==> a == "web" && b == UNGROUPED;
  }

  lemma BelowRoot(n: string, a: string, b: string, h: string)
    ensures var root := Wrap(UNGROUPED_UNDER_WEB);
      && (Named(root, n) <==> n == ALL || n == "web" || n == UNGROUPED)
      && (Nested(root, a, b) <==> (a == ALL && b == "web") || (a == "web" && b == UNGROUPED))
      && (Listed(root, n, h) <==> n == ALL && h == "h1")
  {
    var all, root := UNGROUPED_UNDER_WEB[ALL], Wrap(UNGROUPED_UNDER_WEB);
    assert (UNGROUPED_UNDER_WEB - {ALL}) + all.children == all.children;
    assert root.children == map[ALL := all];
    BelowAll(n, a, b, h);
    assert NamedAt(root, ALL, n) <==> n == ALL || n == "web" || n == UNGROUPED;
    assert NestedAt(root, ALL, a, b) <==> (a == ALL && b == "web") || (a == "web" && b == UNGROUPED);
    assert ListedAt(root, ALL, n, h) <==> n == ALL && h == "h1";
  }

  /** The file loads, for it has no cycle; but it has a host that is put into "ungrouped", and
      "ungrouped" has a parent other than "all". */
  lemma UngroupedUnderWeb(g: Graph)
    requires Depicts(g, Wrap(UNGROUPED_UNDER_WEB))
    ensures Acyclic(g) && ImplicitHost(g, Wrap(UNGROUPED_UNDER_WEB), "h1") && Edge(g, "web", UNGROUPED)
  {
    var root := Wrap(UNGROUPED_UNDER_WEB);
    forall a, b
      ensures Edge(g, a, b) <==> (a == ALL && b == "web") || (a == "web" && b == UNGROUPED)
    {
      BelowRoot("", a, b, "");
    }
    forall n, h
      ensures Listed(root, n, h) <==> n == ALL && h == "h1"
    {
      BelowRoot(n, "", "", h);
    }
    RankedIsAcyclic(g, (n: string) => if n == ALL then 0 else if n == "web" then 1 else 2);
    assert Listed(root, ALL, "h1");
    forall n
      ensures Reaches(g, n, ALL) ==> n == ALL
    {
      if Reaches(g, n, ALL) && n != ALL {
        var c := ReachesLast(g, n, ALL);
      }
    }
  }
}
