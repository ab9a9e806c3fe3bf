/** The data an inventory holds and the two ways to tell who is in which group. */
module InventoryGroups {
  import opened Values
  import opened GroupGraph
  import opened InventoryShape
  import opened Ordering
  import opened RawInventory

  /** A group as the inventory holds it.  The source keeps a pointer to each group in the map
      `Groups` and nowhere else, so updating a field of a group is updating that map. */
  datatype Group = Group(vars: Vars, hostVars: map<string, Vars>, children: seq<string>, parents: seq<string>)

  datatype HostEntry = HostEntry(groups: seq<string>)

  type Groups = map<string, Group>
  type Hosts = map<string, HostEntry>

  ghost function ChildGraph(groups: Groups): Graph {
    map n | n in groups :: groups[n].children
  }

  /** The same groups with possibly other parent lists. */
  ghost predicate SameDeclarations(a: Groups, b: Groups) {
    && a.Keys == b.Keys
    && forall n :: n in a ==> a[n] == b[n].(parents := a[n].parents)
  }

  /** The parent lists hold the child edges turned round. */
  ghost predicate ParentsMirror(groups: Groups) {
    forall c, p :: c in groups ==> (p in groups[c].parents <==> Edge(ChildGraph(groups), p, c))
  }

  /** The groups that list the host `h` themselves. */
  ghost function Direct(groups: Groups, h: string): set<string> {
    set n | n in groups && h in groups[n].hostVars
  }

  /** Looking down: `h` is listed in `n` or in a descendant of `n`. */
  ghost predicate HasMember(groups: Groups, n: string, h: string) {
    exists d :: d in Direct(groups, h) && Reaches(ChildGraph(groups), n, d)
  }

  /** `names` lists, in order, the groups of a host that is listed directly in `direct`. */
  ghost predicate ListsUpward(g: Graph, direct: set<string>, names: seq<string>) {
    && SortedBy(names, StringLe)
    && forall n :: n in names <==> Belongs(g, direct, n)
  }

  /** The two views of who is in which group agree: the groups recorded for the host, and
      the members found below the group. */
  ghost predicate ViewsAgree(groups: Groups, hosts: Hosts) {
    forall h, n :: h in hosts && n in groups ==> (n in hosts[h].groups <==> HasMember(groups, n, h))
  }

  /** The members of a group are its own hosts and the members of its children. */
  lemma MembersStepwise(groups: Groups, n: string, h: string)
    requires n in groups
    ensures HasMember(groups, n, h) <==>
      h in groups[n].hostVars || exists c :: Edge(ChildGraph(groups), n, c) && HasMember(groups, c, h)
  {
    var g := ChildGraph(groups);
    if d :| d in Direct(groups, h) && Reaches(g, n, d) && d != n {
      var c := ReachesFirst(g, n, d);
      assert HasMember(groups, c, h);
    }
    if h in groups[n].hostVars {
      ReachesRefl(g, n);
      assert n in Direct(groups, h);
    }
    if c :| Edge(g, n, c) && HasMember(groups, c, h) {
      var d :| d in Direct(groups, h) && Reaches(g, c, d);
      ReachesStep(g, n, c, d);
    }
  }

  /** All entries of `a` are in `b`, and what `b` has beside them is empty. */
  ghost predicate KeepsEntries(a: map<string, Vars>, b: map<string, Vars>) {
    && (forall h :: h in a ==> h in b && b[h] == a[h])
    && (forall h :: h in b && h !in a ==> b[h] == map[])
  }

  /** All variables of `a` are in `b`, and nothing else. */
  ghost predicate KeepsVars(a: Groups, b: Groups) {
    && (forall n :: n in a ==> n in b && b[n].vars == a[n].vars && KeepsEntries(a[n].hostVars, b[n].hostVars))
    && (forall n :: n in b && n !in a ==> b[n].vars == map[] && KeepsEntries(map[], b[n].hostVars))
  }

  /** The variables of the groups are those of the file: each value is declared for its group,
      and each declared key is there.  Host entries likewise, beside the empty ones of hosts put
      into "ungrouped". */
  ghost predicate VarsFrom(groups: Groups, node: RawGroup) {
    && (forall n, k :: n in groups && k in groups[n].vars ==> VarFrom(node, n, k, groups[n].vars[k]))
    && (forall n, k, v :: VarFrom(node, n, k, v) ==> n in groups && k in groups[n].vars)
    && (forall n, h :: n in groups && h in groups[n].hostVars ==>
          if Listed(node, n, h) then EntryFrom(node, n, h, groups[n].hostVars[h]) else groups[n].hostVars[h] == map[])
    && (forall n, h :: Listed(node, n, h) ==> n in groups && h in groups[n].hostVars)
  }

  lemma SameDeclarationsKeep(a: Groups, b: Groups, c: Groups)
    requires SameDeclarations(b, a)
    ensures KeepsVars(b, c) ==> KeepsVars(a, c)
    ensures forall h :: Direct(a, h) == Direct(b, h)
  {
  }

  lemma CollectedVars(collected: Collected, groups: Groups, node: RawGroup)
    requires groups.Keys == collected.Keys
    requires forall n :: n in groups ==> groups[n].vars == collected[n].vars && groups[n].hostVars == collected[n].hosts
    requires forall n, k, v :: VarIs(collected, n, k, v) ==> VarFrom(node, n, k, v)
    requires forall n, k, v :: VarFrom(node, n, k, v) ==> HasVar(collected, n, k)
    requires forall n, h, hv :: EntryIs(collected, n, h, hv) ==> EntryFrom(node, n, h, hv)
    requires forall n, h :: HostIn(collected, n, h) <==> Listed(node, n, h)
    ensures VarsFrom(groups, node)
  {
    forall n, k | n in groups && k in groups[n].vars
      ensures VarFrom(node, n, k, groups[n].vars[k])
    {
      assert VarIs(collected, n, k, groups[n].vars[k]);
    }
    forall n, h | n in groups && h in groups[n].hostVars
      ensures Listed(node, n, h) && EntryFrom(node, n, h, groups[n].hostVars[h])
    {
      assert HostIn(collected, n, h) && EntryIs(collected, n, h, groups[n].hostVars[h]);
    }
    forall n, h | Listed(node, n, h)
      ensures n in groups && h in groups[n].hostVars
    {
      assert HostIn(collected, n, h);
    }
  }

  lemma KeptVarsFrom(a: Groups, b: Groups, node: RawGroup)
    requires VarsFrom(a, node) && KeepsVars(a, b)
    ensures VarsFrom(b, node)
  {
    forall n, h | n in b && h in b[n].hostVars
      ensures if Listed(node, n, h) then EntryFrom(node, n, h, b[n].hostVars[h]) else b[n].hostVars[h] == map[]
    {
      if n in a && h in a[n].hostVars {
        assert b[n].hostVars[h] == a[n].hostVars[h];
      } else {
        assert !Listed(node, n, h);
      }
    }
  }

  // ----- Filling the implicit group "ungrouped"

  /** `names` are those in `before`, and "ungrouped" if `added`. */
  ghost predicate NowIn(names: seq<string>, before: seq<string>, added: bool) {
    forall n :: n in names <==> n in before || (added && n == UNGROUPED)
  }

  /** The hosts `names` have been put into "ungrouped", and "ungrouped" below "all". */
  ghost predicate Placed(groups0: Groups, hosts0: Hosts, groups1: Groups, hosts1: Hosts, names: seq<string>) {
    && hosts1.Keys == hosts0.Keys
    && Grown(ChildGraph(groups0), ChildGraph(groups1))
    && (forall h :: Direct(groups1, h) == Direct(groups0, h) + if h in names then {UNGROUPED} else {})
    && (forall h :: h in hosts0 ==> NowIn(hosts1[h].groups, hosts0[h].groups, h in names))
  }

  /** Every host is in some group and its recorded groups are those above its direct ones. */
  ghost predicate Recorded(groups: Groups, hosts: Hosts) {
    forall h :: h in hosts ==>
      Direct(groups, h) != {} && ListsUpward(ChildGraph(groups), Direct(groups, h), hosts[h].groups)
  }

  lemma NoEdgeToUndefined(g: Graph, b: string)
    requires Closed(g) && b !in g
    ensures forall a :: !Edge(g, a, b)
  {
  }

  lemma PlacingGrows(groups0: Groups, groups1: Groups)
    requires Closed(ChildGraph(groups0)) && ALL in groups0 && ParentsMirror(groups0)
    requires groups1.Keys == groups0.Keys + {UNGROUPED}
    requires forall n :: n in groups0 && n != ALL ==> groups1[n].children == groups0[n].children
    requires forall n :: n in groups0 && n != UNGROUPED ==> groups1[n].parents == groups0[n].parents
    requires UNGROUPED !in groups0 ==> groups1[UNGROUPED].children == []
    requires forall x :: x in groups1[ALL].children <==> x in groups0[ALL].children || x == UNGROUPED
    requires forall x :: x in groups1[UNGROUPED].parents <==>
      x == ALL || (UNGROUPED in groups0 && x in groups0[UNGROUPED].parents)
    ensures Grown(ChildGraph(groups0), ChildGraph(groups1)) && ParentsMirror(groups1)
  {
    var g0, g1 := ChildGraph(groups0), ChildGraph(groups1);
    if UNGROUPED !in groups0 {
      NoEdgeToUndefined(g0, UNGROUPED);
    }
    forall a, b
      ensures Edge(g1, a, b) <==> Edge(g0, a, b) || (a == ALL && b == UNGROUPED)
    {
      if a in groups0 && a != ALL {
        assert g1[a] == g0[a];
      }
    }
  }

  lemma PlacingKeepsVars(groups0: Groups, groups1: Groups)
    requires groups1.Keys == groups0.Keys + {UNGROUPED}
    requires forall n :: n in groups0 && n != UNGROUPED ==>
      groups1[n].vars == groups0[n].vars && groups1[n].hostVars == groups0[n].hostVars
    requires var ug := if UNGROUPED in groups0 then groups0[UNGROUPED] else EMPTY_GROUP;
      groups1[UNGROUPED].vars == ug.vars && KeepsEntries(ug.hostVars, groups1[UNGROUPED].hostVars)
    ensures KeepsVars(groups0, groups1)
  {
  }

  const EMPTY_GROUP := Group(map[], map[], [], [])

  /** "ungrouped" has been created if need be, and its host entries have been added to. */
  ghost predicate Filled(a: Groups, b: Groups) {
    var ug := if UNGROUPED in a then a[UNGROUPED] else EMPTY_GROUP;
    && b.Keys == a.Keys + {UNGROUPED}
    && (forall n :: n in a && n != UNGROUPED ==> b[n] == a[n])
    && b[UNGROUPED] == ug.(hostVars := b[UNGROUPED].hostVars)
    && KeepsEntries(ug.hostVars, b[UNGROUPED].hostVars)
  }

  /** "ungrouped" has been made a child of "all". */
  ghost predicate LinkedBelow(a: Groups, b: Groups) {
    && b.Keys == a.Keys && ALL in a && UNGROUPED in a
    && (forall n :: n in b && n != ALL && n != UNGROUPED ==> b[n] == a[n])
    && b[ALL] == a[ALL].(children := b[ALL].children)
    && b[UNGROUPED] == a[UNGROUPED].(parents := b[UNGROUPED].parents)
    && (forall x :: x in b[ALL].children <==> x in a[ALL].children || x == UNGROUPED)
    && (forall x :: x in b[UNGROUPED].parents <==> x in a[UNGROUPED].parents || x == ALL)
  }

  lemma StepsGrow(groups0: Groups, filled: Groups, groups1: Groups)
    requires Closed(ChildGraph(groups0)) && ALL in groups0 && ParentsMirror(groups0)
    requires Filled(groups0, filled) && LinkedBelow(filled, groups1)
    ensures Grown(ChildGraph(groups0), ChildGraph(groups1)) && ParentsMirror(groups1)
  {
    hide Closed, ParentsMirror, Grown;
    PlacingGrows(groups0, groups1);
  }

  lemma StepsKeepVars(groups0: Groups, filled: Groups, groups1: Groups)
    requires Filled(groups0, filled) && LinkedBelow(filled, groups1)
    ensures KeepsVars(groups0, groups1)
  {
    hide KeepsVars, KeepsEntries;
    PlacingKeepsVars(groups0, groups1);
  }

  lemma PlacingDirect(groups0: Groups, groups1: Groups, names: seq<string>)
    requires groups1.Keys == groups0.Keys + {UNGROUPED}
    requires forall n :: n in groups0 && n != UNGROUPED ==> groups1[n].hostVars == groups0[n].hostVars
    requires forall h :: h in groups1[UNGROUPED].hostVars <==>
      h in names || (UNGROUPED in groups0 && h in groups0[UNGROUPED].hostVars)
    ensures forall h :: Direct(groups1, h) == Direct(groups0, h) + if h in names then {UNGROUPED} else {}
  {
  }

  lemma StepsDirect(groups0: Groups, filled: Groups, groups1: Groups, names: seq<string>)
    requires Filled(groups0, filled) && LinkedBelow(filled, groups1)
    requires forall h :: h in filled[UNGROUPED].hostVars <==>
      h in names || (UNGROUPED in groups0 && h in groups0[UNGROUPED].hostVars)
    ensures forall h :: Direct(groups1, h) == Direct(groups0, h) + if h in names then {UNGROUPED} else {}
  {
    hide Direct;
    PlacingDirect(groups0, groups1, names);
  }

  lemma PlacedBy(groups0: Groups, hosts0: Hosts, groups1: Groups, hosts1: Hosts, names: seq<string>)
    requires hosts1.Keys == hosts0.Keys && Grown(ChildGraph(groups0), ChildGraph(groups1))
    requires forall h :: Direct(groups1, h) == Direct(groups0, h) + if h in names then {UNGROUPED} else {}
    requires forall h :: h in hosts0 ==> NowIn(hosts1[h].groups, hosts0[h].groups, h in names)
    ensures Placed(groups0, hosts0, groups1, hosts1, names)
  {
  }

  /** With nobody to put into "ungrouped" the two views agree. */
  lemma UpwardViewsAgree(groups: Groups, hosts: Hosts)
    requires Rooted(ChildGraph(groups)) && Recorded(groups, hosts)
    ensures ViewsAgree(groups, hosts)
  {
    forall h, n | h in hosts && n in groups
      ensures n in hosts[h].groups <==> HasMember(groups, n, h)
    {
      if n == ALL {
        var d :| d in Direct(groups, h);
        assert d in ChildGraph(groups);
      }
    }
  }

  /** If only "all" is declared above "ungrouped", the views agree after filling it. */
  lemma PlacedViewsAgree(groups0: Groups, hosts0: Hosts, groups1: Groups, hosts1: Hosts, names: seq<string>)
    requires Rooted(ChildGraph(groups0)) && Recorded(groups0, hosts0)
    requires Placed(groups0, hosts0, groups1, hosts1, names)
    requires forall h :: h in names <==> h in hosts0 && OnlyImplicit(hosts0[h].groups)
    requires forall p :: Edge(ChildGraph(groups0), p, UNGROUPED) ==> p == ALL
    ensures ViewsAgree(groups1, hosts1)
  {
    var g0, g1 := ChildGraph(groups0), ChildGraph(groups1);
    forall h, n | h in hosts1 && n in groups1
      ensures n in hosts1[h].groups <==> HasMember(groups1, n, h)
    {
      assert NowIn(hosts1[h].groups, hosts0[h].groups, h in names);
      if h in names {
        ImplicitHostAgrees(g0, g1, Direct(groups0, h), hosts0[h].groups, n);
      } else {
        ExplicitHostAgrees(g0, g1, Direct(groups0, h), n);
      }
    }
  }

  /** Any other parent of "ungrouped" gains a member that does not know of it. */
  lemma PlacedViewsDisagree(groups0: Groups, hosts0: Hosts, groups1: Groups, hosts1: Hosts,
                            names: seq<string>, h: string, p: string)
    requires Rooted(ChildGraph(groups0))
    requires Placed(groups0, hosts0, groups1, hosts1, names)
    requires h in names && h in hosts0 && OnlyImplicit(hosts0[h].groups)
    requires Edge(ChildGraph(groups0), p, UNGROUPED) && p != ALL
    ensures p in groups1 && p !in hosts1[h].groups && HasMember(groups1, p, h)
  {
    var g0, g1 := ChildGraph(groups0), ChildGraph(groups1);
    NoWayBack(g0, p, UNGROUPED);
    ReachesRefl(g0, p);
    assert p != UNGROUPED && p in g1;
    assert NowIn(hosts1[h].groups, hosts0[h].groups, h in names);
    assert Edge(g1, p, UNGROUPED);
    ReachesRefl(g1, UNGROUPED);
    ReachesStep(g1, p, UNGROUPED, UNGROUPED);
    assert UNGROUPED in Direct(groups1, h);
  }

  // ----- Against the inventory file

  /** `b` has, beside the groups of `a`, empty groups that are children in `a`. */
  ghost predicate Extended(a: Groups, b: Groups) {
    && (forall n :: n in a ==> n in b && b[n] == a[n])
    && (forall n :: n in b && n !in a ==> b[n] == EMPTY_GROUP && exists p :: Edge(ChildGraph(a), p, n))
  }

  lemma ExtendOne(a: Groups, b: Groups, parent: string, child: string)
    requires Extended(a, b) && parent in a && child in a[parent].children && child !in b
    ensures Extended(a, b[child := EMPTY_GROUP])
  {
    assert Edge(ChildGraph(a), parent, child);
  }

  /** Adding groups that the graph mentions adds none if the graph is closed. */
  lemma NothingUndefined(declared: Groups, groups: Groups)
    requires Closed(ChildGraph(declared)) && Extended(declared, groups)
    ensures groups == declared
  {
    forall n | n in groups
      ensures n in declared
    {
      if n !in declared {
        NoEdgeToUndefined(ChildGraph(declared), n);
      }
    }
  }

  lemma ImplicitHosts(groups: Groups, hosts: Hosts, node: RawGroup)
    requires forall h :: h in hosts ==> ListsUpward(ChildGraph(groups), Direct(groups, h), hosts[h].groups)
    requires forall n, h :: n in Direct(groups, h) <==> Listed(node, n, h)
    requires forall h :: h in hosts <==> exists n :: Listed(node, n, h)
    ensures Recorded(groups, hosts)
    ensures forall h :: (h in hosts && OnlyImplicit(hosts[h].groups)) <==> ImplicitHost(ChildGraph(groups), node, h)
  {
    var g := ChildGraph(groups);
    forall h | h in hosts
      ensures Direct(groups, h) != {}
      ensures OnlyImplicit(hosts[h].groups) <==> ImplicitHost(g, node, h)
    {
      var n :| Listed(node, n, h);
      assert n in Direct(groups, h);
      var names := hosts[h].groups;
      if OnlyImplicit(names) {
        forall n, d | Listed(node, d, h) && Reaches(g, n, d)
          ensures n == ALL || n == UNGROUPED
        {
          assert d in Direct(groups, h);
          assert n in names;
        }
      }
      if ImplicitHost(g, node, h) {
        forall n | n in names
          ensures n == ALL || n == UNGROUPED
        {
          if n != ALL {
            var d :| d in Direct(groups, h) && Reaches(g, n, d);
            assert Listed(node, d, h);
          }
        }
      }
    }
  }

  /** What the file says about the groups of a host: "all", the groups that list it, those above
      them, and "ungrouped" if there is nothing but those two. */
  ghost predicate InGroup(g: Graph, node: RawGroup, n: string, h: string) {
    || n == ALL
    || (exists d :: Listed(node, d, h) && Reaches(g, n, d))
    || (n == UNGROUPED && ImplicitHost(g, node, h))
  }

  /** A loaded inventory against its file, whose graph is `g`: its hosts, its child edges, who
      is listed where, and the groups recorded for each host. */
  ghost predicate LoadedAs(g: Graph, node: RawGroup, groups: Groups, hosts: Hosts) {
    && (forall h :: h in hosts <==> exists n :: Listed(node, n, h))
    && (if exists h :: ImplicitHost(g, node, h) then Grown(g, ChildGraph(groups)) else ChildGraph(groups) == g)
    && (forall n, h :: n in Direct(groups, h) <==> Listed(node, n, h) || (n == UNGROUPED && ImplicitHost(g, node, h)))
    && (forall h, n :: h in hosts ==> (n in hosts[h].groups <==> InGroup(g, node, n, h)))
  }

  /** The hosts, variables and host entries are those of the file, whatever else the passes do:
      only "ungrouped" may hold an entry that the file does not, and that is empty. */
  ghost predicate HoldsFile(raw: map<string, RawGroup>, groups: Groups, hosts: Hosts) {
    && (forall h :: h in hosts <==> exists n :: FileLists(raw, n, h))
    && (forall n, h :: FileLists(raw, n, h) ==> n in groups && h in groups[n].hostVars)
    && (forall n, h :: n in groups && h in groups[n].hostVars ==>
          if FileLists(raw, n, h) then FileEntry(raw, n, h, groups[n].hostVars[h])
          else n == "ungrouped" && groups[n].hostVars[h] == map[])
    && (forall n, k :: n in groups && k in groups[n].vars ==> FileSets(raw, n, k, groups[n].vars[k]))
    && (forall n, k, v :: FileSets(raw, n, k, v) ==> n in groups && k in groups[n].vars)
  }

  lemma LoadedHoldsFile(g: Graph, raw: map<string, RawGroup>, groups: Groups, hosts: Hosts)
    requires LoadedAs(g, Wrap(raw), groups, hosts) && VarsFrom(groups, Wrap(raw))
    ensures HoldsFile(raw, groups, hosts)
  {
    hide Wrap, FileLists, FileEntry, FileSets, Listed, EntryFrom, VarFrom, ImplicitHost;
    WrapKeeps(raw);
    forall n, h | n in groups && h in groups[n].hostVars
      ensures !FileLists(raw, n, h) ==> n == UNGROUPED && groups[n].hostVars[h] == map[]
    {
      assert n in Direct(groups, h);
    }
  }

  /** The implicit hosts have been put into "ungrouped", if there are any. */
  ghost predicate Settles(groups0: Groups, hosts0: Hosts, groups1: Groups, hosts1: Hosts, names: seq<string>) {
    && (forall h :: h in names <==> h in hosts0 && OnlyImplicit(hosts0[h].groups))
    && (if names == [] then groups1 == groups0 && hosts1 == hosts0 else Placed(groups0, hosts0, groups1, hosts1, names))
  }

  lemma RecordedIn(g: Graph, node: RawGroup, groups0: Groups, hosts0: Hosts, h: string, n: string)
    requires g == ChildGraph(groups0) && Recorded(groups0, hosts0) && h in hosts0
    requires forall n :: n in Direct(groups0, h) <==> Listed(node, n, h)
    ensures n in hosts0[h].groups <==> n == ALL || exists d :: Listed(node, d, h) && Reaches(g, n, d)
  {
    hide Direct, Listed, Reaches;
    assert n in hosts0[h].groups <==> Belongs(g, Direct(groups0, h), n);
  }

  lemma SettledGroups(g: Graph, node: RawGroup, groups0: Groups, hosts0: Hosts, groups1: Groups, hosts1: Hosts,
                      names: seq<string>, h: string, n: string)
    requires g == ChildGraph(groups0) && Recorded(groups0, hosts0) && h in hosts1
    requires forall n :: n in Direct(groups0, h) <==> Listed(node, n, h)
    requires h in names <==> ImplicitHost(g, node, h)
    requires Settles(groups0, hosts0, groups1, hosts1, names)
    ensures n in hosts1[h].groups <==> InGroup(g, node, n, h)
  {
    hide ImplicitHost, Grown, Recorded, Direct, Listed, Reaches, OnlyImplicit;
    RecordedIn(g, node, groups0, hosts0, h, n);
    if names != [] {
      assert NowIn(hosts1[h].groups, hosts0[h].groups, h in names);
    }
  }

  lemma SettledAsLoaded(g: Graph, node: RawGroup, groups0: Groups, hosts0: Hosts, groups1: Groups, hosts1: Hosts,
                        names: seq<string>)
    requires g == ChildGraph(groups0) && Recorded(groups0, hosts0)
    requires forall n, h :: n in Direct(groups0, h) <==> Listed(node, n, h)
    requires forall h :: h in hosts0 <==> exists n :: Listed(node, n, h)
    requires forall h :: (h in hosts0 && OnlyImplicit(hosts0[h].groups)) <==> ImplicitHost(g, node, h)
    requires Settles(groups0, hosts0, groups1, hosts1, names)
    ensures LoadedAs(g, node, groups1, hosts1)
  {
    hide ImplicitHost, Grown, Recorded, Direct, Listed, InGroup;
    assert names != [] ==> names[0] in names;
    assert forall h :: h in names <==> ImplicitHost(g, node, h);
    if names == [] {
      assert forall h :: !ImplicitHost(g, node, h);
    } else {
      assert ImplicitHost(g, node, names[0]);
    }
    forall n, h
      ensures n in Direct(groups1, h) <==> Listed(node, n, h) || (n == UNGROUPED && ImplicitHost(g, node, h))
    {
      assert n in Direct(groups0, h) <==> Listed(node, n, h);
    }
    forall h, n | h in hosts1
      ensures n in hosts1[h].groups <==> InGroup(g, node, n, h)
    {
      SettledGroups(g, node, groups0, hosts0, groups1, hosts1, names, h, n);
    }
  }

  lemma NobodyImplicit(hosts: Hosts, g: Graph, node: RawGroup)
    requires forall h :: (h in hosts && OnlyImplicit(hosts[h].groups)) <==> ImplicitHost(g, node, h)
    ensures (forall h :: h in hosts ==> !OnlyImplicit(hosts[h].groups)) <==> forall h :: !ImplicitHost(g, node, h)
  {
    hide ImplicitHost, OnlyImplicit;
    if h :| ImplicitHost(g, node, h) {
      assert h in hosts && OnlyImplicit(hosts[h].groups);
    }
  }
}
