/** The inventory: groups with hosts, variables and child groups, as loaded from YAML. */
module Inventory {
  import opened Values
  import opened GroupGraph
  import opened InventoryShape
  import opened Ordering
  import opened GroupDepths
  import opened InventoryGroups
  import opened VarPrecedence
  import opened RawInventory

  function AppendUnique(slice: seq<string>, val: string): (r: seq<string>)
    ensures forall x :: x in r <==> x in slice || x == val
  {
    if val in slice then slice else slice + [val]
  }

  class Inventory {
    var groups: Groups
    var hosts: Hosts

    constructor ()
      ensures groups == map[] && hosts == map[]
    {
      groups, hosts := map[], map[];
    }

    // ----- Cycle detection

    method Visit(name: string, path: seq<string>, visited0: set<string>, inStack0: set<string>)
      returns (err: Option<LoadError>, visited: set<string>, inStack: set<string>)
      requires IsPath(ChildGraph(groups), path + [name])
      requires path == [] ==> name in groups
      requires forall x :: x in inStack0 <==> x in path
      requires inStack0 <= visited0
      requires Finished(ChildGraph(groups), visited0 - inStack0)
      ensures err.Some? ==> TrueReport(ChildGraph(groups), err.value)
      ensures err.None? ==> visited0 <= visited && inStack == inStack0
      ensures err.None? ==> name in visited - inStack && Finished(ChildGraph(groups), visited - inStack)
      decreases groups.Keys - visited0
    {
      visited, inStack := visited0, inStack0;
      ghost var g := ChildGraph(groups);
      if name in inStack {
        var loop := path + [name];
        err := Some(Cycle(loop));
        ghost var i :| 0 <= i < |path| && path[i] == name;
        RepeatIsCycle(g, loop, i, |path|);
        assert loop[i..] == loop[i..|path| + 1];
        return;
      }
      if name in visited {
        return None, visited, inStack;
      }
      visited, inStack := visited + {name}, inStack + {name};
      var extended := path + [name];
      if name !in groups {
        err := Some(Undefined(name));
        assert Edge(g, extended[|path| - 1], extended[|path|]);
        return;
      }
      assert visited - inStack == visited0 - inStack0;
      var children := groups[name].children;
      for i := 0 to |children|
        invariant visited0 + {name} <= visited && inStack == inStack0 + {name} && inStack <= visited
        invariant Finished(g, visited - inStack)
        invariant forall k :: 0 <= k < i ==> children[k] in visited - inStack
      {
        assert IsPath(g, extended + [children[i]]) by {
          assert Edge(g, name, children[i]);
          ConcatPaths(g, extended, [children[i]]);
        }
        err, visited, inStack := Visit(children[i], extended, visited, inStack);
        if err.Some? {
          return;
        }
      }
      inStack := inStack - {name};
      assert inStack == inStack0;
      FinishOne(g, visited - (inStack0 + {name}), name);
      assert visited - inStack == (visited - (inStack0 + {name})) + {name};
      err := None;
    }

    method DetectCycles() returns (err: Option<LoadError>)
      ensures err.None? <==> Acyclic(ChildGraph(groups)) && Closed(ChildGraph(groups))
      ensures err.Some? ==> TrueReport(ChildGraph(groups), err.value)
    {
      ghost var g := ChildGraph(groups);
      var visited: set<string>, inStack: set<string> := {}, {};
      var todo := groups.Keys;
      while todo != {}
        invariant todo <= groups.Keys
        invariant inStack == {} && Finished(g, visited)
        invariant groups.Keys - todo <= visited
        decreases todo
      {
        var name :| name in todo;
        todo := todo - {name};
        if name !in visited {
          assert [] + [name] == [name];
          assert visited - inStack == visited;
          err, visited, inStack := Visit(name, [], visited, inStack);
          if err.Some? {
            TrueReportRefutes(g, err.value);
            return;
          }
          assert visited - inStack == visited;
        }
      }
      AllFinished(g, visited);
      err := None;
    }

    // ----- Parents

    method SortParents()
      modifies this`groups
      ensures SameDeclarations(groups, old(groups)) && ChildGraph(groups) == old(ChildGraph(groups))
      ensures forall c, p :: c in groups ==> (p in groups[c].parents <==> p in old(groups)[c].parents)
      ensures forall n :: n in groups ==> SortedBy(groups[n].parents, StringLe)
    {
      var todo := groups.Keys;
      while todo != {}
        invariant todo <= groups.Keys && SameDeclarations(groups, old(groups))
        invariant forall c, p :: c in groups ==> (p in groups[c].parents <==> p in old(groups)[c].parents)
        invariant forall n :: n in groups.Keys - todo ==> SortedBy(groups[n].parents, StringLe)
        decreases todo
      {
        var name :| name in todo;
        todo := todo - {name};
        StringOrder();
        SortSorted(groups[name].parents, StringLe);
        groups := groups[name := groups[name].(parents := SortStrings(groups[name].parents))];
      }
    }

    method RecordParent(name: string)
      requires name in groups
      modifies this`groups
      ensures SameDeclarations(groups, old(groups))
      ensures forall c, p :: c in groups ==>
        (p in groups[c].parents <==> p in old(groups)[c].parents || (p == name && c in old(groups)[name].children))
    {
      var children := groups[name].children;
      for i := 0 to |children|
        invariant SameDeclarations(groups, old(groups))
        invariant forall c, p :: c in groups ==>
          (p in groups[c].parents <==> p in old(groups)[c].parents || (p == name && c in children[..i]))
      {
        var child := children[i];
        if child in groups {
          groups := groups[child := groups[child].(parents := groups[child].parents + [name])];
        }
        assert children[..i + 1] == children[..i] + [child];
      }
      assert children[..|children|] == children;
    }

    method ComputeParents()
      requires forall n :: n in groups ==> groups[n].parents == []
      modifies this`groups
      ensures SameDeclarations(groups, old(groups)) && ChildGraph(groups) == old(ChildGraph(groups))
      ensures ParentsMirror(groups)
      ensures forall n :: n in groups ==> SortedBy(groups[n].parents, StringLe)
    {
      ghost var g := ChildGraph(groups);
      var todo := groups.Keys;
      while todo != {}
        invariant todo <= groups.Keys && SameDeclarations(groups, old(groups))
        invariant forall c, p :: c in groups ==> (p in groups[c].parents <==> p !in todo && Edge(g, p, c))
        decreases todo
      {
        var name :| name in todo;
        todo := todo - {name};
        RecordParent(name);
      }
      SortParents();
    }

    // ----- Groups of a host

    method AddParentGroups(name: string, collected0: set<string>) returns (collected: set<string>)
      requires ParentsMirror(groups)
      ensures collected0 <= collected
      ensures forall n :: name in groups && Edge(ChildGraph(groups), n, name) ==> n in collected
      ensures forall c, n :: c in collected - collected0 && Edge(ChildGraph(groups), n, c) ==> n in collected
      ensures forall c :: c in collected - collected0 ==> c in groups && Reaches(ChildGraph(groups), c, name)
      decreases groups.Keys - collected0
    {
      collected := collected0;
      ghost var g := ChildGraph(groups);
      if name !in groups {
        return;
      }
      var parents := groups[name].parents;
      for i := 0 to |parents|
        invariant collected0 <= collected
        invariant forall k :: 0 <= k < i ==> parents[k] in collected
        invariant forall c, n :: c in collected - collected0 && Edge(g, n, c) ==> n in collected
        invariant forall c :: c in collected - collected0 ==> c in groups && Reaches(g, c, name)
      {
        var parent := parents[i];
        if parent !in collected {
          assert Edge(g, parent, name);
          ReachesRefl(g, name);
          ReachesStep(g, parent, name, name);
          ghost var before := collected;
          collected := AddParentGroups(parent, collected + {parent});
          forall c | c in collected - (before + {parent})
            ensures Reaches(g, c, name)
          {
            ReachesTrans(g, c, parent, name);
          }
        }
      }
    }

    static predicate Records(groupHosts: map<string, set<string>>, h: string, n: string) {
      h in groupHosts && n in groupHosts[h]
    }

    method IndexHosts() returns (groupHosts: map<string, set<string>>)
      ensures forall h, n :: Records(groupHosts, h, n) <==> n in Direct(groups, h)
    {
      groupHosts := map[];
      var todo := groups.Keys;
      while todo != {}
        invariant todo <= groups.Keys
        invariant forall h, n ::
          Records(groupHosts, h, n) <==> n in groups.Keys - todo && h in groups[n].hostVars
        decreases todo
      {
        var name :| name in todo;
        todo := todo - {name};
        var hostnames := groups[name].hostVars.Keys;
        ghost var before := groupHosts;
        while hostnames != {}
          invariant hostnames <= groups[name].hostVars.Keys
          invariant forall h, n ::
            Records(groupHosts, h, n) <==>
              Records(before, h, n) || (n == name && h in groups[name].hostVars.Keys - hostnames)
          decreases hostnames
        {
          var hostname :| hostname in hostnames;
          hostnames := hostnames - {hostname};
          var known := if hostname in groupHosts then groupHosts[hostname] else {};
          groupHosts := groupHosts[hostname := known + {name}];
        }
      }
    }

    method CloseUpward(direct: set<string>) returns (allGroups: set<string>)
      requires ParentsMirror(groups) && Rooted(ChildGraph(groups)) && direct <= groups.Keys
      ensures forall n :: n in allGroups <==> Belongs(ChildGraph(groups), direct, n)
    {
      ghost var g := ChildGraph(groups);
      allGroups := {ALL} + direct;
      forall n | n in allGroups
        ensures Belongs(g, direct, n)
      {
        ReachesRefl(g, n);
      }
      var todo := direct;
      while todo != {}
        invariant todo <= direct && {ALL} + direct <= allGroups
        invariant forall n :: n in allGroups ==> Belongs(g, direct, n)
        invariant forall c, n :: c in allGroups && c != ALL && c !in todo && Edge(g, n, c) ==> n in allGroups
        decreases todo
      {
        var name :| name in todo;
        todo := todo - {name};
        allGroups := AddParentGroups(name, allGroups);
      }
      forall n | Belongs(g, direct, n)
        ensures n in allGroups
      {
        if n != ALL {
          var d :| d in direct && Reaches(g, n, d);
          var p :| PathBetween(g, n, d, p);
          UpwardClosed(g, allGroups, p);
        }
      }
    }

    method ComputeHostGroups()
      requires ParentsMirror(groups) && Rooted(ChildGraph(groups))
      modifies this`hosts
      ensures hosts.Keys == old(hosts.Keys)
      ensures forall h :: h in hosts ==> ListsUpward(ChildGraph(groups), Direct(groups, h), hosts[h].groups)
    {
      ghost var g := ChildGraph(groups);
      var groupHosts := IndexHosts();
      var todo := hosts.Keys;
      while todo != {}
        invariant todo <= hosts.Keys == old(hosts.Keys)
        invariant forall h :: h in hosts.Keys - todo ==> ListsUpward(g, Direct(groups, h), hosts[h].groups)
        decreases todo
      {
        var hostname :| hostname in todo;
        todo := todo - {hostname};
        var directGroups := if hostname in groupHosts then groupHosts[hostname] else {};
        forall n
          ensures n in directGroups <==> n in Direct(groups, hostname)
        {
          assert Records(groupHosts, hostname, n) <==> n in Direct(groups, hostname);
        }
        assert directGroups == Direct(groups, hostname);
        var allGroups := CloseUpward(directGroups);
        var names := SortedNames(allGroups);
        hosts := hosts[hostname := HostEntry(names)];
      }
    }

    // ----- The implicit group

    method FindUngrouped() returns (found: seq<string>)
      ensures forall h :: h in found <==> h in hosts && OnlyImplicit(hosts[h].groups)
    {
      found := [];
      var todo := hosts.Keys;
      while todo != {}
        invariant todo <= hosts.Keys
        invariant forall h :: h in found <==> h in hosts.Keys - todo && OnlyImplicit(hosts[h].groups)
        decreases todo
      {
        var hostname :| hostname in todo;
        todo := todo - {hostname};
        var names := hosts[hostname].groups;
        var hasNonImplicitGroup := false;
        for i := 0 to |names|
          invariant !hasNonImplicitGroup
          invariant forall k :: 0 <= k < i ==> names[k] == ALL || names[k] == UNGROUPED
        {
          if names[i] != ALL && names[i] != UNGROUPED {
            hasNonImplicitGroup := true;
            assert names[i] in names && !OnlyImplicit(names);
            break;
          }
        }
        assert hasNonImplicitGroup <==> !OnlyImplicit(names);
        if !hasNonImplicitGroup {
          found := found + [hostname];
        }
      }
    }

    method PlaceOne(hostname: string)
      requires UNGROUPED in groups && hostname in hosts
      modifies this`groups, this`hosts
      ensures var entries := old(groups)[UNGROUPED].hostVars;
        groups == old(groups)[UNGROUPED := old(groups)[UNGROUPED].(hostVars :=
          if hostname in entries then entries else entries[hostname := map[]])]
      ensures hostname in hosts && hosts == old(hosts)[hostname := hosts[hostname]]
      ensures NowIn(hosts[hostname].groups, old(hosts)[hostname].groups, true)
    {
      var ug := groups[UNGROUPED];
      if hostname !in ug.hostVars {
        groups := groups[UNGROUPED := ug.(hostVars := ug.hostVars[hostname := map[]])];
      }
      hosts := hosts[hostname := HostEntry(SortStrings(AppendUnique(hosts[hostname].groups, UNGROUPED)))];
    }

    method FillUngrouped(ungroupedHosts: seq<string>)
      requires UNGROUPED in groups && forall h :: h in ungroupedHosts ==> h in hosts
      modifies this`groups, this`hosts
      ensures UNGROUPED in groups && hosts.Keys == old(hosts.Keys)
      ensures groups == old(groups)[UNGROUPED := old(groups)[UNGROUPED].(hostVars := groups[UNGROUPED].hostVars)]
      ensures forall h :: h in groups[UNGROUPED].hostVars <==>
        h in old(groups)[UNGROUPED].hostVars || h in ungroupedHosts
      ensures forall h :: h in hosts ==> NowIn(hosts[h].groups, old(hosts)[h].groups, h in ungroupedHosts)
      ensures KeepsEntries(old(groups)[UNGROUPED].hostVars, groups[UNGROUPED].hostVars)
    {
      for i := 0 to |ungroupedHosts|
        invariant UNGROUPED in groups && hosts.Keys == old(hosts.Keys)
        invariant groups == old(groups)[UNGROUPED := old(groups)[UNGROUPED].(hostVars := groups[UNGROUPED].hostVars)]
        invariant KeepsEntries(old(groups)[UNGROUPED].hostVars, groups[UNGROUPED].hostVars)
        invariant forall h :: h in groups[UNGROUPED].hostVars <==>
          h in old(groups)[UNGROUPED].hostVars || h in ungroupedHosts[..i]
        invariant forall h :: h in hosts ==> NowIn(hosts[h].groups, old(hosts)[h].groups, h in ungroupedHosts[..i])
      {
        assert ungroupedHosts[..i + 1] == ungroupedHosts[..i] + [ungroupedHosts[i]];
        PlaceOne(ungroupedHosts[i]);
      }
      assert ungroupedHosts[..|ungroupedHosts|] == ungroupedHosts;
    }

    method LinkUngrouped()
      requires UNGROUPED in groups && ALL in groups
      modifies this`groups
      ensures LinkedBelow(old(groups), groups)
    {
      if ALL in groups {
        var children := SortStrings(AppendUnique(groups[ALL].children, UNGROUPED));
        groups := groups[ALL := groups[ALL].(children := children)];
      }
      var parents := SortStrings(AppendUnique(groups[UNGROUPED].parents, ALL));
      groups := groups[UNGROUPED := groups[UNGROUPED].(parents := parents)];
    }

    /** Creates "ungrouped" if need be, puts the hosts into it and hangs it below "all". */
    method PlaceUngrouped(ungroupedHosts: seq<string>)
      requires ParentsMirror(groups) && Closed(ChildGraph(groups)) && ALL in groups
      requires forall h :: h in ungroupedHosts ==> h in hosts
      modifies this`groups, this`hosts
      ensures ParentsMirror(groups) && Placed(old(groups), old(hosts), groups, hosts, ungroupedHosts)
      ensures KeepsVars(old(groups), groups)
    {
      hide KeepsVars, KeepsEntries, Placed, NowIn, Grown, ParentsMirror, Closed, Direct, LinkedBelow;
      ghost var groups0, hosts0 := groups, hosts;
      if UNGROUPED !in groups {
        groups := groups[UNGROUPED := EMPTY_GROUP];
      }
      FillUngrouped(ungroupedHosts);
      ghost var filled := groups;
      assert Filled(groups0, filled);
      LinkUngrouped();
      StepsKeepVars(groups0, filled, groups);
      StepsGrow(groups0, filled, groups);
      StepsDirect(groups0, filled, groups, ungroupedHosts);
      PlacedBy(groups0, hosts0, groups, hosts, ungroupedHosts);
    }

    method ComputeUngrouped() returns (ghost placed: seq<string>)
      requires ParentsMirror(groups) && Rooted(ChildGraph(groups))
      requires Recorded(groups, hosts)
      modifies this`groups, this`hosts
      ensures ParentsMirror(groups) && Rooted(ChildGraph(groups)) && KeepsVars(old(groups), groups)
      ensures hosts.Keys == old(hosts.Keys) && Settles(old(groups), old(hosts), groups, hosts, placed)
      ensures ViewsAgree(groups, hosts) <==>
        || (forall h :: h in hosts ==> !OnlyImplicit(old(hosts)[h].groups))
        || (forall p :: Edge(old(ChildGraph(groups)), p, UNGROUPED) ==> p == ALL)
    {
      ghost var groups0, hosts0 := groups, hosts;
      var ungroupedHosts := FindUngrouped();
      placed := ungroupedHosts;
      if |ungroupedHosts| == 0 {
        UpwardViewsAgree(groups, hosts);
        return;
      }
      assert ungroupedHosts[0] in ungroupedHosts;
      PlaceUngrouped(ungroupedHosts);
      GrownRooted(ChildGraph(groups0), ChildGraph(groups));
      if p :| Edge(ChildGraph(groups0), p, UNGROUPED) && p != ALL {
        PlacedViewsDisagree(groups0, hosts0, groups, hosts, ungroupedHosts, ungroupedHosts[0], p);
      } else {
        PlacedViewsAgree(groups0, hosts0, groups, hosts, ungroupedHosts);
      }
    }

    // ----- Members

    method CollectHosts(groupName: string) returns (found: seq<string>)
      requires Acyclic(ChildGraph(groups))
      ensures forall h :: h in found <==> HasMember(groups, groupName, h)
      decreases Descendants(ChildGraph(groups), groupName)
    {
      ghost var g := ChildGraph(groups);
      if groupName !in groups {
        forall h
          ensures !HasMember(groups, groupName, h)
        {
          if d :| d in Direct(groups, h) && Reaches(g, groupName, d) {
            var c := ReachesFirst(g, groupName, d);
          }
        }
        return [];
      }
      found := SetToSeq(groups[groupName].hostVars.Keys);
      var children := groups[groupName].children;
      for i := 0 to |children|
        invariant forall h :: h in found <==>
          h in groups[groupName].hostVars || exists k :: 0 <= k < i && HasMember(groups, children[k], h)
      {
        assert Edge(g, groupName, children[i]);
        DescendantsShrink(g, groupName, children[i]);
        var below := CollectHosts(children[i]);
        found := found + below;
      }
      forall h
        ensures h in found <==> HasMember(groups, groupName, h)
      {
        MembersStepwise(groups, groupName, h);
      }
    }

    method GroupMembers() returns (result: map<string, seq<string>>)
      requires Acyclic(ChildGraph(groups))
      ensures result.Keys == groups.Keys
      ensures forall n :: n in result ==> SortedBy(result[n], StringLe)
      ensures forall n, h :: n in result ==> (h in result[n] <==> HasMember(groups, n, h))
      ensures forall n, i, j :: n in result && 0 <= i < j < |result[n]| ==> result[n][i] != result[n][j]
    {
      result := map[];
      var todo := groups.Keys;
      while todo != {}
        invariant todo <= groups.Keys && result.Keys == groups.Keys - todo
        invariant forall n :: n in result ==> Lists(result[n], set h | h in result[n])
        invariant forall n, h :: n in result ==> (h in result[n] <==> HasMember(groups, n, h))
        decreases todo
      {
        var name :| name in todo;
        todo := todo - {name};
        var members := CollectHosts(name);
        var deduped := SortedNames(set h | h in members);
        result := result[name := deduped];
      }
    }

    // ----- Depths

    method Relax(cur: (string, nat), depths0: Depths, queue0: seq<(string, nat)>)
      returns (depths: Depths, queue: seq<(string, nat)>)
      requires Acyclic(ChildGraph(groups)) && cur.0 in groups && ALL in depths0
      requires Witnessed(ChildGraph(groups), cur.0, cur.1) && cur.0 in depths0 && cur.1 <= depths0[cur.0]
      requires QueueSound(ChildGraph(groups), depths0, queue0)
      requires CoversBut(ChildGraph(groups), depths0, queue0, cur)
      ensures ALL in depths
      ensures QueueSound(ChildGraph(groups), depths, queue) && QueueCovers(ChildGraph(groups), depths, queue)
      ensures (depths, queue) == (depths0, queue0)
        || Room(ChildGraph(groups), depths) < Room(ChildGraph(groups), depths0)
    {
      hide Acyclic, Witnessed, QueueSound, CoversBut, QueueCovers, Room;
      depths, queue := depths0, queue0;
      ghost var g := ChildGraph(groups);
      var children := groups[cur.0].children;
      for i := 0 to |children|
        invariant depths0.Keys <= depths.Keys && forall n :: n in depths0 ==> depths0[n] <= depths[n]
        invariant QueueSound(g, depths, queue) && CoversBut(g, depths, queue, cur)
        invariant forall k :: 0 <= k < i ==> children[k] in depths && cur.1 < depths[children[k]]
        invariant (depths, queue) == (depths0, queue0) || Room(g, depths) < Room(g, depths0)
      {
        var child := children[i];
        var newDepth := cur.1 + 1;
        assert Edge(g, cur.0, child);
        if child !in depths || newDepth > depths[child] {
          RaiseChild(g, depths, queue, cur, child);
          depths := depths[child := newDepth];
          queue := queue + [(child, newDepth)];
        }
      }
      DropProcessed(g, depths, queue, cur);
    }

    method ComputeGroupDepths() returns (depths: Depths)
      requires Acyclic(ChildGraph(groups))
      ensures ALL !in groups ==> depths == map[]
      ensures ALL in groups ==> LongestPaths(ChildGraph(groups), depths)
    {
      if ALL !in groups {
        return map[];
      }
      hide Acyclic, Witnessed, QueueSound, QueueCovers, CoversBut, LongestPaths, Room;
      ghost var g := ChildGraph(groups);
      var queue: seq<(string, nat)> := [(ALL, 0)];
      depths := map[ALL := 0];
      StartQueue(g);
      while |queue| > 0
        invariant ALL in depths && QueueSound(g, depths, queue) && QueueCovers(g, depths, queue)
        decreases Room(g, depths), |queue|
      {
        TakeFirst(g, depths, queue);
        var cur := queue[0];
        queue := queue[1..];
        if cur.0 in groups {
          depths, queue := Relax(cur, depths, queue);
        } else {
          DropProcessed(g, depths, queue, cur);
        }
      }
      EmptyQueueIsLongest(g, depths);
    }

    // ----- Variables of a host

    /** Lays the variable maps of the groups over `base`, in the given order. */
    static method LayDown(base: Vars, layer: Layer, ranked: seq<Ranked>) returns (merged: Vars)
      ensures merged == base + Overlay(LayerList(layer, ranked))
    {
      hide Overlay;
      merged := base;
      var layers := LayerList(layer, ranked);
      OverlayNothing(base);
      for i := 0 to |ranked|
        invariant merged == base + Overlay(layers[..i])
      {
        if ranked[i].name in layer {
          merged := merged + layer[ranked[i].name];
        } else {
          assert merged + map[] == merged;
        }
        OverlayOneMore(base, layers, i);
      }
      assert layers[..|ranked|] == layers;
    }

    method EffectiveVarsForHost(hostname: string) returns (merged: Vars, ghost depths: Depths)
      requires Acyclic(ChildGraph(groups))
      ensures ALL in groups ==> LongestPaths(ChildGraph(groups), depths)
      ensures hostname !in hosts ==> merged == map[]
      ensures hostname in hosts ==> HostBeforeGroup(groups, depths, hosts[hostname].groups, hostname, merged)
    {
      var labels := ComputeGroupDepths();
      depths := labels;
      if hostname !in hosts {
        return map[], depths;
      }
      var names := hosts[hostname].groups;
      var hostGroups := Sort(RankAll(labels, names), RankLe);
      RankOrderOf(labels, names);
      merged := LayDown(map[], GroupLayer(groups), hostGroups);
      ghost var byGroup := merged;
      merged := LayDown(merged, HostLayer(groups, hostname), hostGroups);
      OverlayDecides(GroupLayer(groups), labels, names, hostGroups);
      OverlayDecides(HostLayer(groups, hostname), labels, names, hostGroups);
      OverDecides(groups, labels, names, hostname, byGroup,
                  Overlay(LayerList(HostLayer(groups, hostname), hostGroups)));
    }

    // ----- Loading

    method NoteHosts(names: set<string>)
      modifies this`hosts
      ensures hosts.Keys == old(hosts).Keys + names
    {
      var hostnames := names;
      while hostnames != {}
        invariant hostnames <= names
        invariant hosts.Keys == old(hosts).Keys + (names - hostnames)
        decreases hostnames
      {
        var hostname :| hostname in hostnames;
        hostnames := hostnames - {hostname};
        if hostname !in hosts {
          hosts := hosts[hostname := HostEntry([])];
        }
      }
    }

    method InstallOne(name: string, declaration: Declaration)
      modifies this
      ensures name in groups && groups == old(groups)[name := groups[name]]
      ensures groups[name].vars == declaration.vars && groups[name].hostVars == declaration.hosts
      ensures groups[name].parents == [] && forall b :: b in groups[name].children <==> b in declaration.children
      ensures hosts.Keys == old(hosts).Keys + declaration.hosts.Keys
    {
      var children := SortedNames(declaration.children);
      groups := groups[name := Group(declaration.vars, declaration.hosts, children, [])];
      NoteHosts(declaration.hosts.Keys);
    }

    /** Turns the collected declarations into groups, and notes every host that is listed. */
    method Install(collected: Collected)
      requires groups == map[] && hosts == map[]
      modifies this
      ensures groups.Keys == collected.Keys
      ensures forall n :: n in groups ==> groups[n].parents == [] && groups[n].vars == collected[n].vars
      ensures forall n :: n in groups ==> groups[n].hostVars == collected[n].hosts
      ensures forall a, b :: Edge(ChildGraph(groups), a, b) <==> ChildIn(collected, a, b)
      ensures forall h :: h in hosts <==> exists n :: HostIn(collected, n, h)
    {
      var todo := collected.Keys;
      while todo != {}
        invariant todo <= collected.Keys && groups.Keys == collected.Keys - todo
        invariant forall n :: n in groups ==> groups[n].parents == [] && groups[n].vars == collected[n].vars
        invariant forall n :: n in groups ==> groups[n].hostVars == collected[n].hosts
        invariant forall n, b :: n in groups ==> (b in groups[n].children <==> b in collected[n].children)
        invariant forall h :: h in hosts <==> exists n :: n !in todo && HostIn(collected, n, h)
        decreases todo
      {
        var name :| name in todo;
        todo := todo - {name};
        InstallOne(name, collected[name]);
        assert forall h :: HostIn(collected, name, h) <==> h in collected[name].hosts;
      }
    }

    method DefineAll(ghost declared: Groups, name: string)
      requires Extended(declared, groups) && name in declared
      modifies this`groups
      ensures Extended(declared, groups) && old(groups).Keys <= groups.Keys
      ensures forall b :: b in declared[name].children ==> b in groups
    {
      var children := groups[name].children;
      assert children == declared[name].children;
      hide Extended;
      for i := 0 to |children|
        invariant Extended(declared, groups) && old(groups).Keys <= groups.Keys
        invariant forall k :: 0 <= k < i ==> children[k] in groups
      {
        if children[i] !in groups {
          ExtendOne(declared, groups, name, children[i]);
          groups := groups[children[i] := EMPTY_GROUP];
        }
      }
    }

    /** Gives every child that is mentioned but not declared an empty group of its own. */
    method DefineChildren()
      modifies this`groups
      ensures Closed(ChildGraph(groups))
      ensures Extended(old(groups), groups)
    {
      var declared := groups;
      var todo := groups.Keys;
      while todo != {}
        invariant todo <= declared.Keys
        invariant Extended(declared, groups)
        invariant forall a, b :: a in declared.Keys - todo && b in declared[a].children ==> b in groups
        decreases todo
      {
        var name :| name in todo;
        todo := todo - {name};
        DefineAll(declared, name);
      }
    }

    /** Fills the inventory with what the file declares. */
    method ReadDeclarations(raw: map<string, RawGroup>)
      requires groups == map[] && hosts == map[]
      modifies this
      ensures Depicts(ChildGraph(groups), Wrap(raw))
      ensures forall n :: n in groups ==> groups[n].parents == []
      ensures forall n, h :: n in Direct(groups, h) <==> Listed(Wrap(raw), n, h)
      ensures forall h :: h in hosts <==> exists n :: Listed(Wrap(raw), n, h)
      ensures VarsFrom(groups, Wrap(raw))
    {
      var collected := CollectGroups(Wrap(raw), map[]);
      Install(collected);
      forall h, n
        ensures HostIn(collected, n, h) <==> Listed(Wrap(raw), n, h)
        ensures HostIn(collected, n, h) <==> n in Direct(groups, h)
      {
      }
      CollectedVars(collected, groups, Wrap(raw));
      ghost var declared := groups;
      CollectedShape(ChildGraph(groups), raw);
      DefineChildren();
      NothingUndefined(declared, groups);
    }

    /** The passes that follow once the graph is known to be sound. */
    method FindMembership(ghost node: RawGroup)
      requires Rooted(ChildGraph(groups)) && forall n :: n in groups ==> groups[n].parents == []
      requires forall n, h :: n in Direct(groups, h) <==> Listed(node, n, h)
      requires forall h :: h in hosts <==> exists n :: Listed(node, n, h)
      modifies this
      ensures ParentsMirror(groups) && Rooted(ChildGraph(groups)) && KeepsVars(old(groups), groups)
      ensures LoadedAs(old(ChildGraph(groups)), node, groups, hosts)
      ensures ViewsAgree(groups, hosts) <==>
        || (forall h :: !ImplicitHost(old(ChildGraph(groups)), node, h))
        || (forall p :: Edge(old(ChildGraph(groups)), p, UNGROUPED) ==> p == ALL)
    {
      hide Rooted, ParentsMirror, ListsUpward, ImplicitHost, ViewsAgree, KeepsVars, SameDeclarations, Direct, Recorded,
        LoadedAs, Settles, OnlyImplicit;
      ghost var g := ChildGraph(groups);
      ComputeParents();
      ghost var groups0 := groups;
      SameDeclarationsKeep(old(groups), groups0, groups0);
      ComputeHostGroups();
      ImplicitHosts(groups, hosts, node);
      ghost var hosts0 := hosts;
      NobodyImplicit(hosts0, g, node);
      ghost var placed := ComputeUngrouped();
      SameDeclarationsKeep(old(groups), groups0, groups);
      SettledAsLoaded(g, node, groups0, hosts0, groups, hosts, placed);
    }

    /** Loads an inventory file.  `g` is the group graph the file declares. */
    static method Load(raw: map<string, RawGroup>) returns (r: Result<Inventory, LoadError>, ghost g: Graph)
      ensures raw == map[] ==> r == Err(EmptyFile)
      ensures raw != map[] ==> Depicts(g, Wrap(raw)) && (r.Ok? <==> Acyclic(g))
      ensures raw != map[] ==> FileGraph(g, raw)
      ensures raw != map[] && r.Err? ==> TrueReport(g, r.error)
      ensures r.Ok? ==> HoldsFile(raw, r.value.groups, r.value.hosts)
      ensures r.Ok? ==> fresh(r.value) && ParentsMirror(r.value.groups) && Rooted(ChildGraph(r.value.groups))
      ensures r.Ok? ==> LoadedAs(g, Wrap(raw), r.value.groups, r.value.hosts) && VarsFrom(r.value.groups, Wrap(raw))
      ensures r.Ok? ==>
        (ViewsAgree(r.value.groups, r.value.hosts) <==>
          || (forall h :: !ImplicitHost(g, Wrap(raw), h))
          || (forall p :: Edge(g, p, UNGROUPED) ==> p == ALL))
    {
      g := map[];
      if |raw| == 0 {
        return Err(EmptyFile), g;
      }
      var inv := new Inventory();
      inv.ReadDeclarations(raw);
      g := ChildGraph(inv.groups);
      CollectedShape(g, raw);
      DepictsFile(g, raw);
      var err := inv.DetectCycles();
      if err.Some? {
        return Err(err.value), g;
      }
      ghost var declared := inv.groups;
      inv.FindMembership(Wrap(raw));
      KeptVarsFrom(declared, inv.groups, Wrap(raw));
      LoadedHoldsFile(g, raw, inv.groups, inv.hosts);
      r := Ok(inv);
    }
  }
}
