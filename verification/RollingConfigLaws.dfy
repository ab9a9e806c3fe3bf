/** What rolling versions keep over one run and over many, on any store, and where they go wrong. */
module RollingConfigLaws {
  import opened Values
  import opened Ordering
  import opened Decimal
  import opened RollingConfig

  // ----- Sorting and removing

  /** What is not less than anything in the list is sorted to its end. */
  lemma {:induction false} InsertSnoc(x: Config, t: seq<Config>, c: Config)
    requires VersionLe(x, c)
    ensures Insert(x, t + [c], VersionLe) == Insert(x, t, VersionLe) + [c]
  {
    if t == [] {
      assert [] + [c] == [c];
    } else {
      assert (t + [c])[0] == t[0] && (t + [c])[1..] == t[1..] + [c];
      if !VersionLe(x, t[0]) {
        InsertSnoc(x, t[1..], c);
      }
    }
  }

  lemma {:induction false} SortSnoc(s: seq<Config>, c: Config)
    requires forall x <- s :: VersionLe(x, c)
    ensures Sort(s + [c], VersionLe) == Sort(s, VersionLe) + [c]
  {
    if s == [] {
      assert [] + [c] == [c] && [c][1..] == [];
    } else {
      assert (s + [c])[0] == s[0] && (s + [c])[1..] == s[1..] + [c];
      SortSnoc(s[1..], c);
      InsertSnoc(s[0], Sort(s[1..], VersionLe), c);
    }
  }

  lemma WithoutHead(t: seq<Config>, id: nat)
    requires t != []
    ensures Without(t, id) == (if t[0].id == id then [] else [t[0]]) + Without(t[1..], id)
    ensures t[0].id != id ==> Without(t, id)[1..] == Without(t[1..], id)
  {
  }

  /** Removing and sorting commute. */
  lemma {:induction false} WithoutInsert(x: Config, t: seq<Config>, id: nat)
    requires SortedBy(t, VersionLe)
    ensures Without(Insert(x, t, VersionLe), id) ==
      if x.id == id then Without(t, id) else Insert(x, Without(t, id), VersionLe)
  {
    if t != [] && VersionLe(x, t[0]) {
      assert ([x] + t)[1..] == t;
      if x.id != id {
        WithoutElements(t, id);
        var w := Without(t, id);
        assert w != [] ==> w[0] in t;
      }
    } else if t != [] {
      WithoutInsert(x, t[1..], id);
      var inserted := Insert(x, t, VersionLe);
      assert inserted[0] == t[0] && inserted[1..] == Insert(x, t[1..], VersionLe);
      WithoutHead(t, id);
    }
  }

  lemma {:induction false} WithoutSort(s: seq<Config>, id: nat)
    ensures Without(Sort(s, VersionLe), id) == Sort(Without(s, id), VersionLe)
  {
    if s != [] {
      WithoutSort(s[1..], id);
      SortSorted(s[1..], VersionLe);
      WithoutInsert(s[0], Sort(s[1..], VersionLe), id);
      WithoutHead(s, id);
    }
  }

  lemma {:induction false} WithoutListed(items: seq<Config>, id: nat, base: string)
    ensures Listed(Without(items, id), base) == Without(Listed(items, base), id)
  {
    if items != [] {
      WithoutListed(items[1..], id, base);
      WithoutHead(items, id);
    }
  }

  lemma VersionsWithout(items: seq<Config>, id: nat, base: string)
    ensures Versions(Without(items, id), base) == Without(Versions(items, base), id)
  {
    WithoutListed(items, id, base);
    WithoutSort(Listed(items, base), id);
  }

  ghost predicate DistinctIds(items: seq<Config>) {
    forall i, j :: 0 <= i < j < |items| ==> items[i].id != items[j].id
  }

  lemma {:induction false} WithoutAbsent(s: seq<Config>, id: nat)
    requires forall c <- s :: c.id != id
    ensures Without(s, id) == s
  {
    if s != [] {
      WithoutAbsent(s[1..], id);
      assert s == [s[0]] + s[1..];
    }
  }

  /** Removing the first versions leaves the later ones. */
  lemma {:induction false} VersionsWithoutAll(items: seq<Config>, base: string, k: nat)
    requires DistinctIds(Versions(items, base)) && k <= |Versions(items, base)|
    ensures Versions(WithoutAll(items, Versions(items, base)[..k]), base) == Versions(items, base)[k..]
    decreases k
  {
    var versions := Versions(items, base);
    if k == 0 {
      assert versions[..0] == [] && versions[0..] == versions;
    } else {
      var rest := Without(items, versions[0].id);
      VersionsWithout(items, versions[0].id, base);
      forall c <- versions[1..]
        ensures c.id != versions[0].id
      {
        var j :| 0 <= j < |versions[1..]| && versions[1..][j] == c;
        assert versions[j + 1] == c;
      }
      WithoutAbsent(versions[1..], versions[0].id);
      assert Versions(rest, base) == versions[1..];
      VersionsWithoutAll(rest, base, k - 1);
      assert versions[..k][0] == versions[0] && versions[..k][1..] == versions[1..][..k - 1];
      assert versions[1..][k - 1..] == versions[k..];
    }
  }

  lemma {:induction false} ListedIds(items: seq<Config>, base: string)
    requires Distinct(items)
    ensures DistinctIds(Listed(items, base))
  {
    if items != [] {
      ListedIds(items[1..], base);
      ListedElements(items[1..], base);
      var rest := Listed(items[1..], base);
      forall j | 0 <= j < |rest|
        ensures rest[j].id != items[0].id
      {
        assert rest[j] in items[1..];
        var k :| 0 <= k < |items[1..]| && items[1..][k] == rest[j];
        assert items[k + 1] == rest[j];
      }
    }
  }

  lemma SameId(items: seq<Config>, base: string, a: Config, b: Config)
    requires Distinct(items) && a in Versions(items, base) && b in Versions(items, base) && a.id == b.id
    ensures a == b
  {
    VersionsListed(items, base);
    var i :| 0 <= i < |items| && items[i] == a;
    var j :| 0 <= j < |items| && items[j] == b;
  }

  lemma VersionIds(items: seq<Config>, base: string)
    requires Distinct(items)
    ensures DistinctIds(Versions(items, base))
  {
    var listed, versions := Listed(items, base), Versions(items, base);
    ListedIds(items, base);
    ListedElements(items, base);
    SortElements(listed, VersionLe);
    forall i, j | 0 <= i < j < |versions|
      ensures versions[i].id != versions[j].id
    {
      if versions[i].id == versions[j].id {
        SameId(items, base, versions[i], versions[j]);
        Twice(versions, i, j);
        DistinctCount(listed, versions[i]);
      }
    }
  }

  // ----- Labels

  predicate Overrides(req: Request, name: string) {
    req.labels.Some? && name in req.labels.value
  }

  /** The number a version created as `v` is read back as. */
  function NumberRead(req: Request, v: int): int {
    if Overrides(req, VERSION_LABEL) then ReadVersion(req.labels.value[VERSION_LABEL]) else v
  }

  /** A new config has the number it was created for exactly when the request does not give it
      a version label, or one that reads the same. */
  lemma NewVersionNumber(req: Request, v: int, id: nat)
    requires MIN_INT <= v <= MAX_INT
    ensures VersionOf(NewConfig(req, v, id)) == NumberRead(req, v)
    ensures VersionOf(NewConfig(req, v, id)) == v <==>
      !Overrides(req, VERSION_LABEL) || ReadVersion(req.labels.value[VERSION_LABEL]) == v
  {
    AtoiItoa(v);
    assert !Overrides(req, VERSION_LABEL) ==> NewLabels(req, v)[VERSION_LABEL] == Itoa(v);
    assert Overrides(req, VERSION_LABEL) ==> NewLabels(req, v)[VERSION_LABEL] == req.labels.value[VERSION_LABEL];
  }

  lemma NextInRange(versions: seq<Config>)
    ensures MIN_INT <= Newest(versions) <= MAX_INT && MIN_INT <= NextVersion(versions) <= MAX_INT
  {
    if versions != [] {
      VersionInRange(versions[|versions| - 1]);
    }
  }

  lemma NewestIsLargest(items: seq<Config>, base: string)
    ensures forall c <- Versions(items, base) :: VersionOf(c) <= Newest(Versions(items, base))
  {
    var versions := Versions(items, base);
    VersionsListed(items, base);
    forall c <- versions
      ensures VersionOf(c) <= Newest(versions)
    {
      var i :| 0 <= i < |versions| && versions[i] == c;
      assert i < |versions| - 1 ==> VersionLe(versions[i], versions[|versions| - 1]);
    }
  }

  /** On every store, a new version exceeds every listed config, strangers included, exactly
      when there is none, or the number it is read back as exceeds the newest. */
  lemma NewVersionExceeds(req: Request, items: seq<Config>, id: nat)
    ensures var versions := Versions(items, req.name);
      (forall c <- versions :: VersionOf(c) < VersionOf(NewConfig(req, NextVersion(versions), id)))
      <==> versions == [] || NumberRead(req, NextVersion(versions)) > Newest(versions)
  {
    var versions := Versions(items, req.name);
    NextInRange(versions);
    NewVersionNumber(req, NextVersion(versions), id);
    NewestIsLargest(items, req.name);
    assert versions != [] ==> versions[|versions| - 1] in versions;
  }

  /** Without a version label of the request, that is exactly when the number does not wrap. */
  lemma WrapsAtTheEnd(req: Request, versions: seq<Config>)
    requires !Overrides(req, VERSION_LABEL)
    ensures NumberRead(req, NextVersion(versions)) > Newest(versions) <==> Newest(versions) != MAX_INT
  {
    NextInRange(versions);
  }

  // ----- Names

  /** Whether creation fails is decided by the listed configs alone. */
  lemma TakenByListed(items: seq<Config>, base: string, v: int)
    ensures NameTaken(items, VersionName(base, v)) <==>
      exists c <- Versions(items, base) :: c.name == VersionName(base, v)
  {
    VersionsListed(items, base);
    VersionNames(base, v, v);
  }

  ghost predicate AllOwn(items: seq<Config>, base: string) {
    forall c <- Versions(items, base) :: IsOwn(base, c)
  }

  lemma OwnNameIsOlder(items: seq<Config>, base: string, c: Config)
    requires c in Versions(items, base) && IsOwn(base, c) && Newest(Versions(items, base)) != MAX_INT
    ensures c.name != VersionName(base, NextVersion(Versions(items, base)))
  {
    NewestIsLargest(items, base);
    VersionNames(base, VersionOf(c), NextVersion(Versions(items, base)));
  }

  /** Where every listed config is one of the module's own, creation never fails. */
  lemma NextNameIsFree(items: seq<Config>, base: string)
    requires AllOwn(items, base) && Newest(Versions(items, base)) != MAX_INT
    ensures !NameTaken(items, VersionName(base, NextVersion(Versions(items, base))))
  {
    var versions := Versions(items, base);
    hide IsOwn, VersionName, NextVersion;
    TakenByListed(items, base, NextVersion(versions));
    forall c <- versions
      ensures c.name != VersionName(base, NextVersion(versions))
    {
      OwnNameIsOlder(items, base, c);
    }
  }

  // ----- Many runs

  /** What a run does to the store, whether it fails or not. */
  ghost predicate RunStep(req: Request, items: seq<Config>, id: nat, after: seq<Config>) {
    if req.checkMode || Refused(req, items) then after == items
    else
      var all := Grown(req, Versions(items, req.name), id);
      exists k: nat :: k <= Excess(req, all) && after == WithoutAll(GrownStore(req, items, id), all[..k])
  }

  /** The run creates a version. */
  predicate Creates(req: Request, items: seq<Config>) {
    !req.checkMode && !Refused(req, items) && NeedsNew(req, Versions(items, req.name))
  }

  ghost predicate StoreAt(items: seq<Config>, id: nat) {
    Distinct(items) && forall c <- items :: c.id < id
  }

  /** The stores before and after each of a number of runs for the same name. */
  ghost predicate History(base: string, reqs: seq<Request>, stores: seq<seq<Config>>, ids: seq<nat>) {
    && |stores| == |ids| == |reqs| + 1
    && (forall i :: 0 <= i < |stores| ==> StoreAt(stores[i], ids[i]))
    && (forall i :: 0 <= i < |reqs| ==> reqs[i].name == base && RunStep(reqs[i], stores[i], ids[i], stores[i + 1]))
  }

  method RunOne(swarm: Swarm, req: Request)
    requires swarm.Valid()
    modifies swarm
    ensures swarm.Valid() && RunStep(req, old(swarm.items), old(swarm.nextId), swarm.items)
  {
    hide Refused, Grown, GrownStore, WithoutAll, Excess, Versions;
    var manager := new ConfigManager(req, swarm);
    ghost var removed;
    var _, k := manager.Run();
    removed := k;
  }

  /** Successive runs on one swarm are such a history. */
  method RunAll(swarm: Swarm, base: string, reqs: seq<Request>)
    returns (ghost stores: seq<seq<Config>>, ghost ids: seq<nat>)
    requires swarm.Valid() && forall req <- reqs :: req.name == base
    modifies swarm
    ensures swarm.Valid() && History(base, reqs, stores, ids)
    ensures stores[0] == old(swarm.items) && stores[|reqs|] == swarm.items
  {
    hide RunStep;
    stores, ids := [swarm.items], [swarm.nextId];
    for n := 0 to |reqs|
      invariant swarm.Valid() && History(base, reqs[..n], stores, ids)
      invariant stores[0] == old(swarm.items) && stores[n] == swarm.items && ids[n] == swarm.nextId
    {
      ghost var items, id := swarm.items, swarm.nextId;
      RunOne(swarm, reqs[n]);
      stores, ids := stores + [swarm.items], ids + [swarm.nextId];
      assert reqs[..n + 1] == reqs[..n] + [reqs[n]];
    }
    assert reqs[..|reqs|] == reqs;
  }

  /** The new version, if any, is the last one of the sorted listing. */
  predicate TakesLast(req: Request, versions: seq<Config>) {
    NeedsNew(req, versions) && versions != [] ==> NumberRead(req, NextVersion(versions)) >= Newest(versions)
  }

  lemma VersionsAfterGrowth(req: Request, items: seq<Config>, id: nat)
    requires StoreAt(items, id) && TakesLast(req, Versions(items, req.name))
    ensures var versions := Versions(items, req.name);
      Versions(GrownStore(req, items, id), req.name) == Grown(req, versions, id)
    ensures !Refused(req, items) ==> Distinct(GrownStore(req, items, id))
  {
    var versions := Versions(items, req.name);
    if NeedsNew(req, versions) {
      var c := NewConfig(req, NextVersion(versions), id);
      VersionNames(req.name, NextVersion(versions), 0);
      ListedSnoc(items, c, req.name);
      NextInRange(versions);
      NewVersionNumber(req, NextVersion(versions), id);
      NewestIsLargest(items, req.name);
      VersionsListed(items, req.name);
      ListedElements(items, req.name);
      SortSnoc(Listed(items, req.name), c);
    }
  }

  /** After any run whose new version goes last, on any store, the listing is what it was, with
      that version, without the first ones that were removed. */
  lemma VersionsAfterRun(req: Request, items: seq<Config>, id: nat, k: nat)
    requires StoreAt(items, id) && !Refused(req, items) && TakesLast(req, Versions(items, req.name))
    requires k <= |Grown(req, Versions(items, req.name), id)|
    ensures var all := Grown(req, Versions(items, req.name), id);
      Versions(WithoutAll(GrownStore(req, items, id), all[..k]), req.name) == all[k..]
  {
    hide Versions, Grown, GrownStore, WithoutAll, Refused, TakesLast;
    VersionsAfterGrowth(req, items, id);
    VersionIds(GrownStore(req, items, id), req.name);
    VersionsWithoutAll(GrownStore(req, items, id), req.name, k);
  }

  lemma LastOfSuffix(all: seq<Config>, k: nat)
    requires all != [] && k < |all|
    ensures Newest(all[k..]) == VersionOf(all[|all| - 1])
  {
  }

  /** A run leaves the newest number as it was, or raises it by one. */
  lemma RunStepNewest(req: Request, items: seq<Config>, id: nat, after: seq<Config>)
    requires StoreAt(items, id) && RunStep(req, items, id, after)
    requires !Overrides(req, VERSION_LABEL) && Newest(Versions(items, req.name)) != MAX_INT
    ensures var newest := Newest(Versions(items, req.name));
      Newest(Versions(after, req.name)) == if Creates(req, items) then newest + 1 else newest
  {
    hide Versions, WithoutAll, GrownStore, VersionOf, NewConfig, NameTaken, VersionName, StoreAt;
    if !req.checkMode && !Refused(req, items) {
      var versions := Versions(items, req.name);
      var all := Grown(req, versions, id);
      WrapsAtTheEnd(req, versions);
      var k: nat :| k <= Excess(req, all) && after == WithoutAll(GrownStore(req, items, id), all[..k]);
      VersionsAfterRun(req, items, id, k);
      LastOfSuffix(all, k);
      if NeedsNew(req, versions) {
        NextInRange(versions);
        NewVersionNumber(req, NextVersion(versions), id);
      }
    }
  }

  ghost predicate Bounded(base: string, stores: seq<seq<Config>>) {
    forall i :: 0 <= i < |stores| ==> Newest(Versions(stores[i], base)) != MAX_INT
  }

  lemma {:induction false} NewestGrowsByOne(base: string, reqs: seq<Request>, stores: seq<seq<Config>>,
                                            ids: seq<nat>, n: nat)
    requires History(base, reqs, stores, ids) && n < |stores|
    requires Newest(Versions(stores[0], base)) + |reqs| < MAX_INT
    requires forall req <- reqs :: !Overrides(req, VERSION_LABEL)
    ensures Newest(Versions(stores[n], base)) <= Newest(Versions(stores[0], base)) + n
  {
    hide RunStep, Newest, Versions, Overrides, StoreAt;
    if n > 0 {
      NewestGrowsByOne(base, reqs, stores, ids, n - 1);
      assert reqs[n - 1] in reqs && StoreAt(stores[n - 1], ids[n - 1]);
      RunStepNewest(reqs[n - 1], stores[n - 1], ids[n - 1], stores[n]);
    }
  }

  /** This can be told beforehand: there are numbers left for so many runs. */
  lemma EnoughNumbers(base: string, reqs: seq<Request>, stores: seq<seq<Config>>, ids: seq<nat>)
    requires History(base, reqs, stores, ids) && Newest(Versions(stores[0], base)) + |reqs| < MAX_INT
    requires forall req <- reqs :: !Overrides(req, VERSION_LABEL)
    ensures Bounded(base, stores)
  {
    hide RunStep, Newest, Versions, Overrides, StoreAt;
    forall i | 0 <= i < |stores|
      ensures Newest(Versions(stores[i], base)) != MAX_INT
    {
      NewestGrowsByOne(base, reqs, stores, ids, i);
    }
  }

  /** Over any sequence of runs whose requests leave the version label alone, on any store, the
      newest number never falls. */
  lemma {:induction false} NewestNeverFalls(base: string, reqs: seq<Request>, stores: seq<seq<Config>>, ids: seq<nat>,
                                            i: nat, j: nat)
    requires History(base, reqs, stores, ids) && Bounded(base, stores) && i <= j < |stores|
    requires forall req <- reqs :: !Overrides(req, VERSION_LABEL)
    ensures Newest(Versions(stores[i], base)) <= Newest(Versions(stores[j], base))
    decreases j
  {
    hide RunStep, Newest, Versions, Overrides, StoreAt;
    if i < j {
      NewestNeverFalls(base, reqs, stores, ids, i, j - 1);
      assert reqs[j - 1] in reqs && StoreAt(stores[j - 1], ids[j - 1]);
      RunStepNewest(reqs[j - 1], stores[j - 1], ids[j - 1], stores[j]);
    }
  }

  /** And each version created has a greater number than every one created before, including
      those removed since, and than every config then listed. */
  lemma CreatedVersionsGrow(base: string, reqs: seq<Request>, stores: seq<seq<Config>>, ids: seq<nat>, i: nat, j: nat)
    requires History(base, reqs, stores, ids) && Bounded(base, stores) && i < j < |reqs|
    requires forall req <- reqs :: !Overrides(req, VERSION_LABEL)
    requires Creates(reqs[i], stores[i]) && Creates(reqs[j], stores[j])
    ensures NextVersion(Versions(stores[i], base)) < NextVersion(Versions(stores[j], base))
    ensures forall c <- Versions(stores[j], base) :: VersionOf(c) < NextVersion(Versions(stores[j], base))
  {
    hide RunStep, Versions, StoreAt, VersionOf, Overrides;
    assert reqs[i] in reqs && StoreAt(stores[i], ids[i]);
    RunStepNewest(reqs[i], stores[i], ids[i], stores[i + 1]);
    NewestNeverFalls(base, reqs, stores, ids, i + 1, j);
    NewestIsLargest(stores[j], base);
  }

  lemma NewIsOwn(req: Request, items: seq<Config>, id: nat)
    requires AllOwn(items, req.name) && !Overrides(req, VERSION_LABEL)
    requires Newest(Versions(items, req.name)) != MAX_INT
    ensures IsOwn(req.name, NewConfig(req, NextVersion(Versions(items, req.name)), id))
  {
    var versions := Versions(items, req.name);
    hide Versions, NewLabels, VersionName;
    NextInRange(versions);
    NewVersionNumber(req, NextVersion(versions), id);
    assert versions != [] ==> versions[|versions| - 1] in versions;
  }

  /** A run keeps the store free of strangers, and then is never refused. */
  lemma RunStepOwn(req: Request, items: seq<Config>, id: nat, after: seq<Config>)
    requires StoreAt(items, id) && RunStep(req, items, id, after) && AllOwn(items, req.name)
    requires !Overrides(req, VERSION_LABEL) && Newest(Versions(items, req.name)) != MAX_INT
    ensures !Refused(req, items) && AllOwn(after, req.name)
  {
    hide Versions, WithoutAll, GrownStore, StoreAt, NewConfig, VersionOf, NameTaken, VersionName, IsOwn, Excess;
    var versions := Versions(items, req.name);
    NextNameIsFree(items, req.name);
    if !req.checkMode {
      var all := Grown(req, versions, id);
      WrapsAtTheEnd(req, versions);
      var k: nat :| k <= Excess(req, all) && after == WithoutAll(GrownStore(req, items, id), all[..k]);
      VersionsAfterRun(req, items, id, k);
      if NeedsNew(req, versions) {
        NewIsOwn(req, items, id);
      }
      forall c <- all[k..]
        ensures IsOwn(req.name, c)
      {
        assert c in all;
      }
    }
  }

  /** So no run of a history that starts without strangers is ever refused. */
  lemma {:induction false} NeverRefused(base: string, reqs: seq<Request>, stores: seq<seq<Config>>, ids: seq<nat>,
                                        n: nat)
    requires History(base, reqs, stores, ids) && Bounded(base, stores) && AllOwn(stores[0], base) && n < |reqs|
    requires forall req <- reqs :: !Overrides(req, VERSION_LABEL)
    ensures AllOwn(stores[n], base) && AllOwn(stores[n + 1], base) && !Refused(reqs[n], stores[n])
  {
    hide RunStep, Versions, StoreAt, AllOwn, Refused, Overrides;
    if n > 0 {
      NeverRefused(base, reqs, stores, ids, n - 1);
    }
    assert reqs[n] in reqs && StoreAt(stores[n], ids[n]);
    RunStepOwn(reqs[n], stores[n], ids[n], stores[n + 1]);
  }

  // ----- What is removed

  /** A run with nothing in use removes these. */
  function Removed(req: Request, items: seq<Config>, id: nat): seq<Config> {
    var all := Grown(req, Versions(items, req.name), id);
    if req.checkMode || Refused(req, items) then [] else all[..Excess(req, all)]
  }

  function Remaining(req: Request, all: seq<Config>): seq<Config> {
    all[Excess(req, all)..]
  }

  /** What is left is the requested number, and nothing removed is newer than anything left;
      it is strictly older if no two have the same number. */
  lemma RemainingAreNewest(req: Request, all: seq<Config>)
    requires SortedBy(all, VersionLe)
    ensures req.versionsToKeep >= 0 ==> |Remaining(req, all)| == if |all| < Keep(req) then |all| else Keep(req)
    ensures req.versionsToKeep < 0 ==> Remaining(req, all) == all
    ensures forall gone, left :: gone in all[..Excess(req, all)] && left in Remaining(req, all) ==>
      VersionOf(gone) <= VersionOf(left)
    ensures (forall i, j :: 0 <= i < j < |all| ==> VersionOf(all[i]) != VersionOf(all[j])) ==>
      forall gone, left :: gone in all[..Excess(req, all)] && left in Remaining(req, all) ==>
        VersionOf(gone) < VersionOf(left)
  {
    hide VersionOf;
    var n := Excess(req, all);
    forall gone, left | gone in all[..n] && left in all[n..]
      ensures VersionOf(gone) <= VersionOf(left)
      ensures (forall i, j :: 0 <= i < j < |all| ==> VersionOf(all[i]) != VersionOf(all[j])) ==>
        VersionOf(gone) < VersionOf(left)
    {
      var i :| 0 <= i < n && all[..n][i] == gone;
      var j :| 0 <= j < |all| - n && all[n..][j] == left;
      assert all[i] == gone && all[n + j] == left && VersionLe(all[i], all[n + j]);
    }
  }

  ghost predicate StrictlyAscending(all: seq<Config>) {
    forall i, j :: 0 <= i < j < |all| ==> VersionOf(all[i]) < VersionOf(all[j])
  }

  lemma SameName(items: seq<Config>, base: string, a: Config, b: Config)
    requires Distinct(items) && a in Versions(items, base) && b in Versions(items, base) && a.name == b.name
    ensures a == b
  {
    VersionsListed(items, base);
    var i :| 0 <= i < |items| && items[i] == a;
    var j :| 0 <= j < |items| && items[j] == b;
  }

  /** Among own versions no two have the same number. */
  lemma OwnNumbersDiffer(items: seq<Config>, base: string)
    requires Distinct(items) && AllOwn(items, base)
    ensures StrictlyAscending(Versions(items, base))
  {
    hide Versions, VersionName, VersionOf, Distinct;
    var versions := Versions(items, base);
    VersionsListed(items, base);
    VersionIds(items, base);
    forall i, j | 0 <= i < j < |versions|
      ensures VersionOf(versions[i]) < VersionOf(versions[j])
    {
      assert VersionLe(versions[i], versions[j]);
      if VersionOf(versions[i]) == VersionOf(versions[j]) {
        SameName(items, base, versions[i], versions[j]);
      }
    }
  }

  lemma GrownOwn(req: Request, items: seq<Config>, id: nat)
    requires StoreAt(items, id) && !Refused(req, items) && AllOwn(items, req.name)
    requires !Overrides(req, VERSION_LABEL) && Newest(Versions(items, req.name)) != MAX_INT
    ensures var all := Grown(req, Versions(items, req.name), id);
      StrictlyAscending(all) && Versions(GrownStore(req, items, id), req.name) == all
  {
    hide Versions, VersionName, VersionOf, NewConfig, NameTaken, IsOwn, GrownStore, Distinct;
    var versions := Versions(items, req.name);
    WrapsAtTheEnd(req, versions);
    VersionsAfterGrowth(req, items, id);
    if NeedsNew(req, versions) {
      NewIsOwn(req, items, id);
    }
    OwnNumbersDiffer(GrownStore(req, items, id), req.name);
  }

  lemma SuffixIsNewer(all: seq<Config>, k: nat, gone: Config, left: Config)
    requires StrictlyAscending(all) && k <= |all| && gone in all && gone !in all[k..] && left in all[k..]
    ensures VersionOf(gone) < VersionOf(left)
  {
    hide VersionOf;
    assert all == all[..k] + all[k..];
    var i :| 0 <= i < k && all[..k][i] == gone;
    var j :| 0 <= j < |all[k..]| && all[k..][j] == left;
    assert all[k + j] == left;
  }

  /** Over any history that starts among own versions, every listing has its numbers strictly
      ascending, and whatever version a run removes is older than all it leaves. */
  lemma RemovedAreOlder(base: string, reqs: seq<Request>, stores: seq<seq<Config>>, ids: seq<nat>, n: nat,
                        gone: Config, left: Config)
    requires History(base, reqs, stores, ids) && Bounded(base, stores) && AllOwn(stores[0], base) && n < |reqs|
    requires forall req <- reqs :: !Overrides(req, VERSION_LABEL)
    ensures StrictlyAscending(Versions(stores[n], base)) && StrictlyAscending(Versions(stores[n + 1], base))
    ensures var before, after := Versions(stores[n], base), Versions(stores[n + 1], base);
      gone in before && gone !in after && left in after ==> VersionOf(gone) < VersionOf(left)
  {
    hide Versions, VersionOf, WithoutAll, GrownStore, Excess, Refused, AllOwn, StrictlyAscending, NewConfig,
      NeedsNew, Overrides, Distinct;
    var req, items, id, after := reqs[n], stores[n], ids[n], stores[n + 1];
    assert req in reqs && StoreAt(items, id) && StoreAt(after, ids[n + 1]);
    NeverRefused(base, reqs, stores, ids, n);
    OwnNumbersDiffer(items, base);
    OwnNumbersDiffer(after, base);
    if !req.checkMode {
      var all := Grown(req, Versions(items, base), id);
      var k: nat :| k <= Excess(req, all) && after == WithoutAll(GrownStore(req, items, id), all[..k]);
      WrapsAtTheEnd(req, Versions(items, base));
      VersionsAfterRun(req, items, id, k);
      GrownOwn(req, items, id);
      if gone in Versions(items, base) && gone !in all[k..] && left in all[k..] {
        SuffixIsNewer(all, k, gone, left);
      }
    }
  }

  /** The listed configs that some request may remove: where creation fails, the last stays. */
  function Exposed(items: seq<Config>, base: string): seq<Config> {
    var versions := Versions(items, base);
    if versions != [] && NameTaken(items, VersionName(base, NextVersion(versions)))
    then versions[..|versions| - 1] else versions
  }

  function KeepOne(base: string, newest: Config, force: bool): Request {
    Request(base, "", if KEY_LABEL in newest.labels then newest.labels[KEY_LABEL] else "", None, force, 1,
            newest.template, false)
  }

  lemma RemovedExposed(req: Request, items: seq<Config>, id: nat, c: Config)
    requires StoreAt(items, id) && c in Removed(req, items, id) && c in items
    ensures c in Exposed(items, req.name)
  {
    hide NewLabels, Versions, NameTaken, VersionName;
    var versions := Versions(items, req.name);
    var all := Grown(req, versions, id);
    var i :| 0 <= i < Excess(req, all) && all[i] == c;
    if !NeedsNew(req, versions) {
      assert versions[..|versions| - 1][i] == c;
    } else {
      assert c.id < id;
      assert i < |versions|;
    }
  }

  lemma ExposedRemoved(base: string, items: seq<Config>, id: nat, c: Config) returns (req: Request)
    requires c in Exposed(items, base)
    ensures req.name == base && c in Removed(req, items, id) && c in items
  {
    hide NewConfig, Versions, NameTaken, VersionName;
    var versions := Versions(items, base);
    VersionsListed(items, base);
    var taken := NameTaken(items, VersionName(base, NextVersion(versions)));
    req := KeepOne(base, versions[|versions| - 1], !taken);
    assert c in versions;
    assert Removed(req, items, id) == Exposed(items, base);
  }

  /** On every store: requests remove only the module's own versions exactly when every listed
      config is one, save the last if creation fails anyway. */
  lemma OnlyOwnRemoved(base: string, items: seq<Config>, id: nat)
    requires StoreAt(items, id)
    ensures
      (forall req: Request, c :: req.name == base && c in Removed(req, items, id) && c in items ==> IsOwn(base, c))
      <==> forall c <- Exposed(items, base) :: IsOwn(base, c)
  {
    hide IsOwn, Versions, VersionName, NextVersion, NameTaken, NewConfig, Removed;
    forall req: Request, c | req.name == base && c in Removed(req, items, id) && c in items
      ensures c in Exposed(items, base)
    {
      RemovedExposed(req, items, id, c);
    }
    forall c <- Exposed(items, base)
      ensures exists req: Request :: req.name == base && c in Removed(req, items, id) && c in items
    {
      var req := ExposedRemoved(base, items, id, c);
    }
  }

  // ----- Repeating a request

  /** The newest version is asked for again unchanged exactly when the request does not override
      the key label with another key: then every repetition creates a new version. */
  lemma RepeatingNeedsNew(req: Request, versions: seq<Config>, id: nat)
    ensures var all, again := Grown(req, versions, id), req.(force := false);
      NeedsNew(again, Remaining(req, all)) <==>
        NeedsNew(req, versions) && Overrides(req, KEY_LABEL) && req.labels.value[KEY_LABEL] != req.dataKey
  {
    var all := Grown(req, versions, id);
    assert Remaining(req, all)[|Remaining(req, all)| - 1] == all[|all| - 1];
  }

  lemma NothingToRemove(req: Request, all: seq<Config>)
    ensures Excess(req, Remaining(req, all)) == 0
  {
  }

  lemma QuietRun(req: Request, items: seq<Config>, id: nat)
    requires !NeedsNew(req, Versions(items, req.name)) && Excess(req, Versions(items, req.name)) == 0
    ensures forall store :: RunStep(req, items, id, store) ==> store == items
  {
    hide Versions, NeedsNew;
    assert Versions(items, req.name)[..0] == [];
  }

  /** The last config of a sorted list: the last of those with the largest number. */
  function LastOf(s: seq<Config>): Config
    requires s != []
  {
    Sort(s, VersionLe)[|Sort(s, VersionLe)| - 1]
  }

  lemma {:induction false} LastInserted(x: Config, t: seq<Config>)
    requires t != [] && SortedBy(t, VersionLe)
    ensures var r := Insert(x, t, VersionLe);
      r != [] && r[|r| - 1] == if VersionLe(x, t[|t| - 1]) then t[|t| - 1] else x
  {
    if !VersionLe(x, t[0]) && |t| > 1 {
      LastInserted(x, t[1..]);
    }
  }

  lemma SortNonempty(s: seq<Config>)
    requires s != []
    ensures Sort(s, VersionLe) != [] && SortedBy(Sort(s, VersionLe), VersionLe)
  {
    SortElements(s, VersionLe);
    SortSorted(s, VersionLe);
  }

  lemma SortOne(x: Config)
    ensures Sort([x], VersionLe) == [x]
  {
    assert [x][1..] == [];
  }

  lemma LastOfTwo(x: Config, c: Config)
    ensures Sort([x], VersionLe) == [x]
    ensures Sort([x] + [c], VersionLe) == if VersionLe(x, c) then [x, c] else [c, x]
  {
    SortOne(x);
    SortOne(c);
    assert ([x] + [c])[1..] == [c];
  }

  lemma SortCons(x: Config, s: seq<Config>)
    ensures Sort([x] + s, VersionLe) == Insert(x, Sort(s, VersionLe), VersionLe)
  {
    assert ([x] + s)[1..] == s;
  }

  /** A config added to a list is sorted to its end, or leaves the end as it is. */
  lemma {:induction false} LastAfterSnoc(s: seq<Config>, c: Config)
    requires s != []
    ensures Sort(s, VersionLe) != [] && Sort(s + [c], VersionLe) != []
    ensures LastOf(s + [c]) == if VersionLe(LastOf(s), c) then c else LastOf(s)
  {
    hide Insert, Sort;
    SortNonempty(s);
    SortNonempty(s + [c]);
    var x, rest := s[0], s[1..];
    if rest == [] {
      assert s == [x];
      LastOfTwo(x, c);
    } else {
      LastAfterSnoc(rest, c);
      SortNonempty(rest + [c]);
      SortNonempty(rest);
      LastInserted(x, Sort(rest + [c], VersionLe));
      LastInserted(x, Sort(rest, VersionLe));
      assert s == [x] + rest && s + [c] == [x] + (rest + [c]);
      SortCons(x, rest);
      SortCons(x, rest + [c]);
    }
  }

  lemma RestLast(before: seq<Config>, i: nat)
    requires i < |before|
    ensures var rest := before[..i] + before[i + 1..];
      |rest| == |before| - 1 && (i < |before| - 1 ==> rest != [] && rest[|rest| - 1] == before[|before| - 1])
  {
  }

  lemma {:induction false} WithoutOne(t: seq<Config>, i: nat)
    requires i < |t| && DistinctIds(t)
    ensures Without(t, t[i].id) == t[..i] + t[i + 1..]
  {
    WithoutHead(t, t[i].id);
    if i == 0 {
      WithoutAbsent(t[1..], t[0].id);
      assert t[..0] + t[1..] == t[1..];
    } else {
      WithoutOne(t[1..], i - 1);
      assert t[..i] + t[i + 1..] == [t[0]] + (t[1..][..i - 1] + t[1..][i..]);
    }
  }

  lemma RestListed(before: seq<Config>, i: nat, removed: seq<Config>)
    requires i < |before| && DistinctIds(before) && DistinctIds(removed) && removed != [] && before[i] == removed[0]
    requires forall r <- removed :: r in before
    ensures DistinctIds(before[..i] + before[i + 1..]) && DistinctIds(removed[1..])
    ensures forall r <- removed[1..] :: r in before[..i] + before[i + 1..]
  {
    var rest := before[..i] + before[i + 1..];
    assert forall k :: 0 <= k < |rest| ==> rest[k] == if k < i then before[k] else before[k + 1];
    forall k | 0 <= k < |removed[1..]|
      ensures removed[1..][k] in rest
    {
      assert removed[k + 1] in removed;
      var j :| 0 <= j < |before| && before[j] == removed[k + 1];
      assert rest[if j < i then j else j - 1] == before[j];
    }
  }

  /** Removing some of the listed configs, none of them the last, leaves the others and the last. */
  lemma {:induction false} RemovalKeepsLast(items: seq<Config>, base: string, removed: seq<Config>)
    requires DistinctIds(Versions(items, base)) && DistinctIds(removed)
    requires forall r <- removed :: r in Versions(items, base)
    ensures var before, after := Versions(items, base), Versions(WithoutAll(items, removed), base);
      && |after| == |before| - |removed|
      && (before != [] && before[|before| - 1] !in removed ==>
            after != [] && after[|after| - 1] == before[|before| - 1])
    decreases |removed|
  {
    hide Versions, Without;
    if removed != [] {
      var before, id := Versions(items, base), removed[0].id;
      assert removed[0] in before;
      var i :| 0 <= i < |before| && before[i] == removed[0];
      VersionsWithout(items, id, base);
      WithoutOne(before, i);
      assert Versions(Without(items, id), base) == before[..i] + before[i + 1..];
      assert forall r <- removed[1..] :: r in removed;
      RestListed(before, i, removed);
      RestLast(before, i);
      hide DistinctIds, WithoutAll;
      RemovalKeepsLast(Without(items, id), base, removed[1..]);
    }
  }

  predicate KeyDiffers(req: Request) {
    Overrides(req, KEY_LABEL) && req.labels.value[KEY_LABEL] != req.dataKey
  }

  /** Whether the repetition of a request that created a version creates another: if the new
      version is the one looked at, it differs in its key; otherwise the old newest is looked at
      again. */
  predicate RepeatsForever(req: Request, versions: seq<Config>, id: nat) {
    if versions == [] || TakesLast(req, versions) || Excess(req, Grown(req, versions, id)) == |versions|
    then KeyDiffers(req)
    else !Satisfies(req, versions[|versions| - 1])
  }

  lemma GrownDistinct(req: Request, items: seq<Config>, id: nat)
    requires StoreAt(items, id) && !Refused(req, items)
    ensures Distinct(GrownStore(req, items, id))
  {
    hide Versions, VersionName, NewLabels;
  }

  /** A config that is older than the newest leaves that one last. */
  lemma OlderGoesIn(items: seq<Config>, c: Config, base: string)
    requires IsVersionOf(base, c) && Versions(items, base) != [] && VersionOf(c) < Newest(Versions(items, base))
    ensures var versions, grown := Versions(items, base), Versions(items + [c], base);
      && c in grown && |grown| == |versions| + 1 && grown[|grown| - 1] == versions[|versions| - 1]
      && forall v <- versions :: v in grown
  {
    hide VersionOf, IsVersionOf, Sort, Insert;
    ListedSnoc(items, c, base);
    var listed := Listed(items, base);
    SortElements(listed, VersionLe);
    SortElements(listed + [c], VersionLe);
    LastAfterSnoc(listed, c);
  }

  lemma GrownListing(req: Request, items: seq<Config>, id: nat)
    requires !TakesLast(req, Versions(items, req.name))
    ensures var versions := Versions(items, req.name);
      var c := NewConfig(req, NextVersion(versions), id);
      var grown := Versions(items + [c], req.name);
      && c in grown && |grown| == |versions| + 1 && grown[|grown| - 1] == versions[|versions| - 1]
      && forall v <- versions :: v in grown
  {
    hide Versions, VersionName, NumberRead, VersionOf, NextVersion;
    var next := NextVersion(Versions(items, req.name));
    VersionNames(req.name, next, 0);
    NextInRange(Versions(items, req.name));
    NewVersionNumber(req, next, id);
    OlderGoesIn(items, NewConfig(req, next, id), req.name);
  }

  lemma PrefixListed(req: Request, items: seq<Config>, id: nat, k: nat)
    requires StoreAt(items, id) && !TakesLast(req, Versions(items, req.name)) && k <= |Versions(items, req.name)|
    ensures var versions := Versions(items, req.name);
      var c := NewConfig(req, NextVersion(versions), id);
      var all := versions + [c];
      && DistinctIds(all[..k]) && (forall v <- all[..k] :: v in Versions(items + [c], req.name))
      && (k < |versions| ==> versions[|versions| - 1] !in all[..k])
      && c !in all[..k]
  {
    hide NewLabels, Versions, VersionName, NextVersion, TakesLast;
    var versions := Versions(items, req.name);
    var c := NewConfig(req, NextVersion(versions), id);
    VersionIds(items, req.name);
    VersionsListed(items, req.name);
    GrownListing(req, items, id);
    assert (versions + [c])[..k] == versions[..k];
    forall v <- versions[..k]
      ensures v in versions && v.id < id
    {
      assert v in items;
    }
    assert c.id == id;
  }

  lemma NewStays(req: Request, items: seq<Config>, id: nat)
    requires StoreAt(items, id) && !TakesLast(req, Versions(items, req.name))
    ensures var versions := Versions(items, req.name);
      var c := NewConfig(req, NextVersion(versions), id);
      c in Versions(WithoutAll(items + [c], (versions + [c])[..|versions|]), req.name)
  {
    hide NewLabels, Versions, VersionName, NextVersion, TakesLast;
    var versions := Versions(items, req.name);
    var c := NewConfig(req, NextVersion(versions), id);
    var removed := (versions + [c])[..|versions|];
    assert removed == versions;
    VersionsListed(items, req.name);
    GrownListing(req, items, id);
    VersionsListed(items + [c], req.name);
    WithoutAllElements(items + [c], removed);
    VersionsListed(WithoutAll(items + [c], removed), req.name);
    forall v <- versions
      ensures v.id != c.id
    {
      assert v in items;
    }
  }

  /** The listing a repetition starts from, when the new version does not go last. */
  lemma ListedAgain(req: Request, items: seq<Config>, id: nat)
    requires StoreAt(items, id) && !Refused(req, items) && !TakesLast(req, Versions(items, req.name))
    ensures var versions := Versions(items, req.name);
      var all := Grown(req, versions, id);
      var k := Excess(req, all);
      var again := Versions(WithoutAll(GrownStore(req, items, id), all[..k]), req.name);
      && |again| == |all| - k
      && again[|again| - 1] == if k == |versions| then all[|all| - 1] else versions[|versions| - 1]
  {
    hide Versions, WithoutAll, Listed, NewConfig, Satisfies, NameTaken, VersionName, IsVersionOf, Excess, NumberRead;
    var versions := Versions(items, req.name);
    var c := NewConfig(req, NextVersion(versions), id);
    var grown := items + [c];
    var all := versions + [c];
    var k := Excess(req, all);
    GrownListing(req, items, id);
    GrownDistinct(req, items, id);
    VersionIds(grown, req.name);
    PrefixListed(req, items, id, k);
    RemovalKeepsLast(grown, req.name, all[..k]);
    if k == |versions| {
      var again := Versions(WithoutAll(grown, all[..k]), req.name);
      NewStays(req, items, id);
      assert again == [again[0]];
    }
  }

  /** On any store: after a complete run, a second run of the same request without force creates
      a version exactly when the first did and the request repeats for ever; otherwise it leaves
      the store as it is. */
  lemma RepeatingChangesNothing(req: Request, items: seq<Config>, id: nat, next: nat)
    requires StoreAt(items, id) && !Refused(req, items)
    ensures var versions := Versions(items, req.name);
      var all, again := Grown(req, versions, id), req.(force := false);
      var after := WithoutAll(GrownStore(req, items, id), all[..Excess(req, all)]);
      && (NeedsNew(again, Versions(after, req.name)) <==> NeedsNew(req, versions) && RepeatsForever(req, versions, id))
      && (!NeedsNew(again, Versions(after, req.name)) ==>
            forall store :: RunStep(again, after, next, store) ==> store == after)
  {
    hide Versions, WithoutAll, GrownStore, StoreAt, NewConfig, Refused, NextVersion, NumberRead;
    var versions := Versions(items, req.name);
    var all, again := Grown(req, versions, id), req.(force := false);
    var k := Excess(req, all);
    var after := WithoutAll(GrownStore(req, items, id), all[..k]);
    RepeatingNeedsNew(req, versions, id);
    NothingToRemove(req, all);
    if TakesLast(req, versions) {
      VersionsAfterRun(req, items, id, k);
    } else {
      ListedAgain(req, items, id);
    }
    if !NeedsNew(again, Versions(after, req.name)) {
      QuietRun(again, after, next);
    }
  }

  // ----- Runs that go wrong

  lemma VersionsOfOne(c: Config, base: string)
    ensures base + "_v" <= c.name ==> Versions([c], base) == [c]
    ensures Versions([], base) == []
  {
    assert [c][1..] == [];
    if base + "_v" <= c.name {
      assert Listed([c], base) == [c] + Listed([], base) == [c];
      assert Sort([c], VersionLe) == Insert(c, Sort([], VersionLe), VersionLe) == [c];
    }
  }

  lemma NamesOfApp()
    ensures VersionName("app", 1) == "app_v1" && VersionName("app", 2) == "app_v2"
    ensures "app_v1"[5] != "app_vault"[5] && "app_v1"[5] != "app_v2"[5]
  {
    assert Digits(1) == ['1'] == "1" && Digits(2) == ['2'] == "2";
  }

  lemma VaultIsListed(vault: Config)
    requires vault.name == "app_vault" && vault.labels == map[]
    ensures Versions([vault], "app") == [vault] && !IsOwn("app", vault) && NextVersion([vault]) == 1
  {
    assert "app" + "_v" == "app_vault"[..5];
    VersionsOfOne(vault, "app");
  }

  /** A config that is no version of "app" at all is removed as its oldest version. */
  method StrangerRemoved() returns (swarm: Swarm)
    ensures swarm.Valid() && fresh(swarm) && forall c <- swarm.items :: c.name != "app_vault"
  {
    var vault := Config(0, "app_vault", map[], "", "secret");
    swarm := new Swarm([vault], 1);
    var req := Request("app", "data", "key", None, true, 1, "", false);
    ghost var added := NewConfig(req, 1, 1);
    VaultIsListed(vault);
    NamesOfApp();
    var manager := new ConfigManager(req, swarm);
    var r, removed := manager.Run();
    assert Grown(req, [vault], 1) == [vault, added];
    assert [vault, added][..1] == [vault] && [vault] + [added] == [vault, added];
    WithoutAllElements([vault, added], [vault]);
  }

  method RunFirst(swarm: Swarm, req: Request) returns (r: Result<bool, ConfigError>)
    requires swarm.items == [] && swarm.nextId == 0 && req.name == "app" && req.versionsToKeep == 5 && !req.checkMode
    modifies swarm
    ensures swarm.Valid() && r == Ok(true) && swarm.items == [NewConfig(req, 1, 0)]
  {
    var manager := new ConfigManager(req, swarm);
    ghost var removed;
    assert Versions([], "app") == [];
    r, removed := manager.Run();
    assert Grown(req, [], 0)[..0] == [];
  }

  /** A request that overrides the version label: its second run is refused. */
  method VersionOverridden() returns (first: Result<bool, ConfigError>, second: Result<bool, ConfigError>)
    ensures first == Ok(true) && second.Err? && second.error.CreateFailed?
  {
    var req := Request("app", "data", "key", Some(map[VERSION_LABEL := "0"]), true, 5, "", false);
    ghost var added := NewConfig(req, 1, 0);
    NamesOfApp();
    var swarm := new Swarm([], 0);
    first := RunFirst(swarm, req);
    assert Digits(0) == ['0'] == "0";
    AtoiItoa(0);
    assert NewLabels(req, 1)[VERSION_LABEL] == "0";
    VersionsOfOne(added, "app");
    var manager := new ConfigManager(req, swarm);
    ghost var removed;
    second, removed := manager.Run();
  }

  /** A request that overrides the key label: repeating it creates another version. */
  method KeyOverridden() returns (first: Result<bool, ConfigError>, second: Result<bool, ConfigError>)
    ensures first == Ok(true) && second == Ok(true)
  {
    var req := Request("app", "data", "key", Some(map[KEY_LABEL := "other"]), false, 5, "", false);
    ghost var added := NewConfig(req, 1, 0);
    NamesOfApp();
    var swarm := new Swarm([], 0);
    first := RunFirst(swarm, req);
    VersionsOfOne(added, "app");
    NewVersionNumber(req, 1, 0);
    var manager := new ConfigManager(req, swarm);
    ghost var removed;
    second, removed := manager.Run();
    assert second.Ok? && second.value by {
      assert NeedsNew(req, [added]) && NextVersion([added]) == 2;
      assert Excess(req, Grown(req, [added], swarm.nextId)) == 0;
    }
  }
}
