/** Swarm configs with rolling versions: every change creates a new version, and old versions
    are removed.  Whatever else is in the store, every config whose name begins like a version
    is taken for one. */
module RollingConfig {
  import opened Values
  import opened Ordering
  import opened Decimal

  const KEY_LABEL := "ansible_key"
  const VERSION_LABEL := "ansible_version"

  type Labels = map<string, string>

  datatype Config = Config(id: nat, name: string, labels: Labels, template: string, data: string)

  datatype Request = Request(
    name: string, data: string, dataKey: string, labels: Option<Labels>, force: bool,
    versionsToKeep: int, template: string, checkMode: bool)

  datatype ConfigError = CreateFailed(name: string) | RemoveFailed(name: string)

  // ----- Versions

  /** What a version label says; nothing readable says 0. */
  function ReadVersion(text: string): int {
    match Atoi(text)
    case None => 0
    case Some(n) => n
  }

  function VersionOf(c: Config): int {
    if VERSION_LABEL in c.labels then ReadVersion(c.labels[VERSION_LABEL]) else 0
  }

  lemma VersionInRange(c: Config)
    ensures MIN_INT <= VersionOf(c) <= MAX_INT
  {
  }

  function VersionName(base: string, v: int): string {
    base + "_v" + Itoa(v)
  }

  predicate IsVersionOf(base: string, c: Config) {
    base + "_v" <= c.name
  }

  /** A config as this module creates it: named and labelled with the same positive number. */
  predicate IsOwn(base: string, c: Config) {
    VersionOf(c) >= 1 && c.name == VersionName(base, VersionOf(c))
  }

  predicate VersionLe(a: Config, b: Config) {
    VersionOf(a) <= VersionOf(b)
  }

  /** The configs whose name begins like a version of `base`, in the order of the daemon. */
  function Listed(items: seq<Config>, base: string): seq<Config> {
    if items == [] then []
    else if IsVersionOf(base, items[0]) then [items[0]] + Listed(items[1..], base)
    else Listed(items[1..], base)
  }

  /** The same, oldest first; what has the same number stays in the order of the daemon. */
  function Versions(items: seq<Config>, base: string): seq<Config> {
    Sort(Listed(items, base), VersionLe)
  }

  /** Names of versions begin alike and go on differently. */
  lemma VersionNames(base: string, a: int, b: int)
    ensures base + "_v" <= VersionName(base, a)
    ensures VersionName(base, a) == VersionName(base, b) ==> a == b
  {
    var x, y := VersionName(base, a), VersionName(base, b);
    assert x == (base + "_v") + Itoa(a) && y == (base + "_v") + Itoa(b);
    if x == y {
      assert Itoa(a) == x[|base + "_v"|..] == y[|base + "_v"|..] == Itoa(b);
      ItoaInjective(a, b);
    }
  }

  lemma {:induction false} ListedElements(items: seq<Config>, base: string)
    ensures forall c :: c in Listed(items, base) <==> c in items && IsVersionOf(base, c)
  {
    if items != [] {
      ListedElements(items[1..], base);
    }
  }

  lemma {:induction false} ListedSnoc(items: seq<Config>, c: Config, base: string)
    ensures Listed(items + [c], base) == Listed(items, base) + if IsVersionOf(base, c) then [c] else []
  {
    if items == [] {
      assert [] + [c] == [c] && [c][1..] == [];
    } else {
      ListedSnoc(items[1..], c, base);
      assert (items + [c])[0] == items[0] && (items + [c])[1..] == items[1..] + [c];
    }
  }

  /** The versions are the configs with such a name, in ascending order of their numbers. */
  lemma VersionsListed(items: seq<Config>, base: string)
    ensures forall c :: c in Versions(items, base) <==> c in items && IsVersionOf(base, c)
    ensures SortedBy(Versions(items, base), VersionLe)
  {
    ListedElements(items, base);
    SortElements(Listed(items, base), VersionLe);
    SortSorted(Listed(items, base), VersionLe);
  }

  lemma VersionOrder()
    ensures TotalPreorder(VersionLe)
  {
  }

  /** The number of a config is what its version label says, if that is a number that fits into a Go
      int, and otherwise 0. */
  ghost predicate ReadsAs(c: Config, n: int) {
    if "ansible_version" in c.labels && Atoi(c.labels["ansible_version"]).Some?
    then Atoi(c.labels["ansible_version"]) == Some(n)
    else n == 0
  }

  /** What `Versions` is: the configs with such a name, by their numbers; those with equal numbers are
      listed as the daemon lists them. */
  lemma VersionsAre(items: seq<Config>, base: string)
    ensures forall c :: c in Versions(items, base) <==> c in items && base + "_v" <= c.name
    ensures var versions := Versions(items, base);
      forall i, j, m, n :: 0 <= i < j < |versions| && ReadsAs(versions[i], m) && ReadsAs(versions[j], n) ==> m <= n
    ensures forall c :: Ties(Versions(items, base), c, VersionLe) == Ties(Listed(items, base), c, VersionLe)
    ensures forall a, b, m, n :: ReadsAs(a, m) && ReadsAs(b, n) ==> (Tie(a, b, VersionLe) <==> m == n)
  {
    VersionsListed(items, base);
    VersionOrder();
    forall c
      ensures Ties(Versions(items, base), c, VersionLe) == Ties(Listed(items, base), c, VersionLe)
    {
      SortTies(Listed(items, base), c, VersionLe);
    }
    forall c, n | ReadsAs(c, n)
      ensures n == VersionOf(c)
    {
    }
  }

  // ----- The daemon

  /** Ids and names are unique. */
  ghost predicate Distinct(items: seq<Config>) {
    forall i, j :: 0 <= i < j < |items| ==> items[i].id != items[j].id && items[i].name != items[j].name
  }

  /** The configs whose id is not `id`. */
  function Without(items: seq<Config>, id: nat): seq<Config> {
    if items == [] then []
    else if items[0].id == id then Without(items[1..], id)
    else [items[0]] + Without(items[1..], id)
  }

  /** The store after the given configs have been removed one after the other. */
  function WithoutAll(items: seq<Config>, removed: seq<Config>): seq<Config>
    decreases |removed|
  {
    if removed == [] then items else WithoutAll(Without(items, removed[0].id), removed[1..])
  }

  lemma {:induction false} WithoutElements(items: seq<Config>, id: nat)
    ensures forall c :: c in Without(items, id) <==> c in items && c.id != id
  {
    if items != [] {
      WithoutElements(items[1..], id);
    }
  }

  lemma {:induction false} WithoutDistinct(items: seq<Config>, id: nat)
    requires Distinct(items)
    ensures Distinct(Without(items, id))
  {
    if items != [] {
      WithoutDistinct(items[1..], id);
      WithoutElements(items[1..], id);
      var rest := Without(items[1..], id);
      forall j | 0 <= j < |rest|
        ensures rest[j].id != items[0].id && rest[j].name != items[0].name
      {
        assert rest[j] in items[1..];
        var k :| 0 <= k < |items[1..]| && items[1..][k] == rest[j];
        assert items[k + 1] == rest[j];
      }
    }
  }

  /** The removed configs are gone and all others stay. */
  lemma {:induction false} WithoutAllElements(items: seq<Config>, removed: seq<Config>)
    ensures forall c :: c in WithoutAll(items, removed) <==> c in items && forall r <- removed :: r.id != c.id
    decreases |removed|
  {
    if removed != [] {
      WithoutElements(items, removed[0].id);
      WithoutAllElements(Without(items, removed[0].id), removed[1..]);
      assert removed == [removed[0]] + removed[1..];
    }
  }

  lemma {:induction false} WithoutAllSnoc(items: seq<Config>, removed: seq<Config>, c: Config)
    ensures WithoutAll(items, removed + [c]) == Without(WithoutAll(items, removed), c.id)
    decreases |removed|
  {
    if removed == [] {
      assert [] + [c] == [c] && [c][1..] == [];
    } else {
      WithoutAllSnoc(Without(items, removed[0].id), removed[1..], c);
      assert (removed + [c])[0] == removed[0] && (removed + [c])[1..] == removed[1..] + [c];
    }
  }

  class Swarm {
    var items: seq<Config>
    var nextId: nat
    var inUse: set<nat>

    constructor (items: seq<Config>, nextId: nat)
      ensures this.items == items && this.nextId == nextId && this.inUse == {}
    {
      this.items, this.nextId, this.inUse := items, nextId, {};
    }

    /** What the daemon itself guarantees. */
    ghost predicate Valid()
      reads this
    {
      Distinct(items) && forall c :: c in items ==> c.id < nextId
    }

    method Create(name: string, labels: Labels, template: string, data: string) returns (created: Option<Config>)
      requires Valid()
      modifies this`items, this`nextId
      ensures Valid()
      ensures created.None? <==> exists c :: c in old(items) && c.name == name
      ensures created.None? ==> items == old(items) && nextId == old(nextId)
      ensures created.Some? ==> created.value == Config(old(nextId), name, labels, template, data)
      ensures created.Some? ==> items == old(items) + [created.value] && nextId == old(nextId) + 1
    {
      for i := 0 to |items|
        invariant forall k :: 0 <= k < i ==> items[k].name != name
      {
        if items[i].name == name {
          return None;
        }
      }
      var c := Config(nextId, name, labels, template, data);
      items, nextId := items + [c], nextId + 1;
      created := Some(c);
    }

    /** A config that some service uses cannot be removed. */
    method Remove(id: nat) returns (ok: bool)
      requires Valid()
      modifies this`items
      ensures Valid() && (ok <==> id !in inUse)
      ensures items == if ok then Without(old(items), id) else old(items)
    {
      if id in inUse {
        return false;
      }
      WithoutDistinct(items, id);
      WithoutElements(items, id);
      items := Without(items, id);
      ok := true;
    }
  }

  // ----- What one run does

  /** The newest version already is what the request asks for. */
  predicate Satisfies(req: Request, c: Config) {
    && (KEY_LABEL in c.labels ==> c.labels[KEY_LABEL] == req.dataKey)
    && c.template == req.template
    && (req.labels.None? || forall k <- req.labels.value :: k in c.labels && c.labels[k] == req.labels.value[k])
  }

  predicate NeedsNew(req: Request, versions: seq<Config>) {
    versions == [] || req.force || !Satisfies(req, versions[|versions| - 1])
  }

  function Newest(versions: seq<Config>): int {
    if versions == [] then 0 else VersionOf(versions[|versions| - 1])
  }

  /** Adding one to a Go int wraps around at the end of its range. */
  function NextVersion(versions: seq<Config>): int {
    if Newest(versions) == MAX_INT then MIN_INT else Newest(versions) + 1
  }

  /** The labels a new version gets: the request's own labels go over the two of the module. */
  function NewLabels(req: Request, version: int): Labels {
    var own := map[KEY_LABEL := req.dataKey, VERSION_LABEL := Itoa(version)];
    if req.labels.None? then own else own + req.labels.value
  }

  function NewConfig(req: Request, version: int, id: nat): Config {
    Config(id, VersionName(req.name, version), NewLabels(req, version), req.template, req.data)
  }

  predicate NameTaken(items: seq<Config>, name: string) {
    exists c <- items :: c.name == name
  }

  /** The run fails because the name of the next version is in the store already. */
  predicate Refused(req: Request, items: seq<Config>) {
    var versions := Versions(items, req.name);
    NeedsNew(req, versions) && NameTaken(items, VersionName(req.name, NextVersion(versions)))
  }

  /** The versions, and the store, after a possible creation and before any removal. */
  function Grown(req: Request, versions: seq<Config>, id: nat): seq<Config> {
    if NeedsNew(req, versions) then versions + [NewConfig(req, NextVersion(versions), id)] else versions
  }

  function GrownStore(req: Request, items: seq<Config>, id: nat): seq<Config> {
    var versions := Versions(items, req.name);
    if NeedsNew(req, versions) then items + [NewConfig(req, NextVersion(versions), id)] else items
  }

  function Keep(req: Request): nat {
    if req.versionsToKeep < 1 then 1 else req.versionsToKeep
  }

  /** How many of the oldest are to be removed; a negative number to keep keeps all. */
  function Excess(req: Request, all: seq<Config>): (n: nat)
    ensures n <= |all| && (all != [] ==> n < |all|)
  {
    if req.versionsToKeep < 0 || |all| <= Keep(req) then 0 else |all| - Keep(req)
  }

  /** The config has another template than requested, another key, or not every requested label; a
      config without a key is not taken for different. */
  ghost predicate Differs(req: Request, c: Config) {
    || c.template != req.template
    || ("ansible_key" in c.labels && c.labels["ansible_key"] != req.dataKey)
    || (req.labels.Some? && exists k <- req.labels.value :: k !in c.labels || c.labels[k] != req.labels.value[k])
  }

  ghost predicate Labelled(req: Request, labels: Labels, v: int) {
    var asked := if req.labels.Some? then req.labels.value else map[];
    && labels.Keys == asked.Keys + {"ansible_key", "ansible_version"}
    && (forall k <- asked :: labels[k] == asked[k])
    && ("ansible_key" !in asked ==> labels["ansible_key"] == req.dataKey)
    && ("ansible_version" !in asked ==> labels["ansible_version"] == Itoa(v))
  }

  /** A config that holds what is requested: its data and template, the next number in its name, and
      the labels, of which those requested go over the key and the number. */
  ghost predicate AsRequested(req: Request, versions: seq<Config>, c: Config) {
    && c.data == req.data && c.template == req.template
    && (exists v: int :: c.name == req.name + "_v" + Itoa(v) && Labelled(req, c.labels, v)
          && (versions == [] ==> v == 1)
          && (versions != [] ==>
                v == if VersionOf(versions[|versions| - 1]) == MAX_INT then MIN_INT
                     else VersionOf(versions[|versions| - 1]) + 1))
  }

  lemma NewIsAsRequested(req: Request, versions: seq<Config>, id: nat)
    ensures AsRequested(req, versions, NewConfig(req, NextVersion(versions), id))
  {
    var v := NextVersion(versions);
    assert Labelled(req, NewLabels(req, v), v);
  }

  lemma NewHasId(req: Request, v: int, id: nat)
    ensures NewConfig(req, v, id).id == id
  {
  }

  /** The version a run creates survives its removals, and is all that is new in the store. */
  lemma CreatedStays(req: Request, items: seq<Config>, id: nat, removed: nat)
    requires Distinct(items) && (forall c <- items :: c.id < id) && NeedsNew(req, Versions(items, req.name))
    requires var all := Grown(req, Versions(items, req.name), id); removed <= Excess(req, all)
    ensures var all := Grown(req, Versions(items, req.name), id);
      var after := WithoutAll(GrownStore(req, items, id), all[..removed]);
      exists c :: c in after && c !in items && AsRequested(req, Versions(items, req.name), c)
        && forall d <- after :: d in items || d == c
  {
    hide NeedsNew, NewConfig, Versions, WithoutAll, AsRequested, NextVersion;
    var versions := Versions(items, req.name);
    var c := NewConfig(req, NextVersion(versions), id);
    var all := versions + [c];
    NewHasId(req, NextVersion(versions), id);
    NewIsAsRequested(req, versions, id);
    VersionsListed(items, req.name);
    assert all[..removed] == versions[..removed];
    forall r <- all[..removed]
      ensures r.id != c.id
    {
      assert r in versions && r in items;
    }
    WithoutAllElements(items + [c], all[..removed]);
    assert c in items + [c] && c in WithoutAll(items + [c], all[..removed]);
  }

  class ConfigManager {
    const req: Request
    const swarm: Swarm
    var configs: seq<Config>
    var version: int
    var changed: bool

    constructor (req: Request, swarm: Swarm)
      ensures this.req == req && this.swarm == swarm
      ensures configs == [] && version == 0 && !changed
    {
      this.req, this.swarm, configs, version, changed := req, swarm, [], 0, false;
    }

    method GetConfigs()
      requires configs == []
      modifies this`configs
      ensures configs == Versions(swarm.items, req.name)
    {
      var prefix := req.name + "_v";
      for i := 0 to |swarm.items|
        invariant configs == Listed(swarm.items[..i], req.name)
      {
        if prefix <= swarm.items[i].name {
          configs := configs + [swarm.items[i]];
        }
        ListedSnoc(swarm.items[..i], swarm.items[i], req.name);
        assert swarm.items[..i + 1] == swarm.items[..i] + [swarm.items[i]];
      }
      assert swarm.items[..|swarm.items|] == swarm.items;
      configs := Sort(configs, VersionLe);
    }

    /** Creates the next version, which fails exactly when its name is taken. */
    method CreateConfig() returns (err: Option<ConfigError>)
      requires swarm.Valid() && version == Newest(configs)
      modifies this`configs, this`version, swarm`items, swarm`nextId
      ensures swarm.Valid()
      ensures req.checkMode ==> err.None? && configs == old(configs) && unchanged(swarm)
      ensures !req.checkMode ==>
        var next := NewConfig(req, NextVersion(old(configs)), old(swarm.nextId));
        if NameTaken(old(swarm.items), next.name)
        then err == Some(CreateFailed(next.name)) && configs == old(configs) && unchanged(swarm)
        else err.None? && configs == old(configs) + [next] && swarm.items == old(swarm.items) + [next]
      ensures !req.checkMode && err.None? ==> configs != [] && AsRequested(req, old(configs), configs[|configs| - 1])
    {
      NewIsAsRequested(req, configs, swarm.nextId);
      hide AsRequested;
      version := if version == MAX_INT then MIN_INT else version + 1;
      var labels := NewLabels(req, version);
      var name := VersionName(req.name, version);
      if req.checkMode {
        return None;
      }
      var created := swarm.Create(name, labels, req.template, req.data);
      if created.None? {
        return Some(CreateFailed(name));
      }
      configs := configs + [created.value];
      err := None;
    }

    method Present() returns (err: Option<ConfigError>)
      requires swarm.Valid() && version == 0 && !changed && configs == Versions(swarm.items, req.name)
      modifies this, swarm`items, swarm`nextId
      ensures swarm.Valid()
      ensures err.None? ==> (changed <==> NeedsNew(req, old(configs)))
      ensures req.checkMode ==> err.None? && configs == old(configs) && unchanged(swarm)
      ensures !req.checkMode ==>
        if Refused(req, old(swarm.items))
        then err == Some(CreateFailed(VersionName(req.name, NextVersion(old(configs))))) && unchanged(swarm)
        else
          && err.None? && configs == Grown(req, old(configs), old(swarm.nextId))
          && swarm.items == GrownStore(req, old(swarm.items), old(swarm.nextId))
      ensures !req.checkMode && err.None? && changed ==>
        configs != [] && AsRequested(req, old(configs), configs[|configs| - 1])
    {
      hide AsRequested, VersionOf, Versions, VersionName, NameTaken, NewLabels;
      if |configs| > 0 {
        var current := configs[|configs| - 1];
        var dataChanged := KEY_LABEL in current.labels && current.labels[KEY_LABEL] != req.dataKey;
        var templateChanged :=
          if current.template != "" then current.template != req.template else req.template != "";
        var labelsChanged := !(req.labels.None? ||
          forall k <- req.labels.value :: k in current.labels && current.labels[k] == req.labels.value[k]);
        version := VersionOf(current);
        if dataChanged || templateChanged || labelsChanged || req.force {
          err := CreateConfig();
          changed := err.None?;
        } else {
          err := None;
        }
        return;
      }
      changed := true;
      err := CreateConfig();
    }

    /** Removes the oldest one by one; it stops at one that is in use. */
    method RemoveOldVersions() returns (err: Option<ConfigError>, ghost removed: nat)
      requires swarm.Valid()
      modifies this`configs, swarm`items
      ensures swarm.Valid() && removed <= |old(configs)|
      ensures swarm.items == WithoutAll(old(swarm.items), old(configs)[..removed])
      ensures req.checkMode ==> err.None? && removed == 0 && unchanged(swarm)
      ensures !req.checkMode && err.None? ==> removed == Excess(req, old(configs))
      ensures err.Some? ==> removed < Excess(req, old(configs))
      ensures err.Some? ==>
        old(configs)[removed].id in swarm.inUse && err == Some(RemoveFailed(old(configs)[removed].name))
    {
      removed := 0;
      assert configs == configs[0..] && configs[..0] == [];
      if req.versionsToKeep < 0 || req.checkMode {
        return None, removed;
      }
      var keep := req.versionsToKeep;
      if keep < 1 {
        keep := 1;
      }
      while |configs| > keep
        invariant swarm.Valid() && removed <= |old(configs)| && configs == old(configs)[removed..]
        invariant removed <= Excess(req, old(configs))
        invariant swarm.items == WithoutAll(old(swarm.items), old(configs)[..removed])
        decreases |configs|
      {
        var oldest := configs[0];
        configs := configs[1..];
        var ok := swarm.Remove(oldest.id);
        if !ok {
          return Some(RemoveFailed(oldest.name)), removed;
        }
        assert old(configs)[..removed + 1] == old(configs)[..removed] + [oldest];
        WithoutAllSnoc(old(swarm.items), old(configs)[..removed], oldest);
        removed := removed + 1;
      }
      err := None;
    }

    /** One run of the module with the state "present" and rolling versions, on any store. */
    method Run() returns (r: Result<bool, ConfigError>, ghost removed: nat)
      requires swarm.Valid() && configs == [] && version == 0 && !changed
      modifies this, swarm`items, swarm`nextId
      ensures swarm.Valid()
      ensures r.Ok? ==> (r.value <==> NeedsNew(req, Versions(old(swarm.items), req.name)))
      ensures req.checkMode ==> unchanged(swarm) && r.Ok?
      ensures !req.checkMode ==> ((r.Err? && r.error.CreateFailed?) <==> Refused(req, old(swarm.items)))
      ensures !req.checkMode && Refused(req, old(swarm.items)) ==> unchanged(swarm)
      ensures !req.checkMode && !Refused(req, old(swarm.items)) ==>
        var all := Grown(req, Versions(old(swarm.items), req.name), old(swarm.nextId));
        && removed <= Excess(req, all) && (r.Ok? <==> removed == Excess(req, all))
        && swarm.items == WithoutAll(GrownStore(req, old(swarm.items), old(swarm.nextId)), all[..removed])
        && (r.Err? ==> all[removed].id in swarm.inUse)
      // The same in terms of the request.
      ensures r.Ok? ==>
        var versions := Versions(old(swarm.items), req.name);
        r.value <==> versions == [] || req.force || Differs(req, versions[|versions| - 1])
      ensures
        !req.checkMode && NeedsNew(req, Versions(old(swarm.items), req.name)) && !Refused(req, old(swarm.items)) ==>
        exists c :: c in swarm.items && c !in old(swarm.items)
          && AsRequested(req, Versions(old(swarm.items), req.name), c)
          && forall d <- swarm.items :: d in old(swarm.items) || d == c
      ensures r.Ok? && !req.checkMode ==>
        var grown := |Versions(old(swarm.items), req.name)| + if r.value then 1 else 0;
        var kept := if req.versionsToKeep < 1 then 1 else req.versionsToKeep;
        removed == if req.versionsToKeep < 0 || grown <= kept then 0 else grown - kept
    {
      hide Versions, WithoutAll, NameTaken, NewConfig, AsRequested;
      GetConfigs();
      ghost var items, id := swarm.items, swarm.nextId;
      var err := Present();
      removed := 0;
      if err.Some? {
        return Err(err.value), removed;
      }
      err, removed := RemoveOldVersions();
      if !req.checkMode && NeedsNew(req, Versions(items, req.name)) {
        CreatedStays(req, items, id, removed);
      }
      if err.Some? {
        return Err(err.value), removed;
      }
      r := Ok(changed);
    }
  }
}
