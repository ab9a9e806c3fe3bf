/** Comparing the published ports a container should have with the ones it has. The Docker port
    library's key normaliser and the address parser are the parameters `key` and `address`. */
module PortBindings {
  import opened Ordering

  datatype Binding = Binding(ip: string, port: string)

  type PortMap = map<string, seq<Binding>>

  // ----- Normal form

  function BindingIP(address: string -> string, ip: string): string {
    if ip == "" || ip == "0.0.0.0" then "" else address(ip)
  }

  function Canonical(address: string -> string, b: Binding): Binding {
    b.(ip := BindingIP(address, b.ip))
  }

  function CanonicalAll(address: string -> string, bs: seq<Binding>): (r: seq<Binding>)
    ensures |r| == |bs| && forall i :: 0 <= i < |r| ==> r[i] == Canonical(address, bs[i])
  {
    seq(|bs|, i requires 0 <= i < |bs| => Canonical(address, bs[i]))
  }

  /** Address first, then port. */
  predicate BindingLe(a: Binding, b: Binding) {
    if a.ip != b.ip then StringLe(a.ip, b.ip) else StringLe(a.port, b.port)
  }

  lemma BindingOrder()
    ensures TotalOrder(BindingLe)
  {
    StringOrder();
    forall a: Binding, b: Binding, c: Binding | BindingLe(a, b) && BindingLe(b, c)
      ensures BindingLe(a, c)
    {
      assert StringLe(a.ip, a.ip) && StringLe(a.ip, b.ip) && StringLe(b.ip, c.ip);
    }
  }

  function Normalized(address: string -> string, bs: seq<Binding>): seq<Binding> {
    Sort(CanonicalAll(address, bs), BindingLe)
  }

  /** The binding as Docker means it: an empty address and 0.0.0.0 are the same, any other address is
      parsed, and the port stays. */
  ghost predicate StandsFor(address: string -> string, b: Binding, c: Binding) {
    c.port == b.port && c.ip == if b.ip in {"", "0.0.0.0"} then "" else address(b.ip)
  }

  ghost predicate AddressThenPort(bs: seq<Binding>) {
    forall i, j :: 0 <= i < j < |bs| ==>
      StringLe(bs[i].ip, bs[j].ip) && (bs[i].ip == bs[j].ip ==> StringLe(bs[i].port, bs[j].port))
  }

  /** The canonical bindings of a list, one for each, by address and then by port. */
  ghost predicate InNormalForm(address: string -> string, bs: seq<Binding>, r: seq<Binding>) {
    AddressThenPort(r) && exists cs: seq<Binding> ::
      && |cs| == |bs| && multiset(r) == multiset(cs)
      && forall i :: 0 <= i < |bs| ==> StandsFor(address, bs[i], cs[i])
  }

  lemma InOrder(bs: seq<Binding>)
    requires SortedBy(bs, BindingLe)
    ensures AddressThenPort(bs)
  {
    hide StringLe;
    StringOrder();
  }

  lemma NormalizedIs(address: string -> string, bs: seq<Binding>)
    ensures InNormalForm(address, bs, Normalized(address, bs))
  {
    var cs := CanonicalAll(address, bs);
    BindingOrder();
    hide BindingLe, Sort, AddressThenPort;
    SortSorted(cs, BindingLe);
    SortElements(cs, BindingLe);
    InOrder(Sort(cs, BindingLe));
    assert forall i :: 0 <= i < |bs| ==> StandsFor(address, bs[i], cs[i]);
  }

  method NormalizeBindings(bs: seq<Binding>, address: string -> string) returns (r: seq<Binding>)
    ensures r == Normalized(address, bs) && InNormalForm(address, bs, r)
  {
    var sorted := new Binding[|bs|](i requires 0 <= i < |bs| => bs[i]);
    for index := 0 to sorted.Length
      invariant sorted[..index] == CanonicalAll(address, bs)[..index]
      invariant sorted[index..] == bs[index..]
    {
      assert sorted[index] == sorted[index..][0] && sorted[index + 1..] == sorted[index..][1..];
      sorted[index] := sorted[index].(ip := BindingIP(address, sorted[index].ip));
    }
    assert sorted[..] == CanonicalAll(address, bs);
    r := Sort(sorted[..], BindingLe);
    NormalizedIs(address, bs);
  }

  function Ports(pm: PortMap, key: string -> string): set<string> {
    set k <- pm.Keys :: key(k)
  }

  /** No two keys of the map name the same port. */
  ghost predicate DistinctPorts(pm: PortMap, key: string -> string) {
    forall j, k :: j in pm && k in pm && key(j) == key(k) ==> j == k
  }

  /** Each port has the normal form of the bindings of a key that names it: the only one, if the
      keys name distinct ports, and otherwise whichever came last. */
  ghost predicate IsNormalForm(r: PortMap, pm: PortMap, key: string -> string, address: string -> string) {
    && r.Keys == Ports(pm, key)
    && forall p <- r :: exists k <- pm :: key(k) == p && r[p] == Normalized(address, pm[k])
  }

  method NormalizePortBindings(pm: PortMap, key: string -> string, address: string -> string) returns (r: PortMap)
    ensures IsNormalForm(r, pm, key, address)
    ensures r.Keys == set k <- pm.Keys :: key(k)
    ensures forall p <- r :: exists k <- pm :: key(k) == p && InNormalForm(address, pm[k], r[p])
  {
    hide InNormalForm;
    r := map[];
    var todo := pm.Keys;
    while todo != {}
      invariant todo <= pm.Keys
      invariant r.Keys == set k <- pm.Keys - todo :: key(k)
      invariant forall p <- r :: exists k <- pm ::
        key(k) == p && r[p] == Normalized(address, pm[k]) && InNormalForm(address, pm[k], r[p])
      decreases todo
    {
      var k :| k in todo;
      var bindings := NormalizeBindings(pm[k], address);
      r := r[key(k) := bindings];
      todo := todo - {k};
    }
  }

  // ----- The comparison

  /** An empty desired port leaves the choice to Docker, so it matches every port. */
  predicate Matches(address: string -> string, d: Binding, c: Binding) {
    BindingIP(address, d.ip) == BindingIP(address, c.ip) && (d.port == "" || d.port == c.port)
  }

  /** Whatever the two bindings stand for has one address, and the desired port is that of the other or
      none. */
  lemma MatchesMeans(address: string -> string, d: Binding, c: Binding)
    ensures Matches(address, d, c) <==>
      && (d.port == "" || d.port == c.port)
      && (forall x, y :: StandsFor(address, d, x) && StandsFor(address, c, y) ==> x.ip == y.ip)
  {
    assert StandsFor(address, d, Canonical(address, d)) && StandsFor(address, c, Canonical(address, c));
  }

  predicate ListsMatch(address: string -> string, ds: seq<Binding>, cs: seq<Binding>) {
    |ds| == |cs| && forall i :: 0 <= i < |ds| ==> Matches(address, ds[i], cs[i])
  }

  method CompareLists(ds: seq<Binding>, cs: seq<Binding>, address: string -> string) returns (same: bool)
    ensures same == ListsMatch(address, ds, cs)
  {
    if |ds| != |cs| {
      return false;
    }
    for i := 0 to |ds|
      invariant forall k :: 0 <= k < i ==> Matches(address, ds[k], cs[k])
    {
      if BindingIP(address, ds[i].ip) != BindingIP(address, cs[i].ip) {
        return false;
      }
      if ds[i].port != "" && ds[i].port != cs[i].port {
        return false;
      }
    }
    return true;
  }

  /** The normal forms of the bindings of `k` in the one map and of `j` in the other agree. */
  predicate SameBindings(desired: PortMap, current: PortMap, address: string -> string, k: string, j: string)
    requires k in desired && j in current
  {
    ListsMatch(address, Normalized(address, desired[k]), Normalized(address, current[j]))
  }

  ghost predicate Agree(desired: PortMap, current: PortMap, strict: bool, key: string -> string,
                        address: string -> string)
  {
    && (strict ==> |desired| == |current|)
    && (forall k <- desired :: exists j <- current :: key(j) == key(k) && SameBindings(desired, current, address, k, j))
  }

  /** What the comparison finds on two normal forms. */
  ghost predicate FormsMatch(d: PortMap, c: PortMap, address: string -> string) {
    forall p <- d :: p in c && ListsMatch(address, d[p], c[p])
  }

  /** Comparing the normal forms port by port decides agreement. */
  lemma NormalFormsAgree(desired: PortMap, current: PortMap, strict: bool, key: string -> string,
                         address: string -> string, d: PortMap, c: PortMap)
    requires IsNormalForm(d, desired, key, address) && IsNormalForm(c, current, key, address)
    requires strict ==> |desired| == |current|
    ensures DistinctPorts(desired, key) && DistinctPorts(current, key) ==>
      (FormsMatch(d, c, address) <==> Agree(desired, current, strict, key, address))
  {
    hide ListsMatch, Normalized;
    if DistinctPorts(desired, key) && DistinctPorts(current, key) {
      forall k <- desired
        ensures key(k) in d && d[key(k)] == Normalized(address, desired[k])
      {
        assert key(k) in Ports(desired, key);
      }
      forall j <- current
        ensures key(j) in c && c[key(j)] == Normalized(address, current[j])
      {
        assert key(j) in Ports(current, key);
      }
    }
  }

  method ComparePortBindings(desired: PortMap, current: PortMap, strict: bool, key: string -> string,
                             address: string -> string)
    returns (same: bool, ghost d: PortMap, ghost c: PortMap)
    ensures strict && |desired| != |current| ==> !same
    ensures !(strict && |desired| != |current|) ==>
      && IsNormalForm(d, desired, key, address) && IsNormalForm(c, current, key, address)
      && same == FormsMatch(d, c, address)
    ensures DistinctPorts(desired, key) && DistinctPorts(current, key) ==>
      same == Agree(desired, current, strict, key, address)
  {
    if strict && |desired| != |current| {
      return false, map[], map[];
    }
    hide IsNormalForm, ListsMatch, DistinctPorts, Agree;
    var normDesired := NormalizePortBindings(desired, key, address);
    var normCurrent := NormalizePortBindings(current, key, address);
    d, c := normDesired, normCurrent;
    NormalFormsAgree(desired, current, strict, key, address, d, c);
    var todo := normDesired.Keys;
    while todo != {}
      invariant todo <= normDesired.Keys
      invariant forall p <- normDesired.Keys - todo ::
        p in normCurrent && ListsMatch(address, normDesired[p], normCurrent[p])
      decreases todo
    {
      var p :| p in todo;
      if p !in normCurrent {
        return false, d, c;
      }
      var agrees := CompareLists(normDesired[p], normCurrent[p], address);
      if !agrees {
        return false, d, c;
      }
      todo := todo - {p};
    }
    return true, d, c;
  }

  // ----- Keys that name the same port

  /** The normal form for which the key `last` comes last among those that name its port. */
  ghost function FormWith(pm: PortMap, key: string -> string, address: string -> string, last: string): (r: PortMap)
    requires last in pm
    ensures IsNormalForm(r, pm, key, address) && r[key(last)] == Normalized(address, pm[last])
  {
    assert key(last) in Ports(pm, key);
    map p | p in Ports(pm, key) ::
      if p == key(last) then Normalized(address, pm[last])
      else
        var k :| k in pm && key(k) == p;
        Normalized(address, pm[k])
  }

  lemma AnyForm(pm: PortMap, key: string -> string, address: string -> string)
    ensures exists r :: IsNormalForm(r, pm, key, address)
  {
    if pm == map[] {
      assert IsNormalForm(map[], pm, key, address);
    } else {
      var k :| k in pm;
      assert IsNormalForm(FormWith(pm, key, address, k), pm, key, address);
    }
  }

  /** All keys that name a desired port agree with all that name it in the current map. */
  ghost predicate AlwaysAgree(desired: PortMap, current: PortMap, key: string -> string, address: string -> string) {
    forall k <- desired ::
      key(k) in Ports(current, key)
      && forall j <- current :: key(j) == key(k) ==> SameBindings(desired, current, address, k, j)
  }

  /** Where two keys name one port, the order in which the map is visited may decide.  The answer
      is positive in every order exactly when all those keys agree. */
  lemma AnswerInEveryOrder(desired: PortMap, current: PortMap, key: string -> string, address: string -> string)
    ensures
      (forall d, c :: IsNormalForm(d, desired, key, address) && IsNormalForm(c, current, key, address) ==>
         FormsMatch(d, c, address))
      <==> AlwaysAgree(desired, current, key, address)
  {
    hide ListsMatch, Normalized;
    if AlwaysAgree(desired, current, key, address) {
      forall d: PortMap, c: PortMap |
        IsNormalForm(d, desired, key, address) && IsNormalForm(c, current, key, address)
        ensures FormsMatch(d, c, address)
      {
      }
    } else {
      var k :| k in desired && !(key(k) in Ports(current, key)
        && forall j <- current :: key(j) == key(k) ==> SameBindings(desired, current, address, k, j));
      var d := FormWith(desired, key, address, k);
      assert key(k) in Ports(desired, key);
      if key(k) in Ports(current, key) {
        var j :| j in current && key(j) == key(k) && !SameBindings(desired, current, address, k, j);
        assert !FormsMatch(d, FormWith(current, key, address, j), address);
      } else {
        AnyForm(current, key, address);
        var c :| IsNormalForm(c, current, key, address);
        assert !FormsMatch(d, c, address);
      }
    }
  }

  /** Two keys that name this port, one in each map, agree. */
  ghost predicate AgreeAt(desired: PortMap, current: PortMap, key: string -> string, address: string -> string,
                          p: string, k: string, j: string) {
    k in desired && j in current && key(k) == p && key(j) == p && SameBindings(desired, current, address, k, j)
  }

  ghost predicate SometimesAgree(desired: PortMap, current: PortMap, key: string -> string, address: string -> string) {
    forall p <- Ports(desired, key) :: exists k, j :: AgreeAt(desired, current, key, address, p, k, j)
  }

  ghost function AgreeingKeys(desired: PortMap, current: PortMap, key: string -> string, address: string -> string,
                              p: string): (keys: (string, string))
    requires exists k, j :: AgreeAt(desired, current, key, address, p, k, j)
    ensures AgreeAt(desired, current, key, address, p, keys.0, keys.1)
  {
    var k, j :| AgreeAt(desired, current, key, address, p, k, j);
    (k, j)
  }

  ghost predicate MatchingForms(desired: PortMap, current: PortMap, key: string -> string, address: string -> string,
                                d: PortMap, c: PortMap) {
    IsNormalForm(d, desired, key, address) && IsNormalForm(c, current, key, address) && FormsMatch(d, c, address)
  }

  ghost function DesiredForm(desired: PortMap, current: PortMap, key: string -> string, address: string -> string):
    (d: PortMap)
    requires SometimesAgree(desired, current, key, address)
    ensures d.Keys == Ports(desired, key)
    ensures forall p <- d :: d[p] == Normalized(address, desired[AgreeingKeys(desired, current, key, address, p).0])
  {
    map p | p in Ports(desired, key) ::
      Normalized(address, desired[AgreeingKeys(desired, current, key, address, p).0])
  }

  ghost function CurrentForm(desired: PortMap, current: PortMap, key: string -> string, address: string -> string,
                             other: PortMap): (c: PortMap)
    requires SometimesAgree(desired, current, key, address) && other.Keys == Ports(current, key)
    ensures c.Keys == Ports(current, key)
    ensures forall p <- c ::
      (p in Ports(desired, key) ==>
         c[p] == Normalized(address, current[AgreeingKeys(desired, current, key, address, p).1]))
      && (p !in Ports(desired, key) ==> c[p] == other[p])
  {
    map p | p in Ports(current, key) ::
      if p in Ports(desired, key)
      then Normalized(address, current[AgreeingKeys(desired, current, key, address, p).1])
      else other[p]
  }

  lemma FormsThatMatch(desired: PortMap, current: PortMap, key: string -> string, address: string -> string)
    requires SometimesAgree(desired, current, key, address)
    ensures exists d, c :: MatchingForms(desired, current, key, address, d, c)
  {
    hide ListsMatch, Normalized, DesiredForm, CurrentForm, AgreeingKeys;
    AnyForm(current, key, address);
    var other :| IsNormalForm(other, current, key, address);
    var d := DesiredForm(desired, current, key, address);
    var c := CurrentForm(desired, current, key, address, other);
    hide SometimesAgree;
    forall p <- d
      ensures p in c && ListsMatch(address, d[p], c[p])
    {
      var keys := AgreeingKeys(desired, current, key, address, p);
      assert key(keys.1) in Ports(current, key);
    }
    assert FormsMatch(d, c, address);
    assert IsNormalForm(d, desired, key, address);
    assert IsNormalForm(c, current, key, address);
    assert MatchingForms(desired, current, key, address, d, c);
  }

  /** And in some order exactly when for each desired port two of them agree. */
  lemma AnswerInSomeOrder(desired: PortMap, current: PortMap, key: string -> string, address: string -> string)
    ensures (exists d, c :: MatchingForms(desired, current, key, address, d, c))
      <==> SometimesAgree(desired, current, key, address)
  {
    hide ListsMatch, Normalized;
    if d, c :| MatchingForms(desired, current, key, address, d, c) {
      forall p <- Ports(desired, key)
        ensures exists k, j :: AgreeAt(desired, current, key, address, p, k, j)
      {
        var k :| k in desired && key(k) == p && d[p] == Normalized(address, desired[k]);
        var j :| j in current && key(j) == p && c[p] == Normalized(address, current[j]);
        assert AgreeAt(desired, current, key, address, p, k, j);
      }
    }
    if SometimesAgree(desired, current, key, address) {
      FormsThatMatch(desired, current, key, address);
    }
  }

  // ----- What a comparison of sorted lists means

  ghost predicate Pairs(ds: seq<Binding>, cs: seq<Binding>, address: string -> string, desired: seq<Binding>,
                        current: seq<Binding>) {
    && multiset(ds) == multiset(CanonicalAll(address, desired))
    && multiset(cs) == multiset(CanonicalAll(address, current))
    && ListsMatch(address, ds, cs)
  }

  /** Every desired binding has a current binding of its own that matches it. */
  ghost predicate OneToOne(address: string -> string, desired: seq<Binding>, current: seq<Binding>) {
    exists ds, cs :: Pairs(ds, cs, address, desired, current)
  }

  /** On each address, ports left to Docker are paired with the least of the current ports. */
  ghost predicate LeastFirst(ds: seq<Binding>, cs: seq<Binding>)
    requires |ds| == |cs|
  {
    forall i, j :: 0 <= i < |ds| && 0 <= j < |ds| && ds[i].ip == ds[j].ip && ds[i].port == "" && ds[j].port != ""
      ==> StringLe(cs[i].port, cs[j].port)
  }

  /** Pairs with a greater desired binding do not have a smaller current one. */
  ghost predicate InStep(ds: seq<Binding>, cs: seq<Binding>)
    requires |ds| == |cs|
  {
    forall i, j :: 0 <= i < |ds| && 0 <= j < |ds| && ds[i] != ds[j] && BindingLe(ds[i], ds[j]) ==>
      BindingLe(cs[i], cs[j])
  }

  ghost predicate OneToOneInStep(address: string -> string, desired: seq<Binding>, current: seq<Binding>) {
    exists ds, cs :: Pairs(ds, cs, address, desired, current) && InStep(ds, cs)
  }

  ghost predicate OneToOneLeastFirst(address: string -> string, desired: seq<Binding>, current: seq<Binding>) {
    exists ds, cs :: Pairs(ds, cs, address, desired, current) && LeastFirst(ds, cs)
  }

  /** Addresses are normalised once before the lists are sorted and once more when they are
      compared: the second time does not make these two equal if they were different after the
      first. */
  predicate Apart(address: string -> string, x: string, y: string) {
    BindingIP(address, BindingIP(address, x)) == BindingIP(address, BindingIP(address, y)) ==>
      BindingIP(address, x) == BindingIP(address, y)
  }

  ghost predicate TellsApart(address: string -> string, desired: seq<Binding>, current: seq<Binding>) {
    forall d <- desired, c <- current :: Apart(address, d.ip, c.ip)
  }

  lemma SameAddresses(address: string -> string, desired: seq<Binding>, current: seq<Binding>, ds: seq<Binding>,
                      cs: seq<Binding>)
    requires TellsApart(address, desired, current) && Pairs(ds, cs, address, desired, current)
    ensures forall i :: 0 <= i < |ds| ==> ds[i].ip == cs[i].ip
  {
    forall i | 0 <= i < |ds|
      ensures ds[i].ip == cs[i].ip
    {
      assert Matches(address, ds[i], cs[i]);
      assert ds[i] in multiset(CanonicalAll(address, desired)) && cs[i] in multiset(CanonicalAll(address, current));
      var a :| 0 <= a < |desired| && CanonicalAll(address, desired)[a] == ds[i];
      var b :| 0 <= b < |current| && CanonicalAll(address, current)[b] == cs[i];
      assert desired[a] in desired && current[b] in current;
    }
  }

  // Sorting the pairs of a pairing.

  predicate PairLe(a: (Binding, Binding), b: (Binding, Binding)) {
    if a.0 != b.0 then BindingLe(a.0, b.0) else BindingLe(a.1, b.1)
  }

  lemma PairOrder()
    ensures TotalOrder(PairLe)
  {
    hide BindingLe;
    BindingOrder();
    forall a: (Binding, Binding), b: (Binding, Binding), c: (Binding, Binding) | PairLe(a, b) && PairLe(b, c)
      ensures PairLe(a, c)
    {
      assert BindingLe(a.0, a.0) && BindingLe(a.0, b.0) && BindingLe(b.0, c.0);
    }
  }

  function Map<A, B>(f: A -> B, s: seq<A>): (r: seq<B>)
    ensures |r| == |s| && forall i :: 0 <= i < |s| ==> r[i] == f(s[i])
  {
    seq(|s|, i requires 0 <= i < |s| => f(s[i]))
  }

  lemma MapCons<A, B>(f: A -> B, x: A, s: seq<A>)
    ensures Map(f, [x] + s) == [f(x)] + Map(f, s)
  {
  }

  lemma {:induction false} MapInsert<A(!new), B>(f: A -> B, x: A, s: seq<A>, le: (A, A) -> bool)
    ensures multiset(Map(f, Insert(x, s, le))) == multiset(Map(f, s)) + multiset{f(x)}
  {
    hide Map;
    if s == [] || le(x, s[0]) {
      assert s == [] ==> [x] + s == [x];
      MapCons(f, x, s);
    } else {
      MapInsert(f, x, s[1..], le);
      assert s == [s[0]] + s[1..];
      MapCons(f, s[0], s[1..]);
      MapCons(f, s[0], Insert(x, s[1..], le));
    }
  }

  /** A projection of a sorted list holds what the projection of the list held. */
  lemma {:induction false} MapSort<A(!new), B>(f: A -> B, s: seq<A>, le: (A, A) -> bool)
    ensures multiset(Map(f, Sort(s, le))) == multiset(Map(f, s))
  {
    hide Map;
    if s != [] {
      MapSort(f, s[1..], le);
      MapInsert(f, s[0], Sort(s[1..], le), le);
      assert s == [s[0]] + s[1..];
      MapCons(f, s[0], s[1..]);
    }
  }

  /** Sorting a pairing in step by its desired side sorts its current side as well. */
  lemma SortedTogether(s: seq<(Binding, Binding)>)
    requires SortedBy(s, PairLe)
    requires forall p <- s, q <- s :: p.0 != q.0 && BindingLe(p.0, q.0) ==> BindingLe(p.1, q.1)
    ensures SortedBy(Map((p: (Binding, Binding)) => p.0, s), BindingLe)
    ensures SortedBy(Map((p: (Binding, Binding)) => p.1, s), BindingLe)
  {
    BindingOrder();
    hide BindingLe;
    forall i, j | 0 <= i < j < |s|
      ensures BindingLe(s[i].0, s[j].0) && BindingLe(s[i].1, s[j].1)
    {
      assert PairLe(s[i], s[j]) && s[i] in s && s[j] in s;
      assert BindingLe(s[i].0, s[i].0);
    }
  }

  lemma IsNormalized(address: string -> string, bs: seq<Binding>, s: seq<Binding>)
    requires SortedBy(s, BindingLe) && multiset(s) == multiset(CanonicalAll(address, bs))
    ensures s == Normalized(address, bs)
  {
    BindingOrder();
    SortSorted(CanonicalAll(address, bs), BindingLe);
    SortElements(CanonicalAll(address, bs), BindingLe);
    SortedUnique(s, Normalized(address, bs), BindingLe);
  }

  lemma InStepIsSorted(address: string -> string, desired: seq<Binding>, current: seq<Binding>, ds: seq<Binding>,
                       cs: seq<Binding>)
    requires Pairs(ds, cs, address, desired, current) && InStep(ds, cs)
    ensures ListsMatch(address, Normalized(address, desired), Normalized(address, current))
  {
    hide BindingLe, PairLe, Sort, Normalized;
    var n := |ds|;
    var pairs := seq(n, i requires 0 <= i < n => (ds[i], cs[i]));
    var s := Sort(pairs, PairLe);
    var first, second := (p: (Binding, Binding)) => p.0, (p: (Binding, Binding)) => p.1;
    PairOrder();
    SortSorted(pairs, PairLe);
    SortElements(pairs, PairLe);
    SortedTogether(s);
    MapSort(first, pairs, PairLe);
    MapSort(second, pairs, PairLe);
    assert Map(first, pairs) == ds && Map(second, pairs) == cs;
    IsNormalized(address, desired, Map(first, s));
    IsNormalized(address, current, Map(second, s));
    forall i | 0 <= i < n
      ensures Matches(address, Map(first, s)[i], Map(second, s)[i])
    {
      assert s[i] in pairs;
    }
  }

  lemma SortedInStep(address: string -> string, ds: seq<Binding>, cs: seq<Binding>)
    requires ListsMatch(address, ds, cs) && SortedBy(ds, BindingLe) && SortedBy(cs, BindingLe)
    ensures InStep(ds, cs)
  {
    BindingOrder();
    hide BindingLe;
    forall i, j | 0 <= i < |ds| && 0 <= j < |ds| && ds[i] != ds[j] && BindingLe(ds[i], ds[j])
      ensures BindingLe(cs[i], cs[j])
    {
      assert !BindingLe(ds[j], ds[i]);
      assert i < j;
    }
  }

  /** Whatever the addresses, the sorted lists match exactly when the bindings pair off one to one
      and in step. */
  lemma MatchIsPairing(address: string -> string, desired: seq<Binding>, current: seq<Binding>)
    ensures ListsMatch(address, Normalized(address, desired), Normalized(address, current))
      <==> OneToOneInStep(address, desired, current)
  {
    hide BindingLe;
    var ds, cs := Normalized(address, desired), Normalized(address, current);
    if ListsMatch(address, ds, cs) {
      SortElements(CanonicalAll(address, desired), BindingLe);
      SortElements(CanonicalAll(address, current), BindingLe);
      BindingOrder();
      SortSorted(CanonicalAll(address, desired), BindingLe);
      SortSorted(CanonicalAll(address, current), BindingLe);
      SortedInStep(address, ds, cs);
      assert Pairs(ds, cs, address, desired, current);
    }
    if OneToOneInStep(address, desired, current) {
      var ds': seq<Binding>, cs': seq<Binding> :| Pairs(ds', cs', address, desired, current) && InStep(ds', cs');
      InStepIsSorted(address, desired, current, ds', cs');
    }
  }

  lemma LeastFirstIsInStep(address: string -> string, desired: seq<Binding>, current: seq<Binding>, ds: seq<Binding>,
                           cs: seq<Binding>)
    requires TellsApart(address, desired, current)
    requires Pairs(ds, cs, address, desired, current) && LeastFirst(ds, cs)
    ensures InStep(ds, cs)
  {
    StringOrder();
    SameAddresses(address, desired, current, ds, cs);
    forall i, j | 0 <= i < |ds| && 0 <= j < |ds| && ds[i] != ds[j] && BindingLe(ds[i], ds[j])
      ensures BindingLe(cs[i], cs[j])
    {
      assert Matches(address, ds[i], cs[i]) && Matches(address, ds[j], cs[j]);
    }
  }

  lemma RandomComesFirst(ds: seq<Binding>, i: nat, j: nat)
    requires i < |ds| && j < |ds| && SortedBy(ds, BindingLe)
    requires ds[i].ip == ds[j].ip && ds[i].port == "" && ds[j].port != ""
    ensures i < j
  {
    assert !BindingLe(ds[j], ds[i]);
  }

  /** Where addresses are told apart, the sorted lists match exactly when the bindings pair off one to one,
      with the ports left to Docker taking the least current ports of their address. */
  lemma MatchIsLeastFirst(address: string -> string, desired: seq<Binding>, current: seq<Binding>)
    requires TellsApart(address, desired, current)
    ensures ListsMatch(address, Normalized(address, desired), Normalized(address, current))
      <==> OneToOneLeastFirst(address, desired, current)
  {
    var ds, cs := Normalized(address, desired), Normalized(address, current);
    if ListsMatch(address, ds, cs) {
      SortElements(CanonicalAll(address, desired), BindingLe);
      SortElements(CanonicalAll(address, current), BindingLe);
      BindingOrder();
      SortSorted(CanonicalAll(address, desired), BindingLe);
      SortSorted(CanonicalAll(address, current), BindingLe);
      SameAddresses(address, desired, current, ds, cs);
      forall i, j | 0 <= i < |ds| && 0 <= j < |ds| && ds[i].ip == ds[j].ip && ds[i].port == "" && ds[j].port != ""
        ensures StringLe(cs[i].port, cs[j].port)
      {
        RandomComesFirst(ds, i, j);
        assert BindingLe(cs[i], cs[j]);
      }
      assert Pairs(ds, cs, address, desired, current) && LeastFirst(ds, cs);
    }
    if OneToOneLeastFirst(address, desired, current) {
      var ds': seq<Binding>, cs': seq<Binding> :| Pairs(ds', cs', address, desired, current) && LeastFirst(ds', cs');
      LeastFirstIsInStep(address, desired, current, ds', cs');
      InStepIsSorted(address, desired, current, ds', cs');
    }
  }

  // ----- Main results

  predicate Explicit(bs: seq<Binding>) {
    forall b <- bs :: b.port != ""
  }

  /** No address asks for a port of Docker's choice beside a port of its own. */
  predicate Unmixed(address: string -> string, bs: seq<Binding>) {
    forall a <- bs, b <- bs :: BindingIP(address, a.ip) == BindingIP(address, b.ip) && a.port == "" ==> b.port == ""
  }

  lemma EqualIfMatching(address: string -> string, ds: seq<Binding>, cs: seq<Binding>)
    requires ListsMatch(address, ds, cs) && Explicit(ds) && forall i :: 0 <= i < |ds| ==> ds[i].ip == cs[i].ip
    ensures ds == cs
  {
    forall i | 0 <= i < |ds|
      ensures ds[i] == cs[i]
    {
      assert Matches(address, ds[i], cs[i]) && ds[i] in ds;
    }
  }

  lemma NormalizedExplicit(address: string -> string, bs: seq<Binding>)
    requires Explicit(bs)
    ensures Explicit(Normalized(address, bs))
  {
    var all := CanonicalAll(address, bs);
    SortElements(all, BindingLe);
    forall b <- Normalized(address, bs)
      ensures b.port != ""
    {
      assert b in multiset(all);
      var i :| 0 <= i < |all| && all[i] == b;
      assert bs[i] in bs;
    }
  }

  lemma EqualMatches(address: string -> string, ds: seq<Binding>)
    ensures ListsMatch(address, ds, ds)
  {
  }

  /** With explicit ports, the order of the bindings never matters. */
  lemma ExplicitIsMultisetEquality(address: string -> string, desired: seq<Binding>, current: seq<Binding>)
    requires TellsApart(address, desired, current) && Explicit(desired)
    ensures ListsMatch(address, Normalized(address, desired), Normalized(address, current))
      <==> multiset(CanonicalAll(address, desired)) == multiset(CanonicalAll(address, current))
  {
    hide ListsMatch, TellsApart, Explicit, BindingLe, CanonicalAll;
    var ds, cs := Normalized(address, desired), Normalized(address, current);
    SortElements(CanonicalAll(address, desired), BindingLe);
    SortElements(CanonicalAll(address, current), BindingLe);
    BindingOrder();
    SortCanonical(CanonicalAll(address, desired), CanonicalAll(address, current), BindingLe);
    EqualMatches(address, ds);
    if ListsMatch(address, ds, cs) {
      SameAddresses(address, desired, current, ds, cs);
      NormalizedExplicit(address, desired);
      EqualIfMatching(address, ds, cs);
    }
  }

  lemma UnmixedIsLeastFirst(address: string -> string, desired: seq<Binding>, current: seq<Binding>,
                            ds: seq<Binding>, cs: seq<Binding>)
    requires Unmixed(address, desired) && Pairs(ds, cs, address, desired, current)
    ensures |ds| == |cs| && LeastFirst(ds, cs)
  {
    var all := CanonicalAll(address, desired);
    SameElements(ds, all);
    forall i, j | 0 <= i < |ds| && 0 <= j < |ds| && ds[i].ip == ds[j].ip && ds[i].port == ""
      ensures ds[j].port == ""
    {
      assert ds[i] in all && ds[j] in all;
      var a :| 0 <= a < |all| && all[a] == ds[i];
      var b :| 0 <= b < |all| && all[b] == ds[j];
      assert desired[a] in desired && desired[b] in desired;
    }
  }

  /** Whatever the addresses and ports, a positive answer comes from a one-to-one pairing. */
  lemma TrueAnswerPairs(address: string -> string, desired: seq<Binding>, current: seq<Binding>)
    requires ListsMatch(address, Normalized(address, desired), Normalized(address, current))
    ensures OneToOne(address, desired, current)
  {
    hide ListsMatch;
    SortElements(CanonicalAll(address, desired), BindingLe);
    SortElements(CanonicalAll(address, current), BindingLe);
    assert Pairs(Normalized(address, desired), Normalized(address, current), address, desired, current);
  }

  /** When no address mixes chosen and unchosen ports, the comparison finds a one-to-one pairing
      whenever there is one. */
  lemma UnmixedFindsPairing(address: string -> string, desired: seq<Binding>, current: seq<Binding>)
    requires TellsApart(address, desired, current) && Unmixed(address, desired)
    ensures ListsMatch(address, Normalized(address, desired), Normalized(address, current))
      <==> OneToOne(address, desired, current)
  {
    hide ListsMatch, Normalized;
    MatchIsLeastFirst(address, desired, current);
    if OneToOne(address, desired, current) {
      var ds: seq<Binding>, cs: seq<Binding> :| Pairs(ds, cs, address, desired, current);
      UnmixedIsLeastFirst(address, desired, current, ds, cs);
    }
  }

  ghost predicate From(bs: seq<Binding>, ips: set<string>) {
    forall b <- bs :: b.ip in ips
  }

  ghost predicate FindsPairing(address: string -> string, desired: seq<Binding>, current: seq<Binding>) {
    ListsMatch(address, Normalized(address, desired), Normalized(address, current))
    <==> OneToOne(address, desired, current)
  }

  lemma SwappedForms(address: string -> string, x: string, y: string, p: string, q: string)
    requires BindingIP(address, x) != BindingIP(address, y) && StringLe(BindingIP(address, x), BindingIP(address, y))
    ensures var bs, normal := [Binding(x, p), Binding(y, q)],
                              [Binding(BindingIP(address, x), p), Binding(BindingIP(address, y), q)];
      CanonicalAll(address, bs) == normal && Normalized(address, bs) == normal
  {
    hide BindingIP, Normalized;
    var bs, normal := [Binding(x, p), Binding(y, q)],
                      [Binding(BindingIP(address, x), p), Binding(BindingIP(address, y), q)];
    assert CanonicalAll(address, bs) == normal;
    assert BindingLe(normal[0], normal[1]);
    hide BindingLe;
    IsNormalized(address, bs, normal);
  }

  lemma Swapped(address: string -> string, x: string, y: string, p: string, q: string)
    requires !Apart(address, x, y) && StringLe(BindingIP(address, x), BindingIP(address, y)) && p != "" && p != q
    ensures !FindsPairing(address, [Binding(x, p), Binding(y, q)], [Binding(x, q), Binding(y, p)])
  {
    hide BindingIP, Normalized, CanonicalAll, StringLe;
    var desired, current := [Binding(x, p), Binding(y, q)], [Binding(x, q), Binding(y, p)];
    SwappedForms(address, x, y, p, q);
    SwappedForms(address, x, y, q, p);
    var ds, cs := Normalized(address, desired), Normalized(address, current);
    assert !Matches(address, ds[0], cs[0]);
    assert cs == [cs[0]] + [cs[1]] && [cs[1], cs[0]] == [cs[1]] + [cs[0]];
    assert Pairs(ds, [cs[1], cs[0]], address, desired, current);
  }

  lemma ApartEitherWay(address: string -> string, x: string, y: string)
    ensures Apart(address, x, y) <==> Apart(address, y, x)
  {
  }

  lemma ApartFindsPairing(address: string -> string, desired: seq<Binding>, current: seq<Binding>)
    requires TellsApart(address, desired, current) && Unmixed(address, desired)
    ensures FindsPairing(address, desired, current)
  {
    hide ListsMatch, Normalized, OneToOne;
    UnmixedFindsPairing(address, desired, current);
  }

  /** The condition on the addresses is exact: the comparison finds a pairing whenever there is one,
      for all bindings with the given addresses that do not mix chosen and unchosen ports, exactly
      when those addresses are told apart. */
  lemma AddressesToldApart(address: string -> string, ips: set<string>)
    ensures
      (forall desired, current :: From(desired, ips) && From(current, ips) && Unmixed(address, desired) ==>
         FindsPairing(address, desired, current))
      <==> forall x <- ips, y <- ips :: Apart(address, x, y)
  {
    hide ListsMatch, Normalized, OneToOne, BindingIP, Apart, FindsPairing;
    if x, y :| x in ips && y in ips && !Apart(address, x, y) {
      StringOrder();
      ApartEitherWay(address, x, y);
      var a, b := if StringLe(BindingIP(address, x), BindingIP(address, y)) then x else y,
                  if StringLe(BindingIP(address, x), BindingIP(address, y)) then y else x;
      var desired, current := [Binding(a, "2"), Binding(b, "1")], [Binding(a, "1"), Binding(b, "2")];
      assert "1"[0] == '1' && "2"[0] == '2';
      Swapped(address, a, b, "2", "1");
      assert From(desired, ips) && From(current, ips) && Unmixed(address, desired);
    } else {
      forall desired, current | From(desired, ips) && From(current, ips) && Unmixed(address, desired)
        ensures FindsPairing(address, desired, current)
      {
        ApartFindsPairing(address, desired, current);
      }
    }
  }

  lemma {:induction false} DistinctPortsCount(pm: PortMap, key: string -> string)
    requires DistinctPorts(pm, key)
    ensures |Ports(pm, key)| == |pm|
    decreases |pm|
  {
    if pm.Keys != {} {
      var k :| k in pm;
      var rest := pm - {k};
      DistinctPortsCount(rest, key);
      assert Ports(pm, key) == Ports(rest, key) + {key(k)};
      assert pm.Keys == rest.Keys + {k};
    }
  }

  lemma SameSizeSubset<T>(a: set<T>, b: set<T>)
    requires a <= b && |a| == |b|
    ensures a == b
  {
    assert b == a + (b - a);
  }

  ghost predicate AllToldApart(desired: PortMap, current: PortMap, key: string -> string, address: string -> string) {
    forall k <- desired, j <- current :: key(k) == key(j) ==> TellsApart(address, desired[k], current[j])
  }

  ghost predicate SameMultisets(desired: PortMap, current: PortMap, key: string -> string, address: string -> string) {
    forall k <- desired, j <- current :: key(k) == key(j) ==>
      multiset(CanonicalAll(address, desired[k])) == multiset(CanonicalAll(address, current[j]))
  }

  /** Strict comparison of explicit ports is equality of the published ports and, port by port,
      of the bindings in any order. */
  lemma StrictComparison(desired: PortMap, current: PortMap, key: string -> string, address: string -> string)
    requires DistinctPorts(desired, key) && DistinctPorts(current, key)
    requires AllToldApart(desired, current, key, address)
    requires forall k <- desired :: Explicit(desired[k])
    ensures Agree(desired, current, true, key, address)
      <==> Ports(desired, key) == Ports(current, key) && SameMultisets(desired, current, key, address)
  {
    DistinctPortsCount(desired, key);
    DistinctPortsCount(current, key);
    forall k <- desired, j <- current
      ensures key(k) == key(j) ==> (SameBindings(desired, current, address, k, j)
        <==> multiset(CanonicalAll(address, desired[k])) == multiset(CanonicalAll(address, current[j])))
    {
      if key(k) == key(j) {
        ExplicitIsMultisetEquality(address, desired[k], current[j]);
      }
    }
    if Agree(desired, current, true, key, address) {
      forall p <- Ports(desired, key)
        ensures p in Ports(current, key)
      {
        var k :| k in desired && key(k) == p;
        var j :| j in current && key(j) == key(k);
      }
      SameSizeSubset(Ports(desired, key), Ports(current, key));
    } else if Ports(desired, key) == Ports(current, key) {
      var k :| k in desired
        && !exists j <- current :: key(j) == key(k) && SameBindings(desired, current, address, k, j);
      assert key(k) in Ports(current, key);
      var j :| j in current && key(j) == key(k);
      assert !SameBindings(desired, current, address, k, j);
    }
  }

  lemma PortsInOrder()
    ensures BindingLe(Binding("", ""), Binding("", "50")) && BindingLe(Binding("", "50"), Binding("", "60"))
  {
    assert "50"[0] == '5' && "60"[0] == '6';
  }

  lemma MixedNormalForms(address: string -> string)
    ensures var fixed, random, other := Binding("", "50"), Binding("", ""), Binding("", "60");
      && Normalized(address, [fixed, random]) == [random, fixed]
      && Normalized(address, [fixed, other]) == [fixed, other]
  {
    hide BindingLe, Normalized;
    var fixed, random, other := Binding("", "50"), Binding("", ""), Binding("", "60");
    var desired, current := [fixed, random], [fixed, other];
    assert CanonicalAll(address, desired) == desired && CanonicalAll(address, current) == current;
    PortsInOrder();
    assert [random, fixed] == [random] + [fixed] && desired == [fixed] + [random];
    IsNormalized(address, desired, [random, fixed]);
    IsNormalized(address, current, current);
  }

  /** The false alarm: a pairing exists, but the port left to Docker is tried against the port
      that was asked for. */
  lemma MixedFalseAlarm(address: string -> string)
    ensures var desired, current := [Binding("", "50"), Binding("", "")], [Binding("", "50"), Binding("", "60")];
      && OneToOne(address, desired, current)
      && !ListsMatch(address, Normalized(address, desired), Normalized(address, current))
  {
    var fixed, random, other := Binding("", "50"), Binding("", ""), Binding("", "60");
    var desired, current := [fixed, random], [fixed, other];
    assert CanonicalAll(address, desired) == desired && CanonicalAll(address, current) == current;
    assert Pairs(desired, current, address, desired, current);
    MixedNormalForms(address);
    hide Normalized;
    assert !Matches(address, fixed, other);
  }

  lemma AddressesInOrder(a: string, b: string)
    ensures BindingLe(Binding("", a), Binding("0.0.0.0", b))
    ensures BindingLe(Binding("", "1"), Binding("", "2"))
  {
    assert "1"[0] == '1' && "2"[0] == '2';
  }

  lemma PlainNormalForm(address: string -> string)
    ensures var first, second := Binding("", "1"), Binding("", "2");
      CanonicalAll(address, [first, second]) == Normalized(address, [first, second]) == [first, second]
  {
    hide BindingLe, Normalized;
    var first, second := Binding("", "1"), Binding("", "2");
    assert CanonicalAll(address, [first, second]) == [first, second];
    AddressesInOrder("2", "1");
    IsNormalized(address, [first, second], [first, second]);
  }

  lemma TrimmedNormalForm(address: string -> string)
    requires address(" 0.0.0.0") == "0.0.0.0"
    ensures var trimmed, second := Binding("0.0.0.0", "1"), Binding("", "2");
      && CanonicalAll(address, [Binding(" 0.0.0.0", "1"), second]) == [trimmed, second]
      && Normalized(address, [Binding(" 0.0.0.0", "1"), second]) == [second, trimmed]
  {
    hide BindingLe, Normalized;
    var blank, trimmed, second := Binding(" 0.0.0.0", "1"), Binding("0.0.0.0", "1"), Binding("", "2");
    assert " 0.0.0.0"[0] == ' ' && "0.0.0.0"[0] == '0';
    assert CanonicalAll(address, [blank, second]) == [trimmed, second];
    AddressesInOrder("2", "1");
    assert [trimmed, second] == [trimmed] + [second] && [second, trimmed] == [second] + [trimmed];
    IsNormalized(address, [blank, second], [second, trimmed]);
  }

  /** Why addresses must be told apart: a blank in front of the address of all interfaces is
      trimmed off before the lists are sorted, and only when they are compared is the rest taken
      for no address.  So the lists are sorted differently, and the same bindings differ. */
  lemma AddressFalseAlarm(address: string -> string)
    requires address(" 0.0.0.0") == "0.0.0.0"
    ensures var desired, current := [Binding(" 0.0.0.0", "1"), Binding("", "2")], [Binding("", "1"), Binding("", "2")];
      && OneToOne(address, desired, current)
      && !ListsMatch(address, Normalized(address, desired), Normalized(address, current))
  {
    hide Normalized, CanonicalAll;
    var trimmed, first, second := Binding("0.0.0.0", "1"), Binding("", "1"), Binding("", "2");
    var desired, current := [Binding(" 0.0.0.0", "1"), second], [first, second];
    PlainNormalForm(address);
    TrimmedNormalForm(address);
    assert Pairs([trimmed, second], current, address, desired, current);
    assert !Matches(address, second, first);
  }
}
