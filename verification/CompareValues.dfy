/** Comparing a desired container option with the current one, by kind and mode. Both values have
    been through JSON, so they are compared structurally. */
module CompareValues {

  /** A decoded JSON value; an atom is a boolean, number or string. */
  datatype Json = Null | Atom(text: string) | Array(items: seq<Json>) | Object(fields: map<string, Json>)

  datatype Mode = Ignore | Strict | AllowMorePresent

  datatype Kind = Single | Sequence | Dictionary | Collection | CollectionOfDictionaries | Other

  /** The number of elements of a collection, -1 for anything else. */
  function CollectionLength(v: Json): int {
    match v
    case Array(items) => |items|
    case Object(fields) => |fields|
    case _ => -1
  }

  // ----- What each kind compares

  /** `f` places `desired` into `current` in order. */
  ghost predicate Embeds(f: seq<nat>, desired: seq<Json>, current: seq<Json>) {
    && |f| == |desired|
    && (forall i :: 0 <= i < |f| ==> f[i] < |current| && current[f[i]] == desired[i])
    && (forall i, j :: 0 <= i < j < |f| ==> f[i] < f[j])
  }

  ghost predicate Subsequence(desired: seq<Json>, current: seq<Json>) {
    exists f :: Embeds(f, desired, current)
  }

  predicate DictionarySubset(desired: map<string, Json>, current: map<string, Json>) {
    forall k <- desired :: k in current && current[k] == desired[k]
  }

  /** The elements of a list; anything else counts as its own only element. */
  ghost function Elements(v: Json): set<Json> {
    if v.Array? then set x <- v.items else {v}
  }

  predicate Contains(needle: Json, haystack: seq<Json>) {
    needle.Object? && exists c <- haystack :: c.Object? && DictionarySubset(needle.fields, c.fields)
  }

  predicate ContainsAll(needles: seq<Json>, haystack: seq<Json>) {
    forall n <- needles :: Contains(n, haystack)
  }

  /** What the comparison means, for values that are both there. */
  ghost predicate SamePresent(desired: Json, current: Json, mode: Mode, kind: Kind) {
    match kind
    case Single => desired == current
    case Other => desired == current
    case Sequence =>
      if desired.Array? && current.Array? && mode != Strict then Subsequence(desired.items, current.items)
      else desired == current
    case Dictionary =>
      if desired.Object? && current.Object? && mode != Strict then DictionarySubset(desired.fields, current.fields)
      else desired == current
    case Collection =>
      if mode == Strict then Elements(desired) == Elements(current) else Elements(desired) <= Elements(current)
    case CollectionOfDictionaries =>
      if desired.Array? && current.Array? then
        && ContainsAll(desired.items, current.items)
        && (mode == Strict ==> ContainsAll(current.items, desired.items))
      else desired == current
  }

  /** A missing collection equals an empty one, and nothing desired is always there. */
  ghost predicate Same(desired: Json, current: Json, mode: Mode, kind: Kind) {
    if mode == Ignore || desired == current == Null then true
    else if desired != Null && current != Null then SamePresent(desired, current, mode, kind)
    else if kind == Single then false
    else
      || (mode == AllowMorePresent && desired == Null)
      || CollectionLength(if desired != Null then desired else current) == 0
  }

  // ----- The scans

  /** The greedy scan: no placement puts an element earlier than the scan does. */
  method ScanList(desired: seq<Json>, current: seq<Json>) returns (found: bool)
    ensures found <==> Subsequence(desired, current)
  {
    var index := 0;
    ghost var f: seq<nat> := [];
    for i := 0 to |desired|
      invariant 0 <= index <= |current|
      invariant Embeds(f, desired[..i], current)
      invariant i == 0 ==> index == 0
      invariant i > 0 ==> f[i - 1] == index - 1
      invariant forall g :: Embeds(g, desired, current) && i > 0 ==> g[i - 1] >= index - 1
    {
      ghost var from := index;
      while index < |current| && desired[i] != current[index]
        invariant from <= index <= |current|
        invariant forall k :: from <= k < index ==> current[k] != desired[i]
      {
        index := index + 1;
      }
      forall g | Embeds(g, desired, current)
        ensures g[i] >= index
      {
        assert i > 0 ==> g[i - 1] < g[i];
      }
      if index == |current| {
        return false;
      }
      f := f + [index];
      index := index + 1;
    }
    assert desired[..|desired|] == desired;
    return true;
  }

  method CompareDictionarySubset(desired: map<string, Json>, current: map<string, Json>) returns (r: bool)
    ensures r == DictionarySubset(desired, current)
  {
    var todo := desired.Keys;
    while todo != {}
      invariant todo <= desired.Keys
      invariant forall k <- desired.Keys - todo :: k in current && current[k] == desired[k]
      decreases todo
    {
      var k :| k in todo;
      if k !in current || current[k] != desired[k] {
        return false;
      }
      todo := todo - {k};
    }
    return true;
  }

  method ContainsNeedle(needle: Json, haystack: seq<Json>) returns (r: bool)
    ensures r == Contains(needle, haystack)
  {
    if !needle.Object? {
      return false;
    }
    for i := 0 to |haystack|
      invariant forall c <- haystack[..i] :: !(c.Object? && DictionarySubset(needle.fields, c.fields))
    {
      if haystack[i].Object? {
        var subset := CompareDictionarySubset(needle.fields, haystack[i].fields);
        if subset {
          return true;
        }
      }
    }
    assert haystack[..|haystack|] == haystack;
    return false;
  }

  method ContainsEach(needles: seq<Json>, haystack: seq<Json>) returns (r: bool)
    ensures r == ContainsAll(needles, haystack)
  {
    for i := 0 to |needles|
      invariant ContainsAll(needles[..i], haystack)
    {
      r := ContainsNeedle(needles[i], haystack);
      if !r {
        return;
      }
    }
    assert needles[..|needles|] == needles;
    return true;
  }

  ghost predicate Injective(encode: Json -> string) {
    forall a, b :: encode(a) == encode(b) ==> a == b
  }

  ghost function Encoded(encode: Json -> string, s: set<Json>): set<string> {
    set x <- s :: encode(x)
  }

  method CanonicalSet(v: Json, encode: Json -> string) returns (r: set<string>)
    ensures r == Encoded(encode, Elements(v))
  {
    if !v.Array? {
      return {encode(v)};
    }
    r := {};
    for i := 0 to |v.items|
      invariant r == set x <- v.items[..i] :: encode(x)
    {
      r := r + {encode(v.items[i])};
    }
    assert v.items[..|v.items|] == v.items;
  }

  lemma {:induction false} EncodedCount(encode: Json -> string, s: set<Json>)
    requires Injective(encode)
    ensures |Encoded(encode, s)| == |s|
  {
    if s != {} {
      var x :| x in s;
      EncodedCount(encode, s - {x});
      assert Encoded(encode, s) == Encoded(encode, s - {x}) + {encode(x)};
    }
  }

  /** Inclusion and size of the encoded sets are those of the sets themselves. */
  lemma EncodedInclusion(encode: Json -> string, a: set<Json>, b: set<Json>)
    requires Injective(encode)
    ensures Encoded(encode, a) <= Encoded(encode, b) <==> a <= b
    ensures |Encoded(encode, a)| == |Encoded(encode, b)| && a <= b <==> a == b
  {
    EncodedCount(encode, a);
    EncodedCount(encode, b);
    if Encoded(encode, a) <= Encoded(encode, b) {
      forall x <- a
        ensures x in b
      {
        assert encode(x) in Encoded(encode, a);
      }
    }
    if a <= b && |a| == |b| {
      assert b == a + (b - a);
    }
  }

  method CompareSets(desired: Json, current: Json, strict: bool, encode: Json -> string) returns (r: bool)
    requires Injective(encode)
    ensures r == if strict then Elements(desired) == Elements(current) else Elements(desired) <= Elements(current)
  {
    var desiredSet := CanonicalSet(desired, encode);
    var currentSet := CanonicalSet(current, encode);
    EncodedInclusion(encode, Elements(desired), Elements(current));
    if strict && |desiredSet| != |currentSet| {
      return false;
    }
    var todo := desiredSet;
    while todo != {}
      invariant desiredSet - todo <= currentSet
      invariant todo <= desiredSet
      decreases todo
    {
      var key :| key in todo;
      if key !in currentSet {
        return false;
      }
      todo := todo - {key};
    }
    return true;
  }

  method ComparePresent(desired: Json, current: Json, mode: Mode, kind: Kind, encode: Json -> string) returns (r: bool)
    requires Injective(encode) && mode != Ignore && desired != Null && current != Null
    ensures r == SamePresent(desired, current, mode, kind)
  {
    if kind == Single {
      return desired == current;
    }
    if kind == Sequence {
      if !desired.Array? || !current.Array? || mode == Strict {
        return desired == current;
      }
      r := ScanList(desired.items, current.items);
      return;
    }
    if kind == Dictionary {
      if !desired.Object? || !current.Object? || mode == Strict {
        return desired == current;
      }
      r := CompareDictionarySubset(desired.fields, current.fields);
      return;
    }
    if kind == Collection {
      r := CompareSets(desired, current, mode == Strict, encode);
      return;
    }
    if kind == CollectionOfDictionaries {
      if !desired.Array? || !current.Array? {
        return desired == current;
      }
      r := ContainsEach(desired.items, current.items);
      if r && mode == Strict {
        r := ContainsEach(current.items, desired.items);
      }
      return;
    }
    return desired == current;
  }

  method CompareValues(desired: Json, current: Json, mode: Mode, kind: Kind, encode: Json -> string) returns (r: bool)
    requires Injective(encode)
    ensures r == Same(desired, current, mode, kind)
  {
    if mode == Ignore {
      return true;
    }
    if desired == Null || current == Null {
      if desired == current {
        return true;
      }
      if kind == Single {
        return false;
      }
      if mode == AllowMorePresent && desired == Null {
        return true;
      }
      return CollectionLength(if desired != Null then desired else current) == 0;
    }
    r := ComparePresent(desired, current, mode, kind, encode);
  }

  // ----- Main results

  /** Some object of the list has all these entries. */
  ghost predicate Covered(fields: map<string, Json>, items: seq<Json>) {
    exists c <- items :: c.Object? && forall k <- fields :: k in c.fields && c.fields[k] == fields[k]
  }

  lemma SameElements(a: seq<Json>, b: seq<Json>)
    ensures Elements(Array(a)) <= Elements(Array(b)) <==> forall x <- a :: x in b
    ensures Elements(Array(b)) <= Elements(Array(a)) <==> forall x <- b :: x in a
  {
    assert forall x :: x in Elements(Array(a)) <==> x in a;
    assert forall x :: x in Elements(Array(b)) <==> x in b;
  }

  ghost predicate Empty(v: Json) {
    v == Array([]) || v == Object(map[])
  }

  lemma EmptyHasNone(v: Json)
    ensures CollectionLength(v) == 0 <==> Empty(v)
  {
  }

  /** The comparison kind by kind, in plain terms. */
  lemma SameMeans(desired: Json, current: Json, mode: Mode, kind: Kind)
    ensures mode == Ignore ==> Same(desired, current, mode, kind)
    ensures mode != Ignore && kind == Single ==> (Same(desired, current, mode, kind) <==> desired == current)
    ensures mode != Ignore && kind != Single && (desired == Null) != (current == Null) ==>
      (Same(desired, current, mode, kind) <==>
        (mode == AllowMorePresent && desired == Null) || Empty(desired) || Empty(current))
    ensures mode != Ignore && kind == Other && desired != Null && current != Null ==>
      (Same(desired, current, mode, kind) <==> desired == current)
    ensures mode == Strict && (kind == Sequence || kind == Dictionary) && desired != Null && current != Null ==>
      (Same(desired, current, mode, kind) <==> desired == current)
    ensures mode == AllowMorePresent && kind == Dictionary && desired.Object? && current.Object? ==>
      (Same(desired, current, mode, kind) <==>
        forall k <- desired.fields :: k in current.fields && current.fields[k] == desired.fields[k])
    ensures mode != Ignore && kind == Collection && desired.Array? && current.Array? ==>
      (Same(desired, current, mode, kind) <==>
        (forall x <- desired.items :: x in current.items)
        && (mode == Strict ==> forall x <- current.items :: x in desired.items))
    ensures mode == AllowMorePresent && kind == CollectionOfDictionaries && desired.Array? && current.Array? ==>
      (Same(desired, current, mode, kind) <==>
        forall n <- desired.items :: n.Object? && Covered(n.fields, current.items))
  {
    EmptyHasNone(desired);
    EmptyHasNone(current);
    if kind == Collection && desired.Array? && current.Array? {
      SameElements(desired.items, current.items);
    }
    if kind == CollectionOfDictionaries && desired.Array? && current.Array? {
      forall n <- desired.items
        ensures Contains(n, current.items) <==> n.Object? && Covered(n.fields, current.items)
      {
      }
    }
  }

  /** A strictly increasing placement is at or past its own index. */
  lemma {:induction false} PlacedAtOrAfter(f: seq<nat>, desired: seq<Json>, current: seq<Json>, i: nat)
    requires Embeds(f, desired, current) && i < |f|
    ensures i <= f[i]
    decreases i
  {
    if i > 0 {
      PlacedAtOrAfter(f, desired, current, i - 1);
      assert f[i - 1] < f[i];
    }
  }

  lemma {:induction false} PlacedBeforeEnd(f: seq<nat>, desired: seq<Json>, current: seq<Json>, i: nat)
    requires Embeds(f, desired, current) && i < |f|
    ensures f[i] <= |current| - |desired| + i
    decreases |f| - i
  {
    if i + 1 < |f| {
      PlacedBeforeEnd(f, desired, current, i + 1);
      assert f[i] < f[i + 1];
    }
  }

  lemma SubsequenceLength(a: seq<Json>, b: seq<Json>)
    requires Subsequence(a, b)
    ensures |a| <= |b| && (|a| == |b| ==> a == b)
  {
    var f :| Embeds(f, a, b);
    forall i | 0 <= i < |a|
      ensures i <= f[i] <= |b| - |a| + i
    {
      PlacedAtOrAfter(f, a, b, i);
      PlacedBeforeEnd(f, a, b, i);
    }
    if |a| > 0 {
      assert f[0] <= |b| - |a|;
    }
  }

  lemma SubsequenceOfItself(a: seq<Json>)
    ensures Subsequence(a, a)
  {
    assert Embeds(seq(|a|, i requires 0 <= i < |a| => i), a, a);
  }

  /** A strict match is a match with more allowed, in both directions: for every kind, mode by
      mode, and for missing values too. */
  lemma StrictIsMutual(a: Json, b: Json, kind: Kind)
    ensures Same(a, b, Strict, kind)
      <==> Same(a, b, AllowMorePresent, kind) && Same(b, a, AllowMorePresent, kind)
  {
    if a != Null && b != Null {
      if kind == Sequence && a.Array? && b.Array? {
        SubsequenceOfItself(a.items);
        if Subsequence(a.items, b.items) && Subsequence(b.items, a.items) {
          SubsequenceLength(a.items, b.items);
          SubsequenceLength(b.items, a.items);
        }
      } else if kind == Dictionary && a.Object? && b.Object? {
        if DictionarySubset(a.fields, b.fields) && DictionarySubset(b.fields, a.fields) {
          assert a.fields == b.fields;
        }
      }
    }
  }

  lemma SubsequenceTransitive(a: seq<Json>, b: seq<Json>, c: seq<Json>)
    requires Subsequence(a, b) && Subsequence(b, c)
    ensures Subsequence(a, c)
  {
    var f :| Embeds(f, a, b);
    var g :| Embeds(g, b, c);
    assert Embeds(seq(|f|, i requires 0 <= i < |f| => g[f[i]]), a, c);
  }

  lemma ContainsAllTransitive(a: seq<Json>, b: seq<Json>, c: seq<Json>)
    requires ContainsAll(a, b) && ContainsAll(b, c)
    ensures ContainsAll(a, c)
  {
    forall x <- a
      ensures Contains(x, c)
    {
      var y :| y in b && y.Object? && DictionarySubset(x.fields, y.fields);
      assert Contains(y, c);
      var z :| z in c && z.Object? && DictionarySubset(y.fields, z.fields);
      assert DictionarySubset(x.fields, z.fields);
    }
  }

  lemma PresentIsTransitive(a: Json, b: Json, c: Json, kind: Kind)
    requires a != Null && b != Null && c != Null
    requires Same(a, b, AllowMorePresent, kind) && Same(b, c, AllowMorePresent, kind)
    ensures Same(a, c, AllowMorePresent, kind)
  {
    if kind == Sequence && a.Array? && b.Array? && c.Array? {
      SubsequenceTransitive(a.items, b.items, c.items);
    } else if kind == CollectionOfDictionaries && a.Array? && b.Array? && c.Array? {
      ContainsAllTransitive(a.items, b.items, c.items);
    }
  }

  const EMPTY_OBJECT := Object(map[])

  /** What an empty collection can match by kind: the shape that the kind compares by elements,
      or itself. */
  ghost predicate SuitsEmpty(a: Json, c: Json, kind: Kind) {
    a == c ||
    match kind
    case Sequence => a.Array? && c.Array?
    case CollectionOfDictionaries => a.Array? && c.Array?
    case Dictionary => a.Object? && c.Object?
    case Collection => a.Array? || EMPTY_OBJECT in Elements(c)
    case _ => false
  }

  /** What matches an empty collection is empty, unless the empty object is compared as a set. */
  lemma EmptiedMatches(a: Json, b: Json, kind: Kind)
    requires a != Null && CollectionLength(b) == 0 && SamePresent(a, b, AllowMorePresent, kind)
    ensures kind == Collection && b == EMPTY_OBJECT && a != EMPTY_OBJECT && a != Array([]) <==> CollectionLength(a) != 0
  {
    assert b == Array([]) || b == EMPTY_OBJECT;
    if kind == Sequence && a.Array? && b.Array? {
      SubsequenceLength(a.items, b.items);
    }
    if a.Array? && a.items != [] {
      assert a.items[0] in Elements(a) && a.items[0] in a.items;
    }
    if kind == Collection && !a.Array? {
      assert a in Elements(a);
    }
    if kind == Dictionary && a.Object? && b.Object? {
      assert a.fields == map[];
    }
  }

  lemma EmptyMatches(a: Json, c: Json, kind: Kind)
    requires a != Null && c != Null && CollectionLength(a) == 0 && kind != Single
    ensures SamePresent(a, c, AllowMorePresent, kind) <==> SuitsEmpty(a, c, kind)
  {
    assert a == Array([]) || a == EMPTY_OBJECT;
    if kind == Sequence && a.Array? && c.Array? {
      assert Embeds([], a.items, c.items);
    }
  }

  /** What matches a state also matches every state that has more, for all values, except in two
      families: a missing state in the middle lets an empty collection match what it does not
      suit, and, compared as sets, the empty object as the state in the middle has an element,
      itself, and yet is as good as missing. */
  lemma AllowMoreIsTransitive(a: Json, b: Json, c: Json, kind: Kind)
    requires Same(a, b, AllowMorePresent, kind) && Same(b, c, AllowMorePresent, kind)
    ensures Same(a, c, AllowMorePresent, kind) <==>
      && (a != Null && b == Null && c != Null ==> SuitsEmpty(a, c, kind))
      && (kind == Collection && b == EMPTY_OBJECT && c == Null ==> a == EMPTY_OBJECT || a == Array([]) || a == Null)
  {
    if a != Null && b != Null && c != Null {
      PresentIsTransitive(a, b, c, kind);
    } else if a != Null && b == Null && c != Null {
      EmptyMatches(a, c, kind);
    } else if a != Null && b != Null {
      EmptiedMatches(a, b, kind);
    }
  }

  /** Inputs of the two families. */
  lemma MissingBreaksTransitivity(kind: Kind)
    requires kind != Single
    ensures var a, c := Array([]), Atom("x");
      && Same(a, Null, AllowMorePresent, kind) && Same(Null, c, AllowMorePresent, kind)
      && (Same(a, c, AllowMorePresent, kind) <==> kind == Collection)
    ensures var a, b := Array([EMPTY_OBJECT]), EMPTY_OBJECT;
      && Same(a, b, AllowMorePresent, Collection) && Same(b, Null, AllowMorePresent, Collection)
      && !Same(a, Null, AllowMorePresent, Collection)
  {
  }
}
