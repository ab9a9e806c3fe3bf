/** Docker image references: `registry/path:tag@digest`. */
module ImageReference {
  import opened Values
  import opened Strings

  datatype Reference = Reference(registry: string, path: string, tag: string, digest: string)

  datatype InvalidReference = InvalidRegistry | InvalidPath | InvalidTag | InvalidDigest

  // ----- Parsing and printing

  predicate RegistryLike(s: string) {
    '.' in s || ':' in s || s == "localhost"
  }

  /** The text before the last `@` and the digest after it. */
  function CutDigest(value: string): (string, string) {
    var i := LastIndex(value, '@');
    if i >= 0 then (value[..i], value[i + 1..]) else (value, "")
  }

  /** The text before the last `:` and the tag after it, unless a slash follows the colon. */
  function CutTag(value: string): (string, string) {
    var i := LastIndex(value, ':');
    if i >= 0 && '/' !in value[i + 1..] then (value[..i], value[i + 1..]) else (value, "")
  }

  /** The first component, if it looks like a registry, and the rest. */
  function CutRegistry(value: string): (string, string) {
    var i := FirstIndex(value, '/');
    if i >= 0 && RegistryLike(value[..i]) then (value[..i], value[i + 1..]) else ("", value)
  }

  /** A first component is a registry if it holds a dot or a colon, or is "localhost". */
  lemma FirstComponent(first: string, rest: string)
    requires '/' !in first
    ensures '.' in first || ':' in first || first == "localhost" ==> CutRegistry(first + "/" + rest) == (first, rest)
    ensures '.' !in first && ':' !in first && first != "localhost" ==>
      CutRegistry(first + "/" + rest) == ("", first + "/" + rest)
    ensures CutRegistry(first) == ("", first)
  {
    var value := first + "/" + rest;
    assert value[..|first|] == first && value[|first| + 1..] == rest;
    FirstIndexIs(value, '/', |first|);
  }

  function Parse(value: string): Reference {
    var (named, digest) := CutDigest(value);
    var (repository, tag) := CutTag(named);
    var (registry, path) := CutRegistry(repository);
    Reference(registry, path, tag, digest)
  }

  function Repository(r: Reference): string {
    (if r.registry != "" then r.registry + (if r.path != "" then "/" else "") else "") + r.path
  }

  function Print(r: Reference): string {
    Repository(r)
    + (if r.tag != "" then ":" + r.tag else "")
    + (if r.digest != "" then "@" + r.digest else "")
  }

  // ----- Validity

  predicate LowerAlnum(c: char) {
    'a' <= c <= 'z' || '0' <= c <= '9'
  }

  /** The states of a recogniser for the image path pattern: at the start of a component, in a
      run of letters and digits, after a separator that must be followed by one, after a single
      underscore, and in a run of hyphens. */
  datatype PathState = Start | Run | Gap | Underscore | Hyphens

  function PathStep(state: PathState, c: char): Option<PathState> {
    if LowerAlnum(c) then Some(Run)
    else
      match state
      case Run =>
        if c == '.' then Some(Gap)
        else if c == '_' then Some(Underscore)
        else if c == '-' then Some(Hyphens)
        else if c == '/' then Some(Start)
        else None
      case Underscore => if c == '_' then Some(Gap) else None
      case Hyphens => if c == '-' then Some(Hyphens) else None
      case Start => None
      case Gap => None
  }

  predicate PathFrom(state: PathState, s: string)
    decreases |s|
  {
    if s == "" then state == Run
    else
      match PathStep(state, s[0])
      case None => false
      case Some(next) => PathFrom(next, s[1..])
  }

  predicate ValidPath(s: string) {
    PathFrom(Start, s)
  }

  predicate TagChar(c: char) {
    LowerAlnum(c) || 'A' <= c <= 'Z' || c == '_' || c == '.' || c == '-'
  }

  predicate ValidTag(s: string) {
    1 <= |s| <= 128 && s[0] != '.' && s[0] != '-' && forall c <- s :: TagChar(c)
  }

  predicate HexDigit(c: char) {
    '0' <= c <= '9' || 'a' <= c <= 'f' || 'A' <= c <= 'F'
  }

  predicate ValidDigest(s: string) {
    |s| == 71 && s[..7] == "sha256:" && forall c <- s[7..] :: HexDigit(c)
  }

  function Validate(r: Reference): Option<InvalidReference> {
    if r.registry != "" && (r.registry[0] == '-' || r.registry[|r.registry| - 1] == '-') then Some(InvalidRegistry)
    else if r.registry != "" && r.registry[|r.registry| - 1] == ':' then Some(InvalidRegistry)
    else if !ValidPath(r.path) then Some(InvalidPath)
    else if r.tag != "" && !ValidTag(r.tag) then Some(InvalidTag)
    else if r.digest != "" && !ValidDigest(r.digest) then Some(InvalidDigest)
    else None
  }

  function Normalize(r: Reference): Reference {
    var registry :=
      if r.registry == "" || r.registry == "index.docker.io" || r.registry == "registry.hub.docker.com"
      then "docker.io" else r.registry;
    var path := if registry == "docker.io" && r.path != "" && '/' !in r.path then "library/" + r.path else r.path;
    r.(registry := registry, path := path)
  }

  function NormalizeImageReference(value: string): Result<string, InvalidReference> {
    match Validate(Parse(value))
    case Some(e) => Err(e)
    case None => Ok(Print(Normalize(Parse(value))))
  }

  // ----- What the path pattern says

  /** The neighbours a character of a path must have: letters and digits stand anywhere; dots and
      slashes stand alone between two of them, underscores alone or in pairs, hyphens in runs. */
  ghost predicate WellPlaced(s: string, i: nat)
    requires i < |s|
  {
    if LowerAlnum(s[i]) then true
    else if i == 0 || i == |s| - 1 then false
    else if s[i] == '.' || s[i] == '/' then LowerAlnum(s[i - 1]) && LowerAlnum(s[i + 1])
    else if s[i] == '-' then
      (LowerAlnum(s[i - 1]) || s[i - 1] == '-') && (LowerAlnum(s[i + 1]) || s[i + 1] == '-')
    else if s[i] == '_' then
      || (LowerAlnum(s[i - 1]) && (LowerAlnum(s[i + 1]) || s[i + 1] == '_'))
      || (s[i - 1] == '_' && LowerAlnum(s[i + 1]))
    else false
  }

  ghost predicate WellFormed(s: string) {
    s != "" && forall i: nat :: i < |s| ==> WellPlaced(s, i)
  }

  lemma SeparatorPlaced(a: char, sep: string, rest: string, i: nat)
    requires LowerAlnum(a) && sep in {"", ".", "/", "_", "__", "-"}
    requires rest != "" && LowerAlnum(rest[0]) && i <= |sep|
    ensures WellPlaced([a] + sep + rest, i)
  {
    var s := [a] + sep + rest;
    assert s[0] == a && s[1 + |sep|] == rest[0] && forall k :: 0 <= k < |sep| ==> s[k + 1] == sep[k];
  }

  lemma RestPlaced(front: string, rest: string, i: nat)
    requires i < |rest| && LowerAlnum(rest[0])
    ensures WellPlaced(rest, i) <==> WellPlaced(front + rest, |front| + i)
  {
    var s := front + rest;
    assert forall k :: 0 <= k < |rest| ==> s[|front| + k] == rest[k];
  }

  lemma SeparatorOpen(a: char, sep: string, rest: string)
    requires LowerAlnum(a) && sep in {".", "/", "__"} && !(rest != "" && LowerAlnum(rest[0]))
    ensures !WellPlaced([a] + sep + rest, |sep|)
  {
    var s := [a] + sep + rest;
    assert s[|sep|] == sep[|sep| - 1] && s[|sep| - 1] == ([a] + sep)[|sep| - 1];
    assert rest != "" ==> s[|sep| + 1] == rest[0];
  }

  lemma SeparatorLast(a: char, sep: string)
    requires LowerAlnum(a) && sep in {".", "/", "_", "__", "-"}
    ensures !WellFormed([a] + sep)
  {
    assert !WellPlaced([a] + sep, |sep|);
  }

  /** A separator with its letter in front can be dropped, if a letter follows it. */
  lemma DropSeparated(a: char, sep: string, rest: string)
    requires LowerAlnum(a) && (sep in {"", ".", "/", "_", "__", "-"})
    ensures (sep != "" || rest != "") && (rest == "" || LowerAlnum(rest[0])) ==>
      (WellFormed([a] + sep + rest) <==> WellFormed(rest))
    ensures sep in {".", "/", "__"} && !(rest != "" && LowerAlnum(rest[0])) ==> !WellFormed([a] + sep + rest)
  {
    hide WellPlaced;
    var s, n := [a] + sep + rest, 1 + |sep|;
    if rest != "" && LowerAlnum(rest[0]) {
      forall i: nat | i < |s|
        ensures WellPlaced(s, i) <==> i < n || WellPlaced(rest, i - n)
      {
        if i < n {
          SeparatorPlaced(a, sep, rest, i);
        } else {
          RestPlaced([a] + sep, rest, i - n);
        }
      }
      assert forall i: nat :: i < |rest| ==> (WellPlaced(s, n + i) <==> WellPlaced(rest, i));
    } else if rest == "" && sep != "" {
      SeparatorLast(a, sep);
      assert s == [a] + sep;
    } else if sep in {".", "/", "__"} {
      SeparatorOpen(a, sep, rest);
    }
  }

  lemma OneHyphenLess(rest: string)
    ensures WellFormed("a--" + rest) <==> WellFormed("a-" + rest)
  {
    var s, t := "a--" + rest, "a-" + rest;
    assert s[0] == t[0] == 'a' && s[1] == s[2] == t[1] == '-';
    forall i: nat | 1 <= i < |t|
      ensures WellPlaced(s, i + 1) <==> WellPlaced(t, i)
    {
      assert s[i + 1] == t[i] && s[i] == if i == 1 then '-' else t[i - 1];
    }
    if WellFormed(s) {
      forall i: nat | i < |t|
        ensures WellPlaced(t, i)
      {
        assert i >= 1 ==> WellPlaced(s, i + 1);
      }
    }
    if WellFormed(t) {
      assert WellPlaced(t, 1);
      forall i: nat | i < |s|
        ensures WellPlaced(s, i)
      {
        if i >= 2 {
          assert WellPlaced(t, i - 1);
        }
      }
    }
  }

  /** What has been read so far, as far as it matters for the rest. */
  function Before(state: PathState): string {
    match state
    case Start => ""
    case Gap => ""
    case Run => "a"
    case Underscore => "a_"
    case Hyphens => "a-"
  }

  lemma EndsRight(state: PathState)
    ensures WellFormed(Before(state)) <==> state == Run
  {
    assert WellFormed("a");
    assert !WellPlaced("a_", 1) && !WellPlaced("a-", 1);
  }

  lemma Misplaced(state: PathState, c: char, rest: string)
    requires PathStep(state, c).None?
    ensures !WellFormed(Before(state) + ([c] + rest))
  {
    var s, n := Before(state) + ([c] + rest), |Before(state)|;
    assert s[n] == c && forall i :: 0 <= i < n ==> s[i] == Before(state)[i];
    assert !WellPlaced(s, n);
  }

  lemma AnyLetter(c: char, rest: string)
    requires LowerAlnum(c)
    ensures WellFormed([c] + rest) <==> WellFormed("a" + rest)
  {
    var s, t := [c] + rest, "a" + rest;
    forall i: nat | i < |s|
      ensures WellPlaced(s, i) <==> WellPlaced(t, i)
    {
      assert forall j :: 0 < j < |s| ==> s[j] == t[j];
      assert LowerAlnum(s[0]) && LowerAlnum(t[0]);
    }
  }

  lemma StartsWithLetter(rest: string)
    ensures WellFormed(rest) ==> rest != "" && LowerAlnum(rest[0])
  {
    assert WellFormed(rest) ==> WellPlaced(rest, 0);
  }

  lemma PathStepKeeps(state: PathState, c: char, next: PathState, rest: string)
    requires PathStep(state, c) == Some(next)
    ensures WellFormed(Before(next) + rest) <==> WellFormed(Before(state) + ([c] + rest))
  {
    hide WellFormed;
    var s := [c] + rest;
    if LowerAlnum(c) {
      AnyLetter(c, rest);
      assert s[0] == c;
      match state
      case Start => assert "" + s == s;
      case Gap => assert "" + s == s;
      case Run => DropSeparated('a', "", s); assert ['a'] + "" + s == "a" + s;
      case Underscore => DropSeparated('a', "_", s); assert ['a'] + "_" + s == "a_" + s;
      case Hyphens => DropSeparated('a', "-", s); assert ['a'] + "-" + s == "a-" + s;
    } else {
      StartsWithLetter(rest);
      assert "" + rest == rest;
      if state == Run {
        if c == '.' || c == '/' {
          DropSeparated('a', [c], rest);
          assert ['a'] + [c] + rest == "a" + s;
        } else {
          assert Before(next) + rest == "a" + s;
        }
      } else if state == Underscore {
        DropSeparated('a', "__", rest);
        assert ['a'] + "__" + rest == "a_" + s;
      } else {
        OneHyphenLess(rest);
        assert "a--" + rest == "a-" + s;
      }
    }
  }

  /** The recogniser accepts exactly the well-formed paths. */
  lemma {:induction false} PathIs(state: PathState, s: string)
    ensures PathFrom(state, s) <==> WellFormed(Before(state) + s)
    decreases |s|
  {
    hide WellFormed;
    var all := Before(state) + s;
    if s == "" {
      EndsRight(state);
      assert all == Before(state);
    } else {
      var c, rest := s[0], s[1..];
      assert s == [c] + rest;
      match PathStep(state, c)
      case None => Misplaced(state, c, rest);
      case Some(next) =>
        PathIs(next, rest);
        PathStepKeeps(state, c, next, rest);
    }
  }

  // ----- Facts about the parts

  lemma {:induction false} PathChars(state: PathState, s: string)
    requires PathFrom(state, s)
    ensures '@' !in s && ':' !in s
    ensures state != Run ==> s != ""
    decreases |s|
  {
    if s != "" {
      PathChars(PathStep(state, s[0]).value, s[1..]);
      assert s == [s[0]] + s[1..];
    }
  }

  lemma SlashStarts(s: string, p: string)
    requires s == "/" + p
    ensures PathFrom(Run, s) <==> ValidPath(p)
  {
    assert s[0] == '/' && s[1..] == p;
  }

  /** Letters and digits keep the recogniser in a run. */
  lemma {:induction false} FromLetters(s: string, n: nat)
    requires 0 < n <= |s| && forall i :: 0 <= i < n ==> LowerAlnum(s[i])
    ensures ValidPath(s) <==> PathFrom(Run, s[n..])
    decreases n
  {
    if n > 1 {
      FromLetters(s, n - 1);
      assert s[n - 1..][1..] == s[n..];
    } else {
      assert s[0..][1..] == s[1..];
    }
  }

  lemma LibraryPath(p: string)
    requires ValidPath(p)
    ensures ValidPath("library/" + p)
  {
    hide PathFrom;
    var s := "library/" + p;
    FromLetters(s, 7);
    SlashStarts(s[7..], p);
  }

  lemma ValidParts(r: Reference)
    requires Validate(r).None?
    ensures r.path != "" && '@' !in r.path && ':' !in r.path
    ensures '@' !in r.tag && ':' !in r.tag && '/' !in r.tag
    ensures '@' !in r.digest && '/' !in r.digest
  {
    PathChars(Start, r.path);
    if r.digest != "" {
      assert r.digest == "sha256:" + r.digest[7..];
    }
  }

  // ----- Cutting what was put together

  lemma CutDigestPrinted(named: string, digest: string)
    requires '@' !in digest
    ensures digest != "" ==> CutDigest(named + ("@" + digest)) == (named, digest)
    ensures '@' !in named ==> CutDigest(named) == (named, "")
  {
    if digest != "" {
      var s := named + ("@" + digest);
      forall k | |named| < k < |s|
        ensures s[k] != '@'
      {
        assert s[k] == digest[k - |named| - 1];
      }
      LastIndexIs(s, '@', |named|);
      assert s[..|named|] == named && s[|named| + 1..] == digest;
    }
  }

  lemma CutTagPrinted(repository: string, tag: string)
    requires ':' !in tag && '/' !in tag
    ensures tag != "" ==> CutTag(repository + (":" + tag)) == (repository, tag)
  {
    if tag != "" {
      var s := repository + (":" + tag);
      forall k | |repository| < k < |s|
        ensures s[k] != ':'
      {
        assert s[k] == tag[k - |repository| - 1];
      }
      LastIndexIs(s, ':', |repository|);
      assert s[..|repository|] == repository && s[|repository| + 1..] == tag;
    }
  }

  /** Without a tag, a colon can only stand in the registry, in front of a slash. */
  lemma CutNoTag(r: Reference)
    requires ':' !in r.path && r.path != ""
    ensures CutTag(Repository(r)) == (Repository(r), "")
  {
    var s := Repository(r);
    if r.registry == "" {
      assert s == r.path;
    } else {
      assert s == r.registry + (['/'] + r.path);
      LastIndexInPrefix(r.registry, r.path, '/', ':');
    }
  }

  /** What the repository part says is read back exactly when the registry looks like one and
      the path does not. */
  predicate Unambiguous(r: Reference) {
    if r.registry != "" then RegistryLike(r.registry) && '/' !in r.registry
    else var i := FirstIndex(r.path, '/'); i == -1 || !RegistryLike(r.path[..i])
  }

  lemma CutRegistryPrinted(r: Reference)
    requires r.path != ""
    ensures CutRegistry(Repository(r)) == (r.registry, r.path) <==> Unambiguous(r)
  {
    var s := Repository(r);
    if r.registry == "" {
      assert s == r.path;
    } else {
      var n := |r.registry|;
      assert s == r.registry + "/" + r.path;
      assert s[..n] == r.registry && s[n + 1..] == r.path;
      if '/' !in r.registry {
        FirstIndexIs(s, '/', n);
      } else {
        assert s == r.registry + ("/" + r.path);
        FirstIndexWithin(r.registry, "/" + r.path, '/');
      }
    }
  }

  // ----- The round trip

  /** The printed reference without its digest. */
  function Named(r: Reference): string {
    Repository(r) + if r.tag != "" then ":" + r.tag else ""
  }

  /** Without a digest, an `@` in the registry makes what follows it read as one. */
  lemma AtInRegistry(r: Reference, named: string)
    requires '@' in r.registry && r.path != ""
    requires named == Named(r)
    requires '@' !in r.path && '@' !in r.tag
    ensures '/' in CutDigest(named).1
  {
    var rest := r.path + if r.tag != "" then ":" + r.tag else "";
    assert named == r.registry + (['/'] + rest);
    LastIndexInPrefix(r.registry, rest, '/', '@');
  }

  lemma CutPrinted(r: Reference)
    requires r.path != "" && '@' !in r.path && ':' !in r.path
    requires '@' !in r.tag && ':' !in r.tag && '/' !in r.tag && '@' !in r.digest
    ensures Print(r) == if r.digest != "" then Named(r) + ("@" + r.digest) else Named(r)
    ensures '@' !in r.registry || r.digest != "" ==> CutDigest(Print(r)) == (Named(r), r.digest)
    ensures CutTag(Named(r)) == (Repository(r), r.tag)
  {
    hide CutDigest, CutTag;
    assert Named(r) + "" == Named(r) && Repository(r) + "" == Repository(r);
    CutDigestPrinted(Named(r), r.digest);
    CutTagPrinted(Repository(r), r.tag);
    CutNoTag(r);
    assert '@' !in r.registry ==> '@' !in Repository(r);
    assert '@' !in Repository(r) ==> '@' !in Named(r);
  }

  /** For every valid reference: printing and parsing gives the reference back exactly when its
      repository part is unambiguous and a registry with an `@` is followed by a digest. */
  lemma RoundTrip(r: Reference)
    requires Validate(r).None?
    ensures Parse(Print(r)) == r <==> Unambiguous(r) && ('@' in r.registry ==> r.digest != "")
  {
    hide CutDigest, CutTag, CutRegistry, Unambiguous, RegistryLike, ValidPath, ValidTag, ValidDigest;
    ValidParts(r);
    CutPrinted(r);
    CutRegistryPrinted(r);
    if '@' in r.registry && r.digest == "" {
      AtInRegistry(r, Named(r));
    }
  }

  lemma ParsedRegistry(value: string)
    ensures Unambiguous(Parse(value))
  {
    var repository := CutTag(CutDigest(value).0).0;
    var i := FirstIndex(repository, '/');
    if i >= 0 && RegistryLike(repository[..i]) {
      assert repository[..i] != "";
    }
  }

  lemma NoSlashInDigest(s: string)
    ensures ValidDigest(s) ==> '/' !in s
  {
    if ValidDigest(s) {
      assert s == "sha256:" + s[7..];
    }
  }

  /** Printed and parsed, a registry with an `@` and no digest leaves a slash in the digest. */
  lemma SlashInDigest(r: Reference)
    requires Validate(r).None? && '@' in r.registry && r.digest == ""
    ensures Validate(Parse(Print(r))).Some?
  {
    ValidParts(r);
    var named := Named(r);
    assert Print(r) == named;
    AtInRegistry(r, named);
    NoSlashInDigest(Parse(named).digest);
  }

  lemma NormalizedPath(p: Reference)
    requires ValidPath(p.path)
    ensures var n := Normalize(p); ValidPath(n.path) && (n.registry == "docker.io" ==> '/' in n.path)
  {
    PathChars(Start, p.path);
    LibraryPath(p.path);
    assert ("library/" + p.path)[7] == '/';
  }

  lemma DockerHub()
    ensures RegistryLike("docker.io") && forall c <- "docker.io" :: c !in {'/', '@', '-', ':'}
    ensures '@' !in "" && '@' !in "index.docker.io" && '@' !in "registry.hub.docker.com"
  {
    assert "docker.io"[6] == '.';
  }

  lemma NormalizedRegistry(p: Reference)
    requires Validate(p).None? && Unambiguous(p)
    ensures var r := Normalize(p).registry;
      && r != "" && RegistryLike(r) && '/' !in r && ('@' in r <==> '@' in p.registry)
      && r[0] != '-' && r[|r| - 1] != '-' && r[|r| - 1] != ':'
      && r != "index.docker.io" && r != "registry.hub.docker.com"
  {
    hide RegistryLike;
    DockerHub();
    if p.registry in {"", "index.docker.io", "registry.hub.docker.com"} {
      assert Normalize(p).registry == "docker.io";
      assert '@' !in p.registry;
    }
  }

  lemma NormalizedValid(p: Reference)
    requires Validate(p).None? && Unambiguous(p)
    ensures var n := Normalize(p);
      && Validate(n).None? && Unambiguous(n) && Normalize(n) == n
      && ('@' in n.registry <==> '@' in p.registry) && n.digest == p.digest
  {
    hide ValidPath, RegistryLike, ValidTag, ValidDigest;
    NormalizedRegistry(p);
    NormalizedPath(p);
  }

  /** Normalising is idempotent on an accepted reference exactly when a registry with an `@` in
      it comes with a digest; otherwise the normalised reference is not even accepted. */
  lemma NormalizeIdempotent(value: string)
    requires NormalizeImageReference(value).Ok?
    ensures var once := NormalizeImageReference(value).value;
      NormalizeImageReference(once) == Ok(once) <==> ('@' in Parse(value).registry ==> Parse(value).digest != "")
  {
    hide Parse, Print, Normalize, Validate;
    var p := Parse(value);
    var n := Normalize(p);
    var once := Print(n);
    ParsedRegistry(value);
    ValidParts(p);
    NormalizedValid(p);
    RoundTrip(n);
    ValidParts(n);
    if '@' in n.registry && n.digest == "" {
      SlashInDigest(n);
    }
  }

  /** What makes a reference valid, part by part. */
  lemma ValidMeans(r: Reference)
    ensures Validate(r).None? <==>
      && (r.registry != "" ==>
            r.registry[0] != '-' && r.registry[|r.registry| - 1] != '-' && r.registry[|r.registry| - 1] != ':')
      && WellFormed(r.path)
      && (r.tag != "" ==>
            |r.tag| <= 128 && r.tag[0] !in {'.', '-'}
            && forall c <- r.tag :: LowerAlnum(c) || 'A' <= c <= 'Z' || c in {'_', '.', '-'})
      && (r.digest != "" ==>
            |r.digest| == 71 && "sha256:" <= r.digest
            && forall c <- r.digest[7..] :: '0' <= c <= '9' || 'a' <= c <= 'f' || 'A' <= c <= 'F')
  {
    hide PathFrom, WellFormed;
    PathIs(Start, r.path);
    assert "" + r.path == r.path;
    assert |r.digest| == 71 ==> (r.digest[..7] == "sha256:" <==> "sha256:" <= r.digest);
  }

  lemma NormalizedRepository(r: Reference)
    requires r.path != ""
    ensures
      var hub := r.registry in {"", "docker.io", "index.docker.io", "registry.hub.docker.com"};
      && Repository(Normalize(r)) ==
           (if hub then "docker.io/" + (if '/' in r.path then "" else "library/") else r.registry + "/") + r.path
      && Normalize(r).tag == r.tag && Normalize(r).digest == r.digest
  {
    assert "docker.io" + "/" == "docker.io/" && "docker.io/" + "" == "docker.io/";
    assert "docker.io/" + ("library/" + r.path) == ("docker.io/" + "library/") + r.path;
  }

  /** What a printed reference is normalised to: Docker Hub by its one name, with a namespace in
      front of a path of one component; everything else stays as it is. */
  lemma NormalizesTo(r: Reference)
    requires Validate(r).None? && Unambiguous(r) && ('@' in r.registry ==> r.digest != "")
    ensures
      var hub := r.registry in {"", "docker.io", "index.docker.io", "registry.hub.docker.com"};
      NormalizeImageReference(Print(r)) ==
        Ok((if hub then "docker.io/" + (if '/' in r.path then "" else "library/") else r.registry + "/") + r.path
           + (if r.tag != "" then ":" + r.tag else "")
           + (if r.digest != "" then "@" + r.digest else ""))
  {
    hide Parse, Validate, Unambiguous, Normalize, Repository;
    RoundTrip(r);
    ValidParts(r);
    NormalizedRepository(r);
  }
}
