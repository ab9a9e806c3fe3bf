/** The expressions inside `{{ }}`: dotted names with indexes, quoted keys and nested expressions
    in brackets. `show` is the formatting of a value into the text used as a key. */
module Expressions {
  import opened Values
  import opened Strings
  import opened Decimal

  /** A dynamic token is itself an expression, whose value is the key. */
  datatype Token = Token(value: string, dynamic: bool)

  // ----- Tokens

  function Flush(current: string, tokens: seq<Token>): seq<Token> {
    if current == "" then tokens else tokens + [Token(current, false)]
  }

  predicate Quoted(content: string) {
    |content| >= 2 && content[0] == content[|content| - 1] && content[0] in {'"', '\''}
  }

  /** The token for the text between brackets. */
  function BracketToken(raw: string): (t: Option<Token>)
    ensures t.Some? ==> |t.value.value| <= |raw|
  {
    var content := Trim(raw);
    if content == "" then None
    else if Quoted(content) then Some(Token(content[1..|content| - 1], false))
    else Some(Token(content, Atoi(content).None?))
  }

  lemma QuotedBy(q: char, key: string)
    requires q in {'"', '\''}
    ensures BracketToken([q] + key + [q]) == Some(Token(key, false))
  {
    var raw := [q] + key + [q];
    assert raw[0] == q && raw[|raw| - 1] == q && raw[1..|raw| - 1] == key;
    assert Trim(raw) == raw;
  }

  /** Quotes of either kind, the same at both ends, make what is between them a key as it stands. */
  lemma QuotedKey(key: string)
    ensures BracketToken("'" + key + "'") == Some(Token(key, false))
    ensures BracketToken("\"" + key + "\"") == Some(Token(key, false))
  {
    QuotedBy('\'', key);
    QuotedBy('"', key);
    assert "'" + key + "'" == ['\''] + key + ['\''] && "\"" + key + "\"" == ['"'] + key + ['"'];
  }

  /** Anything else, without the blanks around it, is a number as it stands or an expression. */
  lemma UnquotedKey(raw: string)
    requires var content := Trim(raw);
      content == "" || content[0] != content[|content| - 1] || content[0] !in {'"', '\''} || |content| == 1
    ensures BracketToken(raw) ==
      if Trim(raw) == "" then None else Some(Token(Trim(raw), Atoi(Trim(raw)).None?))
  {
  }

  /** Reading the rest of an expression, with a name begun and tokens already found. */
  function Scan(rest: string, current: string, tokens: seq<Token>): Option<seq<Token>>
    decreases |rest|
  {
    if rest == "" then Some(Flush(current, tokens))
    else if rest[0] == '.' then
      if current == "" && tokens == [] then None else Scan(rest[1..], "", Flush(current, tokens))
    else if rest[0] == '[' then
      var end := FirstIndex(rest, ']');
      if end == -1 then None
      else
        match BracketToken(rest[1..end])
        case None => None
        case Some(t) => Scan(rest[end + 1..], "", Flush(current, tokens) + [t])
    else if rest[0] in {' ', '\t', '\n', '\r'} then Scan(rest[1..], current, tokens)
    else Scan(rest[1..], current + [rest[0]], tokens)
  }

  /** What a dot and a blank do: a dot ends a name, and only an expression that has none yet cannot
      begin with one; blanks are passed over, even inside a name. */
  lemma ScanHead(rest: string, current: string, tokens: seq<Token>)
    ensures Scan("." + rest, "", []) == None
    ensures tokens != [] ==> Scan("." + rest, "", tokens) == Scan(rest, "", tokens)
    ensures current != "" ==> Scan("." + rest, current, tokens) == Scan(rest, "", tokens + [Token(current, false)])
    ensures Scan(" " + rest, current, tokens) == Scan("\t" + rest, current, tokens) == Scan(rest, current, tokens)
    ensures Scan("\n" + rest, current, tokens) == Scan("\r" + rest, current, tokens) == Scan(rest, current, tokens)
  {
    assert ("." + rest)[0] == '.' && ("." + rest)[1..] == rest;
    assert (" " + rest)[0] == ' ' && (" " + rest)[1..] == rest && ("\t" + rest)[1..] == rest;
    assert ("\n" + rest)[1..] == rest && ("\r" + rest)[1..] == rest;
  }

  /** What a bracket does: it reaches to the next closing one, without which nothing can be read, and
      holds one token; a name in front of it ends there. */
  lemma ScanBrackets(raw: string, rest: string, current: string, tokens: seq<Token>)
    requires ']' !in raw
    ensures Scan("[" + raw, current, tokens) == None
    ensures var before := if current == "" then tokens else tokens + [Token(current, false)];
      Scan("[" + raw + "]" + rest, current, tokens) ==
        if BracketToken(raw).None? then None else Scan(rest, "", before + [BracketToken(raw).value])
  {
    hide BracketToken;
    var open, closed := "[" + raw, "[" + raw + "]" + rest;
    assert open[0] == '[' && ']' !in open;
    assert closed[0] == '[' && closed[..|open|] == open && closed[|open|] == ']';
    FirstIndexIs(closed, ']', |open|);
    assert closed[1..|open|] == raw && closed[|open| + 1..] == rest;
  }

  /** Any other character belongs to a name. */
  lemma ScanCharacter(c: char, rest: string, current: string, tokens: seq<Token>)
    requires c !in {'.', '[', ' ', '\t', '\n', '\r'}
    ensures Scan([c] + rest, current, tokens) == Scan(rest, current + [c], tokens)
    ensures Scan("", current, tokens) == Some(if current == "" then tokens else tokens + [Token(current, false)])
  {
    assert ([c] + rest)[0] == c && ([c] + rest)[1..] == rest;
  }

  ghost predicate Shorter(tokens: seq<Token>, n: nat) {
    forall t <- tokens :: t.dynamic ==> |t.value| < n
  }

  /** A dynamic token is shorter than the expression it is in. */
  lemma {:induction false} ScanShorter(rest: string, current: string, tokens: seq<Token>, n: nat)
    requires |rest| <= n && Shorter(tokens, n)
    ensures var r := Scan(rest, current, tokens); r.Some? ==> Shorter(r.value, n)
    decreases |rest|
  {
    hide FirstIndex, BracketToken;
    if rest != "" {
      if rest[0] == '.' {
        ScanShorter(rest[1..], "", Flush(current, tokens), n);
      } else if rest[0] == '[' {
        var end := FirstIndex(rest, ']');
        if end != -1 {
          var t := BracketToken(rest[1..end]);
          if t.Some? {
            ScanShorter(rest[end + 1..], "", Flush(current, tokens) + [t.value], n);
          }
        }
      } else if rest[0] in {' ', '\t', '\n', '\r'} {
        ScanShorter(rest[1..], current, tokens, n);
      } else {
        ScanShorter(rest[1..], current + [rest[0]], tokens, n);
      }
    }
  }

  function Tokens(expr: string): (r: Option<seq<Token>>)
    ensures r.Some? ==> Shorter(r.value, |expr|)
  {
    ScanShorter(expr, "", [], |expr|);
    Scan(expr, "", [])
  }

  method ReadBracket(raw: string) returns (t: Option<Token>)
    ensures t == BracketToken(raw)
  {
    var content := Trim(raw);
    if content == "" {
      return None;
    }
    var dynamic := true;
    if |content| >= 2 {
      var first, last := content[0], content[|content| - 1];
      if (first == '"' && last == '"') || (first == '\'' && last == '\'') {
        content := content[1..|content| - 1];
        dynamic := false;
      }
    }
    if Atoi(content).Some? {
      dynamic := false;
    }
    return Some(Token(content, dynamic));
  }

  lemma SliceTwice(s: string, i: nat, n: nat)
    requires i + n < |s|
    ensures s[i..][n] == s[i + n] && s[i..][n + 1..] == s[i + n + 1..]
    ensures n >= 1 ==> s[i..][1..n] == s[i + 1..i + n]
  {
  }

  method Tokenize(expr: string) returns (r: Option<seq<Token>>)
    ensures r == Tokens(expr)
  {
    hide BracketToken, FirstIndex;
    var tokens: seq<Token> := [];
    var current := "";
    var i := 0;
    while i < |expr|
      invariant 0 <= i <= |expr|
      invariant Scan(expr[i..], current, tokens) == Tokens(expr)
    {
      var ch := expr[i];
      SliceTwice(expr, i, 0);
      if ch == '.' {
        if current == "" {
          if tokens == [] {
            return None;
          }
          i := i + 1;
          continue;
        }
        tokens := tokens + [Token(current, false)];
        current := "";
        i := i + 1;
      } else if ch == '[' {
        if current != "" {
          tokens := tokens + [Token(current, false)];
          current := "";
        }
        var end := FirstIndex(expr[i..], ']');
        if end == -1 {
          return None;
        }
        SliceTwice(expr, i, end);
        var token := ReadBracket(expr[i + 1..i + end]);
        if token.None? {
          return None;
        }
        tokens := tokens + [token.value];
        i := i + end + 1;
      } else if ch in {' ', '\t', '\n', '\r'} {
        i := i + 1;
      } else {
        current := current + [ch];
        i := i + 1;
      }
    }
    return Some(Flush(current, tokens));
  }

  // ----- Values

  function Get(v: Value, key: string): Option<Value> {
    match v
    case Map(fields) => if key in fields then Some(fields[key]) else None
    case List(items) =>
      var index := Atoi(key);
      if index.Some? && 0 <= index.value < |items| then Some(items[index.value]) else None
    case Scalar(_) => None
  }

  /** A list is entered at the index that is written, counted from 0, and a map at the key. */
  lemma GetSelects(items: seq<Value>, n: int, fields: Vars, key: string, text: string)
    requires MIN_INT <= n <= MAX_INT
    ensures Get(List(items), Itoa(n)) == if 0 <= n < |items| then Some(items[n]) else None
    ensures Atoi(text).None? ==> Get(List(items), text) == None
    ensures Get(Map(fields), key) == if key in fields then Some(fields[key]) else None
    ensures Get(Scalar(text), key) == None
  {
    AtoiItoa(n);
  }

  function Lookup(v: Value, keys: seq<string>): Option<Value> {
    if keys == [] then Some(v)
    else
      match Get(v, keys[0])
      case None => None
      case Some(next) => Lookup(next, keys[1..])
  }

  /** The value of an expression. The recursion ends on every text because a dynamic token is
      shorter than its expression. */
  function Resolve(expr: string, context: Vars, show: Value -> string): Option<Value>
    decreases |expr|, 1, 0
  {
    match Tokens(expr)
    case None => None
    case Some(tokens) => if tokens == [] then None else Follow(tokens, Map(context), context, show, |expr|)
  }

  function Follow(tokens: seq<Token>, v: Value, context: Vars, show: Value -> string, ghost n: nat): Option<Value>
    requires Shorter(tokens, n)
    decreases n, 0, |tokens|
  {
    if tokens == [] then Some(v)
    else
      var key := if tokens[0].dynamic then DynamicKey(tokens[0].value, context, show) else Some(tokens[0].value);
      if key.None? then None
      else
        match Get(v, key.value)
        case None => None
        case Some(next) => Follow(tokens[1..], next, context, show, n)
  }

  function DynamicKey(expr: string, context: Vars, show: Value -> string): Option<string>
    decreases |expr|, 2, 0
  {
    match Resolve(expr, context, show)
    case None => None
    case Some(v) => Some(show(v))
  }

  lemma {:induction false} ScanBlank(expr: string)
    requires forall c <- expr :: c in {' ', '\t', '\n', '\r'}
    ensures Scan(expr, "", []) == Some([])
  {
    if expr != "" {
      assert expr[0] in expr && forall c <- expr[1..] :: c in expr;
      ScanBlank(expr[1..]);
    }
  }

  /** What cannot be read has no value, and neither has a text of blanks. */
  lemma NoValue(expr: string, context: Vars, show: Value -> string)
    ensures Scan(expr, "", []).None? ==> Resolve(expr, context, show) == None
    ensures (forall c <- expr :: c in {' ', '\t', '\n', '\r'}) ==> Resolve(expr, context, show) == None
  {
    if forall c <- expr :: c in {' ', '\t', '\n', '\r'} {
      ScanBlank(expr);
    }
  }

  method ResolveExpr(expr: string, context: Vars, show: Value -> string) returns (r: Option<Value>)
    ensures r == Resolve(expr, context, show)
    decreases |expr|
  {
    var tokens := Tokenize(expr);
    if tokens.None? || tokens.value == [] {
      return None;
    }
    var current := Map(context);
    var all := tokens.value;
    assert all[0..] == all;
    for i := 0 to |all|
      invariant Follow(all[i..], current, context, show, |expr|) == Resolve(expr, context, show)
    {
      assert all[i..][0] == all[i] && all[i..][1..] == all[i + 1..];
      var key := all[i].value;
      if all[i].dynamic {
        var resolved := ResolveExpr(all[i].value, context, show);
        if resolved.None? {
          return None;
        }
        key := show(resolved.value);
      }
      var next := Get(current, key);
      if next.None? {
        return None;
      }
      current := next.value;
    }
    return Some(current);
  }

  // ----- Paths and their text

  datatype Step = Name(name: string) | Index(n: nat) | Key(key: string)

  function StepKey(s: Step): string {
    match s
    case Name(name) => name
    case Index(n) => Itoa(n)
    case Key(key) => key
  }

  function Keys(path: seq<Step>): (r: seq<string>)
    ensures |r| == |path| && forall i :: 0 <= i < |path| ==> r[i] == StepKey(path[i])
  {
    seq(|path|, i requires 0 <= i < |path| => StepKey(path[i]))
  }

  function Bracketed(s: Step): string
    requires !s.Name?
  {
    if s.Index? then Itoa(s.n) else "'" + s.key + "'"
  }

  /** The text of the steps that follow another one. */
  function PrintMore(path: seq<Step>): string {
    if path == [] then ""
    else
      (if path[0].Name? then "." + path[0].name else "[" + (Bracketed(path[0]) + "]")) + PrintMore(path[1..])
  }

  function Print(path: seq<Step>): string {
    if path != [] && path[0].Name? then path[0].name + PrintMore(path[1..]) else PrintMore(path)
  }

  predicate NameChar(c: char) {
    c !in {'.', '[', ' ', '\t', '\n', '\r'}
  }

  predicate PlainNames(path: seq<Step>) {
    forall s <- path :: s.Name? ==> s.name != "" && forall c <- s.name :: NameChar(c)
  }

  /** A key does not hold the bracket that would end it, and an index is a number that Go can
      read. */
  predicate Readable(s: Step) {
    match s
    case Name(_) => true
    case Index(n) => n <= MAX_INT
    case Key(key) => ']' !in key
  }

  predicate AllReadable(path: seq<Step>) {
    forall s <- path :: Readable(s)
  }

  function PathTokens(path: seq<Step>): (r: seq<Token>)
    ensures |r| == |path| && forall i :: 0 <= i < |path| ==> r[i] == Token(StepKey(path[i]), false)
  {
    seq(|path|, i requires 0 <= i < |path| => Token(StepKey(path[i]), false))
  }

  // ----- Reading a printed path

  lemma {:induction false} ScanName(name: string, rest: string, current: string, tokens: seq<Token>)
    requires forall c <- name :: NameChar(c)
    ensures Scan(name + rest, current, tokens) == Scan(rest, current + name, tokens)
  {
    if name == "" {
      assert name + rest == rest && current + name == current;
    } else {
      assert (name + rest)[0] == name[0] && (name + rest)[1..] == name[1..] + rest;
      assert name[0] in name && NameChar(name[0]);
      ScanName(name[1..], rest, current + [name[0]], tokens);
      assert current + [name[0]] + name[1..] == current + name;
    }
  }

  /** Tokens once found stay. */
  lemma {:induction false} ScanExtends(rest: string, current: string, tokens: seq<Token>)
    ensures var r := Scan(rest, current, tokens); r.Some? ==> tokens <= r.value
    decreases |rest|
  {
    hide FirstIndex, BracketToken;
    if rest != "" {
      if rest[0] == '.' {
        ScanExtends(rest[1..], "", Flush(current, tokens));
      } else if rest[0] == '[' {
        var end := FirstIndex(rest, ']');
        if end != -1 {
          var t := BracketToken(rest[1..end]);
          if t.Some? {
            var found := Flush(current, tokens) + [t.value];
            assert tokens <= found;
            ScanExtends(rest[end + 1..], "", found);
          }
        }
      } else if rest[0] in {' ', '\t', '\n', '\r'} {
        ScanExtends(rest[1..], current, tokens);
      } else {
        ScanExtends(rest[1..], current + [rest[0]], tokens);
      }
    }
  }

  function AfterBracket(raw: string, rest: string, current: string, tokens: seq<Token>): Option<seq<Token>> {
    match BracketToken(raw)
    case None => None
    case Some(t) => Scan(rest, "", Flush(current, tokens) + [t])
  }

  lemma ScanBracket(raw: string, rest: string, current: string, tokens: seq<Token>)
    requires ']' !in raw
    ensures Scan("[" + (raw + "]") + rest, current, tokens) == AfterBracket(raw, rest, current, tokens)
  {
    var s := "[" + (raw + "]") + rest;
    var end := |raw| + 1;
    assert s[..end] == "[" + raw;
    FirstIndexIs(s, ']', end);
    assert s[1..end] == raw && s[end + 1..] == rest;
  }

  lemma IndexToken(n: nat)
    ensures BracketToken(Itoa(n)) == Some(Token(Itoa(n), n > MAX_INT)) && ']' !in Itoa(n)
  {
    hide Digits, Atoi;
    var raw := Itoa(n);
    AtoiItoa(n);
    assert raw[0] in raw && raw[|raw| - 1] in raw;
  }

  lemma KeyToken(key: string)
    ensures BracketToken("'" + key + "'") == Some(Token(key, false))
  {
    hide Atoi, Trim;
    var raw := "'" + key + "'";
    assert raw[0] == '\'' && raw[|raw| - 1] == '\'' && raw[1..|raw| - 1] == key;
  }

  /** What stands between the brackets of a step is read back, whatever a key holds; an index
      that Go cannot read is taken for an expression. */
  lemma StepToken(s: Step)
    requires !s.Name?
    ensures BracketToken(Bracketed(s)) == Some(Token(StepKey(s), s.Index? && !Readable(s)))
    ensures s.Index? ==> ']' !in Bracketed(s)
  {
    if s.Index? {
      IndexToken(s.n);
    } else {
      KeyToken(s.key);
    }
  }

  /** A key cut short by a bracket is read as something else. */
  lemma CutKeyToken(key: string, m: nat)
    requires m < |key|
    ensures BracketToken("'" + key[..m]) != Some(Token(key, false))
  {
    var raw := "'" + key[..m];
    var content := Trim(raw);
    assert content[0] == '\'' && content[0] in content;
    assert Atoi(content).None?;
  }

  lemma ScanCutKey(key: string, rest: string, current: string, tokens: seq<Token>)
    requires ']' in key
    ensures var r := Scan("[" + ("'" + key + "'" + "]") + rest, current, tokens);
      r.Some? ==> |r.value| <= |Flush(current, tokens)| || r.value[|Flush(current, tokens)|] != Token(key, false)
  {
    hide Scan, BracketToken;
    var m := FirstIndex(key, ']');
    var raw, after := "'" + key[..m], key[m + 1..] + "'" + "]" + rest;
    var flushed := Flush(current, tokens);
    assert key == key[..m] + "]" + key[m + 1..];
    assert "[" + ("'" + key + "'" + "]") + rest == "[" + (raw + "]") + after;
    assert ']' !in raw;
    ScanBracket(raw, after, current, tokens);
    CutKeyToken(key, m);
    var t := BracketToken(raw);
    if t.Some? {
      ScanExtends(after, "", flushed + [t.value]);
      assert (flushed + [t.value])[|flushed|] == t.value;
    }
  }

  lemma ScanNothing(current: string, tokens: seq<Token>)
    ensures Scan("", current, tokens) == Some(Flush(current, tokens))
  {
  }

  lemma PrintStep(path: seq<Step>)
    ensures PrintMore(path) ==
      if path == [] then ""
      else if path[0].Name? then "." + path[0].name + PrintMore(path[1..])
      else "[" + (Bracketed(path[0]) + "]") + PrintMore(path[1..])
  {
  }

  lemma ScanDotName(name: string, rest: string, current: string, tokens: seq<Token>)
    requires (current != "" || tokens != []) && forall c <- name :: NameChar(c)
    ensures Scan("." + name + rest, current, tokens) == Scan(rest, name, Flush(current, tokens))
  {
    var s := "." + name + rest;
    assert s[0] == '.' && s[1..] == name + rest;
    ScanName(name, rest, "", Flush(current, tokens));
    assert "" + name == name;
  }

  lemma FirstToken(path: seq<Step>)
    requires path != []
    ensures PathTokens(path) == [Token(StepKey(path[0]), false)] + PathTokens(path[1..])
  {
  }

  lemma RegroupTokens(a: seq<Token>, t: Token, b: seq<Token>)
    ensures a + ([t] + b) == (a + [t]) + b
  {
  }

  lemma SplitPath(path: seq<Step>, tokens: seq<Token>)
    ensures path == [] ==> tokens + PathTokens(path) == tokens && AllReadable(path)
    ensures path != [] ==>
      tokens + PathTokens(path) == (tokens + [Token(StepKey(path[0]), false)]) + PathTokens(path[1..])
    ensures path != [] ==>
      && (AllReadable(path) <==> Readable(path[0]) && AllReadable(path[1..]))
      && (PlainNames(path) ==> PlainNames(path[1..]))
      && (PlainNames(path) && path[0].Name? ==> path[0].name != "" && forall c <- path[0].name :: NameChar(c))
  {
    hide PathTokens, StepKey;
    if path != [] {
      assert path == [path[0]] + path[1..];
      FirstToken(path);
      RegroupTokens(tokens, Token(StepKey(path[0]), false), PathTokens(path[1..]));
    }
  }

  /** A step in brackets is read as its token, unless its key is cut short or its index is too
      large. */
  lemma ScanStep(step: Step, rest: seq<Step>, current: string, tokens: seq<Token>)
    requires !step.Name?
    ensures var token, flushed := Token(StepKey(step), false), Flush(current, tokens);
      var r := Scan("[" + (Bracketed(step) + "]") + PrintMore(rest), current, tokens);
      if Readable(step) then r == Scan(PrintMore(rest), "", flushed + [token])
      else r != Some((flushed + [token]) + PathTokens(rest))
  {
    hide Scan, BracketToken, Flush, PrintMore;
    StepToken(step);
    var token, flushed := Token(StepKey(step), false), Flush(current, tokens);
    assert ((flushed + [token]) + PathTokens(rest))[|flushed|] == token;
    if step.Key? && ']' in step.key {
      ScanCutKey(step.key, PrintMore(rest), current, tokens);
    } else {
      ScanBracket(Bracketed(step), PrintMore(rest), current, tokens);
      var read := Token(StepKey(step), step.Index? && !Readable(step));
      ScanExtends(PrintMore(rest), "", flushed + [read]);
      assert (flushed + [read])[|flushed|] == read;
    }
  }

  /** The steps after the first, read with a name begun or tokens found. */
  lemma {:induction false} ScanSteps(path: seq<Step>, current: string, tokens: seq<Token>)
    requires PlainNames(path) && (current != "" || tokens != [])
    ensures Scan(PrintMore(path), current, tokens) == Some(Flush(current, tokens) + PathTokens(path)) <==>
      AllReadable(path)
    decreases |path|
  {
    hide Scan, PrintMore, BracketToken, Bracketed, PlainNames, AllReadable, PathTokens;
    var flushed := Flush(current, tokens);
    PrintStep(path);
    SplitPath(path, flushed);
    if path == [] {
      ScanNothing(current, tokens);
    } else {
      var step, rest := path[0], path[1..];
      var token := Token(StepKey(step), false);
      if step.Name? {
        ScanDotName(step.name, PrintMore(rest), current, tokens);
        ScanSteps(rest, step.name, flushed);
      } else {
        ScanStep(step, rest, current, tokens);
        ScanSteps(rest, "", flushed + [token]);
      }
    }
  }

  lemma PathFromBracket(step: Step, rest: seq<Step>)
    requires !step.Name? && PlainNames([step] + rest)
    ensures Scan("[" + (Bracketed(step) + "]") + PrintMore(rest), "", []) == Some(PathTokens([step] + rest))
      <==> AllReadable([step] + rest)
  {
    hide Scan, PrintMore, BracketToken;
    var token := Token(StepKey(step), false);
    assert step in [step] + rest;
    assert PathTokens([step] + rest) == [token] + PathTokens(rest);
    assert Flush("", []) + [token] == [token];
    ScanStep(step, rest, "", []);
    ScanSteps(rest, "", [token]);
  }

  lemma PathFromName(step: Step, rest: seq<Step>)
    requires step.Name? && PlainNames([step] + rest)
    ensures Scan(step.name + PrintMore(rest), "", []) == Some(PathTokens([step] + rest)) <==>
      AllReadable([step] + rest)
  {
    hide Scan, PrintMore;
    assert step in [step] + rest;
    ScanName(step.name, PrintMore(rest), "", []);
    assert "" + step.name == step.name;
    ScanSteps(rest, step.name, []);
    assert PathTokens([step] + rest) == Flush(step.name, []) + PathTokens(rest);
  }

  /** Printing a path and tokenizing the text gives the path back exactly when no quoted key
      holds a closing bracket and no index is beyond 64 bits. */
  lemma PathRoundTrip(path: seq<Step>)
    requires PlainNames(path)
    ensures Tokens(Print(path)) == Some(PathTokens(path)) <==> AllReadable(path)
  {
    if path != [] {
      var step, rest := path[0], path[1..];
      assert path == [step] + rest;
      if step.Name? {
        PathFromName(step, rest);
      } else {
        PathFromBracket(step, rest);
      }
    }
  }

  lemma {:induction false} FollowStatic(path: seq<Step>, v: Value, context: Vars, show: Value -> string, n: nat)
    ensures Follow(PathTokens(path), v, context, show, n) == Lookup(v, Keys(path))
  {
    if path != [] {
      assert PathTokens(path)[1..] == PathTokens(path[1..]) && Keys(path)[1..] == Keys(path[1..]);
      var next := Get(v, StepKey(path[0]));
      if next.Some? {
        FollowStatic(path[1..], next.value, context, show, n);
      }
    }
  }

  /** Resolving a printed path is looking its keys up one after the other. */
  lemma ResolveIsLookup(path: seq<Step>, context: Vars, show: Value -> string)
    requires path != [] && PlainNames(path) && AllReadable(path)
    ensures Resolve(Print(path), context, show) == Lookup(Map(context), Keys(path))
  {
    PathRoundTrip(path);
    FollowStatic(path, Map(context), context, show, |Print(path)|);
  }

  /** Text that between brackets is neither a quoted key nor a number. */
  predicate IsNested(text: string) {
    && text != "" && ']' !in text
    && !Quoted(text) && !IsSpace(text[0]) && !IsSpace(text[|text| - 1]) && Atoi(text).None?
  }

  lemma NestedTokens(base: string, text: string)
    requires base != "" && (forall c <- base :: NameChar(c)) && IsNested(text)
    ensures Tokens(base + ("[" + (text + "]"))) == Some([Token(base, false), Token(text, true)])
  {
    var bracket := "[" + (text + "]") + "";
    assert base + ("[" + (text + "]")) == base + bracket;
    assert BracketToken(text) == Some(Token(text, true));
    calc {
      Scan(base + bracket, "", []);
      { ScanName(base, bracket, "", []); assert "" + base == base; }
      Scan(bracket, base, []);
      { ScanBracket(text, "", base, []); }
      Scan("", "", Flush(base, []) + [Token(text, true)]);
      { assert Flush(base, []) + [Token(text, true)] == [Token(base, false), Token(text, true)]; }
      Some([Token(base, false), Token(text, true)]);
    }
  }

  lemma FollowNested(base: string, text: string, v: Value, context: Vars, show: Value -> string, n: nat)
    requires |text| < n
    ensures Follow([Token(base, false), Token(text, true)], v, context, show, n)
      == match Resolve(text, context, show)
         case None => None
         case Some(key) => Lookup(v, [base, show(key)])
  {
    hide Resolve, Get;
    var tokens := [Token(base, false), Token(text, true)];
    assert tokens[1..] == [Token(text, true)] && tokens[1..][1..] == [];
    var next, key := Get(v, base), DynamicKey(text, context, show);
    if next.Some? {
      assert tokens[1..][0] == Token(text, true);
      if key.None? {
        assert Follow(tokens[1..], next.value, context, show, n) == None;
      } else {
        assert [base, key.value][1..] == [key.value] && [key.value][1..] == [];
        assert Follow(tokens[1..], next.value, context, show, n) == Lookup(next.value, [key.value]);
      }
    }
  }

  /** A bracket that holds another path uses that path's value as its key. */
  lemma DynamicIsNested(base: string, path: seq<Step>, context: Vars, show: Value -> string)
    requires base != "" && forall c <- base :: NameChar(c)
    requires path != [] && PlainNames(path) && AllReadable(path) && IsNested(Print(path))
    ensures Resolve(base + ("[" + (Print(path) + "]")), context, show)
      == match Lookup(Map(context), Keys(path))
         case None => None
         case Some(v) => Lookup(Map(context), [base, show(v)])
  {
    hide Scan, IsNested, Print, Get;
    var text := Print(path);
    var expr := base + ("[" + (text + "]"));
    NestedTokens(base, text);
    ResolveIsLookup(path, context, show);
    FollowNested(base, text, Map(context), context, show, |expr|);
  }
}
