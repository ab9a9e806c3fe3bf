/** Searching and trimming text, as the Go library's `strings` does. */
module Strings {

  function LastIndex(s: string, c: char): (r: int)
    ensures -1 <= r < |s|
    ensures r >= 0 ==> s[r] == c
    ensures forall i :: r < i < |s| ==> s[i] != c
  {
    if s == "" then -1
    else if s[|s| - 1] == c then |s| - 1
    else LastIndex(s[..|s| - 1], c)
  }

  function FirstIndex(s: string, c: char): (r: int)
    ensures -1 <= r < |s|
    ensures r >= 0 ==> s[r] == c && c !in s[..r]
    ensures r == -1 ==> c !in s
  {
    if s == "" then -1
    else if s[0] == c then 0
    else
      var r := FirstIndex(s[1..], c);
      assert s == [s[0]] + s[1..];
      if r == -1 then -1 else assert s[..r + 1] == [s[0]] + s[1..][..r]; r + 1
  }

  lemma LastIndexIs(s: string, c: char, i: int)
    requires -1 <= i < |s| && (i >= 0 ==> s[i] == c)
    requires forall k :: i < k < |s| ==> s[k] != c
    ensures LastIndex(s, c) == i
  {
  }

  /** A character that is not in the second part is last found in the first, in front of the
      separator. */
  lemma LastIndexInPrefix(a: string, b: string, sep: char, c: char)
    requires c !in b && c != sep
    ensures var s := a + ([sep] + b); var i := LastIndex(s, c);
      i < |a| && (i >= 0 ==> sep in s[i + 1..]) && (i >= 0 <==> c in a)
  {
    hide LastIndex;
    var s := a + ([sep] + b);
    var i := LastIndex(s, c);
    assert forall k :: |a| <= k < |s| ==> s[k] == ([sep] + b)[k - |a|];
    assert forall k :: 0 <= k < |a| ==> s[k] == a[k];
    assert s[|a|] == sep;
    assert i >= 0 ==> s[i + 1..][|a| - i - 1] == s[|a|];
  }

  lemma {:induction false} FirstIndexIs(s: string, c: char, i: nat)
    requires i < |s| && s[i] == c && c !in s[..i]
    ensures FirstIndex(s, c) == i
  {
    if i > 0 {
      assert s[0] in s[..i];
      assert forall x :: x in s[1..][..i - 1] ==> x in s[..i];
      FirstIndexIs(s[1..], c, i - 1);
    }
  }

  /** A character of the first part is found no later than there. */
  lemma {:induction false} FirstIndexWithin(a: string, b: string, c: char)
    requires c in a
    ensures 0 <= FirstIndex(a + b, c) < |a|
  {
    assert (a + b)[0] == a[0] && (a + b)[1..] == a[1..] + b;
    if a[0] != c {
      FirstIndexWithin(a[1..], b, c);
    }
  }

  /** The space characters of ASCII. */
  predicate IsSpace(c: char) {
    c in {' ', '\t', '\n', '\r', '\U{0b}', '\U{0c}'}
  }

  function Trim(s: string): (r: string)
    ensures |r| <= |s|
    ensures s != "" && !IsSpace(s[0]) ==> r != "" && r[0] == s[0]
    ensures s != "" && !IsSpace(s[0]) && !IsSpace(s[|s| - 1]) ==> r == s
  {
    if s == "" then ""
    else if IsSpace(s[0]) then Trim(s[1..])
    else if IsSpace(s[|s| - 1]) then Trim(s[..|s| - 1])
    else s
  }

  predicate Blank(s: string) {
    forall c <- s :: c in {' ', '\t', '\n', '\r', '\U{0b}', '\U{0c}'}
  }

  /** `t` is `s` without blanks at both ends. */
  ghost predicate Trimmed(s: string, t: string) {
    exists left, right :: Blank(left) && Blank(right) && s == left + t + right
  }

  lemma TrimmedMore(s: string, t: string, c: char)
    requires Trimmed(s, t) && Blank([c])
    ensures Trimmed([c] + s, t) && Trimmed(s + [c], t)
  {
    var left, right :| Blank(left) && Blank(right) && s == left + t + right;
    assert c in [c];
    assert Blank([c] + left) && [c] + s == ([c] + left) + t + right;
    assert Blank(right + [c]) && s + [c] == left + t + (right + [c]);
  }

  lemma TrimmedSelf(s: string)
    ensures Trimmed(s, s)
  {
    assert Blank("") && s == "" + s + "";
  }

  /** Trimming takes blanks away at both ends, and all of them. */
  lemma {:induction false} TrimIs(s: string)
    ensures Trimmed(s, Trim(s))
    ensures Trim(s) != "" ==> !Blank([Trim(s)[0]]) && !Blank([Trim(s)[|Trim(s)| - 1]])
    decreases |s|
  {
    hide Trimmed;
    if s != "" && IsSpace(s[0]) {
      TrimIs(s[1..]);
      assert s == [s[0]] + s[1..] && Blank([s[0]]);
      TrimmedMore(s[1..], Trim(s), s[0]);
    } else if s != "" && IsSpace(s[|s| - 1]) {
      var n := |s| - 1;
      TrimIs(s[..n]);
      assert s == s[..n] + [s[n]] && Blank([s[n]]);
      TrimmedMore(s[..n], Trim(s), s[n]);
    } else {
      TrimmedSelf(s);
      assert s != "" ==> s[0] in [s[0]] && s[|s| - 1] in [s[|s| - 1]];
    }
  }
}
