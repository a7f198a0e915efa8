/**
 The two Python string primitives the scraper is built on: `str.strip()`
 with no argument, and `str.replace(old, "")`, which deletes occurrences
 of `old` scanning from left to right.
 */
module Text {

  /** The characters for which Python's `str.isspace()` holds; these are
      exactly the ones `str.strip()` removes from either end. */
  predicate IsSpace(c: char) {
    || ('\t' <= c <= '\r')
    || ('\U{1C}' <= c <= ' ')
    || c == '\U{85}' || c == '\U{A0}' || c == '\U{1680}'
    || ('\U{2000}' <= c <= '\U{200A}')
    || c == '\U{2028}' || c == '\U{2029}' || c == '\U{202F}'
    || c == '\U{205F}' || c == '\U{3000}'
  }

  predicate AllSpace(s: string) {
    forall k :: 0 <= k < |s| ==> IsSpace(s[k])
  }

  /** Neither end of `s` is whitespace: what `strip()` always returns. */
  predicate IsStripped(s: string) {
    s == [] || (!IsSpace(s[0]) && !IsSpace(s[|s| - 1]))
  }

  /** `s` without its leading whitespace. */
  function TrimStart(s: string): (r: string)
    ensures |r| <= |s|
    ensures r == [] || !IsSpace(r[0])
  {
    if s != [] && IsSpace(s[0]) then TrimStart(s[1..]) else s
  }

  /** `s` without its trailing whitespace. */
  function TrimEnd(s: string): (r: string)
    ensures |r| <= |s|
    ensures r == [] || !IsSpace(r[|r| - 1])
  {
    if s != [] && IsSpace(s[|s| - 1]) then TrimEnd(s[..|s| - 1]) else s
  }

  /** `TrimStart` keeps a suffix and cuts whitespace only. */
  lemma {:induction false} TrimStartCutsSpace(s: string)
    ensures TrimStart(s) == s[|s| - |TrimStart(s)|..]
    ensures AllSpace(s[..|s| - |TrimStart(s)|])
    decreases |s|
  {
    if s != [] && IsSpace(s[0]) {
      TrimStartCutsSpace(s[1..]);
      var n := |s| - |TrimStart(s)|;
      assert s[..n] == [s[0]] + s[1..][..n - 1];
    }
  }

  /** `TrimEnd` keeps a prefix and cuts whitespace only. */
  lemma {:induction false} TrimEndCutsSpace(s: string)
    ensures TrimEnd(s) == s[..|TrimEnd(s)|]
    ensures AllSpace(s[|TrimEnd(s)|..])
    decreases |s|
  {
    if s != [] && IsSpace(s[|s| - 1]) {
      var t := s[..|s| - 1];
      TrimEndCutsSpace(t);
      assert s[|TrimEnd(s)|..] == t[|TrimEnd(t)|..] + [s[|s| - 1]];
    }
  }

  /** Python's `s.strip()`: the longest middle part of `s` whose ends are
      not whitespace. */
  function Strip(s: string): (r: string)
    ensures IsStripped(r)
    ensures |r| <= |s|
  {
    var t := TrimStart(s);
    TrimEndCutsSpace(t);
    TrimEnd(t)
  }

  /** What `strip()` removes is whitespace, and only from the two ends: the
      result is a middle part of `s` with whitespace on either side. */
  lemma StripCutsWhitespace(s: string)
    ensures exists i, j :: 0 <= i <= j <= |s| && Strip(s) == s[i..j] && AllSpace(s[..i]) && AllSpace(s[j..])
  {
    var t := TrimStart(s);
    var r := TrimEnd(t);
    var i := |s| - |t|;
    TrimStartCutsSpace(s);
    TrimEndCutsSpace(t);
    assert r == s[i..i + |r|];
    assert AllSpace(s[i + |r|..]) by {
      assert s[i + |r|..] == t[|r|..];
    }
  }

  /** Stripping text that is already stripped changes nothing. */
  lemma StripFixesStripped(s: string)
    requires IsStripped(s)
    ensures Strip(s) == s
  {
    if s != [] {
      assert TrimStart(s) == s;
      assert TrimEnd(s) == s;
    }
  }

  /** Leading whitespace in front of text that does not start with
      whitespace is exactly what `TrimStart` removes. */
  lemma {:induction false} TrimStartPastSpace(x: string, p: string)
    requires AllSpace(x) && p != [] && !IsSpace(p[0])
    ensures TrimStart(x + p) == p
    decreases |x|
  {
    if x == [] {
      assert x + p == p;
    } else {
      assert (x + p)[1..] == x[1..] + p;
      TrimStartPastSpace(x[1..], p);
    }
  }

  /** Trailing whitespace after text that does not end with whitespace is
      exactly what `TrimEnd` removes. */
  lemma {:induction false} TrimEndPastSpace(p: string, y: string)
    requires AllSpace(y) && p != [] && !IsSpace(p[|p| - 1])
    ensures TrimEnd(p + y) == p
    decreases |y|
  {
    if y == [] {
      assert p + y == p;
    } else {
      var s := p + y;
      assert s[..|s| - 1] == p + y[..|y| - 1];
      TrimEndPastSpace(p, y[..|y| - 1]);
    }
  }

  /** `strip()` gives back the stripped text between any whitespace runs. */
  lemma StripAround(x: string, p: string, y: string)
    requires AllSpace(x) && AllSpace(y) && p != [] && IsStripped(p)
    ensures Strip(x + p + y) == p
  {
    assert x + p + y == x + (p + y);
    TrimStartPastSpace(x, p + y);
    TrimEndPastSpace(p, y);
  }

  /** `strip()` is idempotent. */
  lemma StripIdempotent(s: string)
    ensures Strip(Strip(s)) == Strip(s)
  {
    StripFixesStripped(Strip(s));
  }

  /** `token` starts at position `i` of `s`. */
  predicate OccursAt(s: string, token: string, i: int) {
    0 <= i && i + |token| <= |s| && s[i..i + |token|] == token
  }

  predicate Occurs(s: string, token: string) {
    exists i :: 0 <= i <= |s| && OccursAt(s, token, i)
  }

  /** Python's `s.replace(token, "")`: scan left to right and drop every
      non-overlapping occurrence of `token`. Replacing the empty string by
      the empty string leaves `s` as it is, as Python does. */
  function DeleteAll(s: string, token: string): (r: string)
    ensures |r| <= |s|
    ensures forall c :: c in r ==> c in s
    decreases |s|
  {
    if token == [] || |s| < |token| then s
    else if s[..|token|] == token then DeleteAll(s[|token|..], token)
    else [s[0]] + DeleteAll(s[1..], token)
  }

  lemma OccursInTail(s: string, token: string, i: int)
    requires 1 <= |s| && OccursAt(s[1..], token, i)
    ensures OccursAt(s, token, i + 1)
  {
    assert s[i + 1..i + 1 + |token|] == s[1..][i..i + |token|];
  }

  /** The pieces written one after another. */
  function Concat(pieces: seq<string>): string
    decreases |pieces|
  {
    if pieces == [] then [] else pieces[0] + Concat(pieces[1..])
  }

  lemma {:induction false} ConcatAppend(xs: seq<string>, ys: seq<string>)
    ensures Concat(xs + ys) == Concat(xs) + Concat(ys)
    decreases |xs|
  {
    if xs == [] {
      assert xs + ys == ys;
    } else {
      assert (xs + ys)[1..] == xs[1..] + ys;
      ConcatAppend(xs[1..], ys);
    }
  }

  /** The characters of `s`, one piece each. */
  function Chars(s: string): (pieces: seq<string>)
    ensures |pieces| == |s|
    ensures forall i :: 0 <= i < |s| ==> pieces[i] == [s[i]]
  {
    seq(|s|, i requires 0 <= i < |s| => [s[i]])
  }

  lemma {:induction false} ConcatChars(s: string)
    ensures Concat(Chars(s)) == s
    decreases |s|
  {
    if s != [] {
      assert Chars(s)[1..] == Chars(s[1..]);
      ConcatChars(s[1..]);
      assert s == [s[0]] + s[1..];
    }
  }

  /** Pieces that are all whitespace join into whitespace. */
  lemma {:induction false} ConcatSpace(pieces: seq<string>)
    requires forall x :: x in pieces ==> AllSpace(x)
    ensures AllSpace(Concat(pieces))
    decreases |pieces|
  {
    if pieces != [] {
      assert pieces[0] in pieces;
      ConcatSpace(pieces[1..]);
    }
  }

  /** No occurrence starting inside `a` means none starting inside its tail. */
  lemma NoStartInTail(a: string, rest: string, token: string)
    requires a != []
    requires forall j :: 0 <= j < |a| ==> !OccursAt(a + rest, token, j)
    ensures forall j :: 0 <= j < |a| - 1 ==> !OccursAt(a[1..] + rest, token, j)
  {
    var s := a + rest;
    assert s[1..] == a[1..] + rest;
    forall j | 0 <= j < |a| - 1
      ensures !OccursAt(a[1..] + rest, token, j)
    {
      if OccursAt(s[1..], token, j) {
        OccursInTail(s, token, j);
      }
    }
  }

  /** If no occurrence of the token starts inside `a`, the scan copies `a`
      and goes on with the rest as if it stood alone. */
  lemma {:induction false} DeleteAllPassesPiece(a: string, rest: string, token: string)
    requires token != []
    requires forall j :: 0 <= j < |a| ==> !OccursAt(a + rest, token, j)
    ensures DeleteAll(a + rest, token) == a + DeleteAll(rest, token)
    decreases |a|
  {
    if a == [] {
      assert a + rest == rest;
    } else {
      var s := a + rest;
      var tail := a[1..] + rest;
      assert s[1..] == tail;
      NoStartInTail(a, rest, token);
      DeleteAllPassesPiece(a[1..], rest, token);
      DeleteAllKeepsHead(s, token);
      assert a == [a[0]] + a[1..];
    }
  }

  /** Where the token does not start, the first character is copied. */
  lemma DeleteAllKeepsHead(s: string, token: string)
    requires token != [] && s != [] && !OccursAt(s, token, 0)
    ensures DeleteAll(s, token) == [s[0]] + DeleteAll(s[1..], token)
  {
    if |s| < |token| {
      assert s == [s[0]] + s[1..];
    }
  }

  lemma {:induction false} DeleteAllAbsent(s: string, token: string)
    requires !Occurs(s, token)
    ensures DeleteAll(s, token) == s
    decreases |s|
  {
    if token == [] || |s| < |token| {
    } else {
      assert !OccursAt(s, token, 0);
      assert s[..|token|] != token;
      forall i | 0 <= i <= |s[1..]|
        ensures !OccursAt(s[1..], token, i)
      {
        if OccursAt(s[1..], token, i) {
          OccursInTail(s, token, i);
        }
      }
      DeleteAllAbsent(s[1..], token);
    }
  }

  lemma {:induction false} DeleteAllPresent(s: string, token: string)
    requires token != [] && Occurs(s, token)
    ensures |DeleteAll(s, token)| < |s|
    decreases |s|
  {
    var i :| 0 <= i <= |s| && OccursAt(s, token, i);
    if s[..|token|] == token {
    } else {
      assert 1 <= i && i + |token| <= |s|;
      assert s[1..][i - 1..i - 1 + |token|] == s[i..i + |token|];
      assert OccursAt(s[1..], token, i - 1);
      DeleteAllPresent(s[1..], token);
    }
  }

  /** Deleting a non-empty token changes the text exactly when the token
      occurs in it. */
  lemma DeleteAllChangesIffOccurs(s: string, token: string)
    requires token != []
    ensures DeleteAll(s, token) == s <==> !Occurs(s, token)
  {
    if Occurs(s, token) {
      DeleteAllPresent(s, token);
    } else {
      DeleteAllAbsent(s, token);
    }
  }

  /** A single character is deleted everywhere. */
  lemma {:induction false} DeleteCharRemovesAll(s: string, c: char)
    ensures c !in DeleteAll(s, [c])
    decreases |s|
  {
    if |s| < 1 {
    } else if s[..1] == [c] {
      DeleteCharRemovesAll(s[1..], c);
    } else {
      assert s[0] != c by { assert s[..1] == [s[0]]; }
      DeleteCharRemovesAll(s[1..], c);
    }
  }

  /** A single character is deleted from each piece on its own. */
  lemma {:induction false} DeleteCharConcat(a: string, b: string, c: char)
    ensures DeleteAll(a + b, [c]) == DeleteAll(a, [c]) + DeleteAll(b, [c])
    decreases |a|
  {
    if a == [] {
      assert a + b == b;
    } else {
      var s := a + b;
      assert s[..1] == a[..1];
      assert s[1..] == a[1..] + b;
      DeleteCharConcat(a[1..], b, c);
    }
  }

  /** A leading copy of the token is dropped and the rest is scanned as if
      it stood alone. */
  lemma DeleteAllLeadingToken(token: string, s: string)
    requires token != []
    ensures DeleteAll(token + s, token) == DeleteAll(s, token)
  {
    assert (token + s)[..|token|] == token;
    assert (token + s)[|token|..] == s;
  }

  /** A multi-character deletion can create a new occurrence out of the
      pieces around the one it removed, so one pass does not remove them all. */
  lemma DeleteAllCanReassemble()
    ensures DeleteAll("AAUDUD", "AUD") == "AUD"
    ensures Occurs(DeleteAll("AAUDUD", "AUD"), "AUD")
  {
    var s := "AAUDUD";
    assert s[..3] != "AUD" by { assert s[1] == 'A'; }
    assert s[1..][..3] == "AUD";
    assert s[1..][3..] == "UD";
    assert DeleteAll("UD", "AUD") == "UD";
    assert OccursAt("AUD", "AUD", 0);
  }

  lemma OccurrenceHasFirstChar(s: string, token: string, i: int)
    requires token != [] && OccursAt(s, token, i)
    ensures token[0] in s
  {
    assert s[i] == s[i..i + |token|][0];
  }

  /** If the token's first character is absent, the token cannot occur. */
  lemma AbsentFirstChar(s: string, token: string)
    requires token != [] && token[0] !in s
    ensures !Occurs(s, token)
  {
    forall i | 0 <= i <= |s|
      ensures !OccursAt(s, token, i)
    {
      if OccursAt(s, token, i) {
        OccurrenceHasFirstChar(s, token, i);
      }
    }
  }
}
