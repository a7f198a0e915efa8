/**
 The price normaliser of the scraper (`parse_price`): delete a fixed list
 of currency tokens in a fixed order, strip whitespace, read the rest as a
 number, and fall back to zero when that fails.

 Python's `float()` is modelled by an exact decimal grammar over reals:
   [ "+" | "-" ] digits [ "." [ digits ] ]   or   [ "+" | "-" ] "." digits
 */
module Price {
  import opened Options
  import opened Text

  /** The tokens `parse_price` deletes, in the order it deletes them. */
  const CurrencyTokens: seq<string> := ["$", "£", "AUD", ",", "CAD", "€", "EUR"]

  /** Delete every occurrence of each token in turn, as a chain of
      `str.replace(token, "")` calls does. */
  function DeleteTokens(s: string, tokens: seq<string>): (r: string)
    ensures |r| <= |s|
    ensures forall c :: c in r ==> c in s
    decreases |tokens|
  {
    if tokens == [] then s else DeleteTokens(DeleteAll(s, tokens[0]), tokens[1..])
  }

  /** The text `parse_price` hands to `float()`. */
  function Normalize(s: string): (r: string)
    ensures IsStripped(r)
    ensures |r| <= |s|
  {
    Strip(DeleteTokens(s, CurrencyTokens))
  }

  predicate IsDigit(c: char) {
    '0' <= c <= '9'
  }

  predicate AllDigits(s: string) {
    forall k :: 0 <= k < |s| ==> IsDigit(s[k])
  }

  function DigitChar(d: nat): (c: char)
    requires d < 10
    ensures IsDigit(c) && c as int - '0' as int == d
  {
    ('0' as int + d) as char
  }

  function DigitValue(c: char): (d: nat)
    requires IsDigit(c)
    ensures d < 10
  {
    c as int - '0' as int
  }

  /** The value of a string of decimal digits; the empty string counts 0. */
  function DigitsValue(s: string): nat
    requires AllDigits(s)
  {
    if s == [] then 0 else 10 * DigitsValue(s[..|s| - 1]) + DigitValue(s[|s| - 1])
  }

  function Pow10(n: nat): (p: nat)
    ensures p >= 1
  {
    if n == 0 then 1 else 10 * Pow10(n - 1)
  }

  /** Position of the first '.', or `|s|` when there is none. */
  function PointIndex(s: string): (i: nat)
    ensures i <= |s|
    ensures forall k :: 0 <= k < i ==> s[k] != '.'
    ensures i < |s| ==> s[i] == '.'
  {
    if s == [] then 0 else if s[0] == '.' then 0 else 1 + PointIndex(s[1..])
  }

  /** `u` splits at position `i` into an integer part, a point and a
      fraction part, both parts being (possibly empty) digit strings. */
  predicate SplitsAtPoint(u: string, i: int) {
    0 <= i < |u| && u[i] == '.' && 2 <= |u| && AllDigits(u[..i]) && AllDigits(u[i + 1..])
  }

  /** The unsigned decimals of the grammar above. */
  predicate IsUnsignedDecimal(u: string) {
    (u != [] && AllDigits(u)) || exists i :: 0 <= i < |u| && SplitsAtPoint(u, i)
  }

  predicate HasSign(s: string) {
    s != [] && (s[0] == '+' || s[0] == '-')
  }

  /** The strings the model of `float()` accepts. */
  predicate IsDecimal(s: string) {
    if HasSign(s) then IsUnsignedDecimal(s[1..]) else IsUnsignedDecimal(s)
  }

  /** The value of `whole.fraction`, both written in decimal digits. */
  function PointedValue(whole: string, fraction: string): real
    requires AllDigits(whole) && AllDigits(fraction)
  {
    DigitsValue(whole) as real + DigitsValue(fraction) as real / Pow10(|fraction|) as real
  }

  function ParseUnsigned(u: string): Option<real> {
    if u == [] then None
    else if AllDigits(u) then Some(DigitsValue(u) as real)
    else
      var i := PointIndex(u);
      if i < |u| && 2 <= |u| && AllDigits(u[..i]) && AllDigits(u[i + 1..]) then
        Some(PointedValue(u[..i], u[i + 1..]))
      else None
  }

  /** The model of Python's `float(s)`: `None` where Python raises `ValueError`. */
  function ParseNumber(s: string): Option<real> {
    if HasSign(s) then
      match ParseUnsigned(s[1..])
      case None => None
      case Some(v) => Some(if s[0] == '-' then -v else v)
    else ParseUnsigned(s)
  }

  lemma ParseUnsignedDefined(u: string)
    ensures ParseUnsigned(u).Some? <==> IsUnsignedDecimal(u)
  {
    if IsUnsignedDecimal(u) && !AllDigits(u) {
      var i :| 0 <= i < |u| && SplitsAtPoint(u, i);
      assert u[i] == '.';
      forall k | 0 <= k < i
        ensures u[k] != '.'
      {
        assert u[..i][k] == u[k];
      }
      assert PointIndex(u) == i;
    }
    if ParseUnsigned(u).Some? && !AllDigits(u) {
      assert SplitsAtPoint(u, PointIndex(u));
    }
  }

  /** `float()` succeeds exactly on the decimal grammar. */
  lemma ParseNumberDefined(s: string)
    ensures ParseNumber(s).Some? <==> IsDecimal(s)
  {
    if HasSign(s) {
      ParseUnsignedDefined(s[1..]);
    } else {
      ParseUnsignedDefined(s);
    }
  }

  /** Python's `parse_price`: the number read from the normalised text, and
      0.0 whenever `float()` would raise, so no input makes it fail. */
  function ParsePrice(s: string): (r: real)
    ensures !IsDecimal(Normalize(s)) ==> r == 0.0
    ensures IsDecimal(Normalize(s)) ==> ParseNumber(Normalize(s)) == Some(r)
  {
    var n := Normalize(s);
    ParseNumberDefined(n);
    match ParseNumber(n)
    case Some(v) => v
    case None => 0.0
  }

  // ---- Rendering amounts, for the round trip -------------------------------

  /** The decimal digits of `n`, without leading zeros. */
  function NatDigits(n: nat): (s: string)
    ensures s != [] && AllDigits(s)
  {
    if n < 10 then [DigitChar(n)] else NatDigits(n / 10) + [DigitChar(n % 10)]
  }

  lemma {:induction false} NatDigitsRoundTrip(n: nat)
    ensures DigitsValue(NatDigits(n)) == n
  {
    if n >= 10 {
      var s := NatDigits(n);
      assert s[..|s| - 1] == NatDigits(n / 10);
      NatDigitsRoundTrip(n / 10);
    }
  }

  /** Text made of digits and points only: no currency token starts there. */
  predicate Plain(w: string) {
    forall k :: 0 <= k < |w| ==> IsDigit(w[k]) || w[k] == '.'
  }

  /** An amount of `cents` written the way the catalog shows it, without
      a currency: whole units, a point and exactly two digits. */
  function RenderCents(cents: nat): (s: string)
    ensures Plain(s)
  {
    NatDigits(cents / 100) + "." + Cents2(cents % 100)
  }

  lemma PointIndexPointed(a: string, b: string)
    requires AllDigits(a)
    ensures PointIndex(a + "." + b) == |a|
  {
    var u := a + "." + b;
    assert u[|a|] == '.';
    forall k | 0 <= k < |a|
      ensures u[k] != '.'
    {
      assert u[k] == a[k];
    }
  }

  /** A digit string, a point and a digit string read as whole part plus
      fraction. */
  lemma ParsePointed(a: string, b: string)
    requires AllDigits(a) && AllDigits(b) && |a| + |b| >= 1
    ensures ParseNumber(a + "." + b) == Some(PointedValue(a, b))
  {
    var u := a + "." + b;
    assert u[|a|] == '.';
    assert !AllDigits(u);
    PointIndexPointed(a, b);
    assert u[..|a|] == a;
    assert u[|a| + 1..] == b;
    assert !HasSign(u) by {
      if a == [] {
        assert u[0] == '.';
      } else {
        assert u[0] == a[0];
      }
    }
  }

  /** The two digits of a number below 100, leading zero included. */
  function Cents2(frac: nat): (s: string)
    requires frac < 100
    ensures |s| == 2 && AllDigits(s)
  {
    [DigitChar(frac / 10), DigitChar(frac % 10)]
  }

  lemma {:induction false} Cents2Value(frac: nat)
    requires frac < 100
    ensures DigitsValue(Cents2(frac)) == frac
  {
    var b := Cents2(frac);
    var hi, lo := frac / 10, frac % 10;
    assert b[..1] == [DigitChar(hi)];
    assert b[..1][..0] == [];
    assert DigitValue(b[0]) == hi;
    assert DigitValue(b[1]) == lo;
    assert DigitsValue(b[..1]) == hi;
  }

  lemma CentsAsReal(cents: nat)
    ensures (cents / 100) as real + (cents % 100) as real / 100.0 == cents as real / 100.0
  {
    var whole := cents / 100;
    var frac := cents % 100;
    assert cents == 100 * whole + frac;
    assert cents as real == 100.0 * whole as real + frac as real;
  }

  /** Whole units written in any digits, a point and the two cent digits
      read as exactly cents / 100. */
  lemma PointedAmount(a: string, cents: nat)
    requires AllDigits(a) && DigitsValue(a) == cents / 100
    ensures ParseNumber(a + "." + Cents2(cents % 100)) == Some(cents as real / 100.0)
  {
    var b := Cents2(cents % 100);
    Cents2Value(cents % 100);
    ParsePointed(a, b);
    assert Pow10(2) == 100;
    CentsAsReal(cents);
  }

  lemma RenderCentsRoundTrip(cents: nat)
    ensures ParseNumber(RenderCents(cents)) == Some(cents as real / 100.0)
  {
    NatDigitsRoundTrip(cents / 100);
    PointedAmount(NatDigits(cents / 100), cents);
  }

  lemma TokenCannotOccurInPlain(w: string, token: string)
    requires token in CurrencyTokens && Plain(w)
    ensures !Occurs(w, token)
  {
    AbsentFirstChar(w, token);
  }

  lemma {:induction false} DeleteTokensPlain(w: string, tokens: seq<string>)
    requires Plain(w)
    requires forall k :: 0 <= k < |tokens| ==> tokens[k] in CurrencyTokens
    ensures DeleteTokens(w, tokens) == w
  {
    if tokens != [] {
      TokenCannotOccurInPlain(w, tokens[0]);
      DeleteAllAbsent(w, tokens[0]);
      DeleteTokensPlain(w, tokens[1..]);
    }
  }

  /** A currency token in front of plain text contains no other token, even
      across the boundary ("CAD" holds the 'A' that starts "AUD"). */
  lemma NoOtherToken(t: string, w: string, k: string)
    requires t in CurrencyTokens && k in CurrencyTokens && k != t && Plain(w)
    ensures !Occurs(t + w, k)
  {
    if k == "," {
      AbsentFirstChar(t + w, k);
    } else {
      NoLetterToken(t, w, k);
    }
  }

  /** Text of digits, points and thousands separators. */
  predicate Numeric(w: string) {
    forall k :: 0 <= k < |w| ==> IsDigit(w[k]) || w[k] == '.' || w[k] == ','
  }

  /** A token other than "," cannot occur in numeric text, whatever single
      token stands in front of it. */
  lemma NoLetterToken(t: string, w: string, k: string)
    requires t == "" || t in CurrencyTokens
    requires k in CurrencyTokens && k != t && k != "," && Numeric(w)
    ensures !Occurs(t + w, k)
  {
    var s := t + w;
    if t == "CAD" && k == "AUD" {
      forall i | 0 <= i <= |s|
        ensures !OccursAt(s, k, i)
      {
        if i + 3 <= |s| {
          assert s[i..i + 3][0] == s[i];
          assert s[i..i + 3][1] == s[i + 1];
          if i >= 3 {
            assert s[i] == w[i - 3];
          }
        }
      }
    } else {
      assert k[0] !in t;
      assert k[0] !in w;
      AbsentFirstChar(s, k);
    }
  }

  lemma {:induction false} DeleteTokensTagged(t: string, w: string, tokens: seq<string>)
    requires Plain(w) && t in tokens
    requires forall k :: 0 <= k < |tokens| ==> tokens[k] in CurrencyTokens
    ensures DeleteTokens(t + w, tokens) == w
  {
    if tokens[0] == t {
      DeleteAllLeadingToken(t, w);
      TokenCannotOccurInPlain(w, t);
      DeleteAllAbsent(w, t);
      DeleteTokensPlain(w, tokens[1..]);
    } else {
      NoOtherToken(t, w, tokens[0]);
      DeleteAllAbsent(t + w, tokens[0]);
      DeleteTokensTagged(t, w, tokens[1..]);
    }
  }

  lemma DeleteTokensTaggedAmount(t: string, w: string)
    requires t == "" || t in CurrencyTokens
    requires Plain(w)
    ensures DeleteTokens(t + w, CurrencyTokens) == w
  {
    if t == "" {
      assert t + w == w;
      DeleteTokensPlain(w, CurrencyTokens);
    } else {
      DeleteTokensTagged(t, w, CurrencyTokens);
    }
  }

  lemma NormalizeTaggedPlain(t: string, w: string)
    requires t == "" || t in CurrencyTokens
    requires Plain(w) && IsStripped(w)
    ensures Normalize(t + w) == w
  {
    DeleteTokensTaggedAmount(t, w);
    StripFixesStripped(w);
  }

  lemma NormalizeTaggedAmount(t: string, cents: nat)
    requires t == "" || t in CurrencyTokens
    ensures Normalize(t + RenderCents(cents)) == RenderCents(cents)
  {
    var w := RenderCents(cents);
    assert IsDigit(w[0]) && IsDigit(w[|w| - 1]);
    NormalizeTaggedPlain(t, w);
  }

  lemma ParsePriceOfTaggedAmount(t: string, cents: nat)
    requires t == "" || t in CurrencyTokens
    ensures ParsePrice(t + RenderCents(cents)) == cents as real / 100.0
  {
    NormalizeTaggedAmount(t, cents);
    RenderCentsRoundTrip(cents);
    ParseNumberDefined(RenderCents(cents));
  }

  // ---- Amounts with thousands separators ------------------------------------

  lemma {:induction false} DigitsValueAppend(a: string, b: string)
    requires AllDigits(a) && AllDigits(b)
    ensures AllDigits(a + b)
    ensures DigitsValue(a + b) == DigitsValue(a) * Pow10(|b|) + DigitsValue(b)
    decreases |b|
  {
    if b == [] {
      assert a + b == a;
    } else {
      var n := |b|;
      var b' := b[..n - 1];
      assert (a + b)[..|a + b| - 1] == a + b';
      assert (a + b)[|a + b| - 1] == b[n - 1];
      DigitsValueAppend(a, b');
      ShiftDigit(DigitsValue(a), Pow10(n - 1), DigitsValue(b'), DigitValue(b[n - 1]));
    }
  }

  /** Appending a digit to both halves of `x * p + y`. */
  lemma ShiftDigit(x: int, p: int, y: int, d: int)
    ensures 10 * (x * p + y) + d == x * (10 * p) + (10 * y + d)
  {
  }

  /** The three digits of a number below 1000, leading zeros included: one
      group of a grouped amount. */
  function Digits3(k: nat): (s: string)
    requires k < 1000
    ensures |s| == 3 && AllDigits(s)
  {
    [DigitChar(k / 100)] + Cents2(k % 100)
  }

  lemma Digits3Value(k: nat)
    requires k < 1000
    ensures DigitsValue(Digits3(k)) == k
  {
    var hi := [DigitChar(k / 100)];
    assert hi[..0] == [];
    assert DigitsValue(hi) == k / 100;
    Cents2Value(k % 100);
    DigitsValueAppend(hi, Cents2(k % 100));
    assert Pow10(2) == 100;
  }

  /** The whole units of an amount with a "," between groups of three
      digits, the way the catalog shows prices of 1000 and more. */
  function GroupDigits(n: nat): (s: string)
    ensures s != [] && Numeric(s)
  {
    if n < 1000 then NatDigits(n) else GroupDigits(n / 1000) + "," + Digits3(n % 1000)
  }

  /** Deleting the separators leaves digits that read back as `n`. */
  lemma {:induction false} GroupDigitsUngroup(n: nat)
    ensures AllDigits(DeleteAll(GroupDigits(n), ","))
    ensures DigitsValue(DeleteAll(GroupDigits(n), ",")) == n
    decreases n
  {
    if n < 1000 {
      AbsentFirstChar(NatDigits(n), ",");
      DeleteAllAbsent(NatDigits(n), ",");
      NatDigitsRoundTrip(n);
    } else {
      var hi := GroupDigits(n / 1000);
      var lo := Digits3(n % 1000);
      GroupDigitsUngroup(n / 1000);
      var d := DeleteAll(hi, ",");
      DeleteCharConcat(hi + ",", lo, ',');
      DeleteCharConcat(hi, ",", ',');
      AbsentFirstChar(lo, ",");
      DeleteAllAbsent(lo, ",");
      assert DeleteAll(",", ",") == [];
      assert DeleteAll(hi + "," + lo, ",") == d + lo;
      Digits3Value(n % 1000);
      DigitsValueAppend(d, lo);
      assert Pow10(3) == 1000;
    }
  }

  /** An amount of `cents` with thousands separators: grouped whole units,
      a point and exactly two digits, as in "1,299.99". */
  function RenderGrouped(cents: nat): (s: string)
    ensures Numeric(s)
  {
    GroupDigits(cents / 100) + "." + Cents2(cents % 100)
  }

  /** Numeric text without its separators is plain. */
  lemma NumericUngrouped(w: string)
    requires Numeric(w)
    ensures Plain(DeleteAll(w, ","))
  {
    var p := DeleteAll(w, ",");
    DeleteCharRemovesAll(w, ',');
    forall k | 0 <= k < |p|
      ensures IsDigit(p[k]) || p[k] == '.'
    {
      assert p[k] in p;
    }
  }

  /** Plain text has no whitespace at either end. */
  lemma PlainIsStripped(w: string)
    requires Plain(w)
    ensures IsStripped(w)
  {
    if w != [] {
      assert IsDigit(w[0]) || w[0] == '.';
      assert IsDigit(w[|w| - 1]) || w[|w| - 1] == '.';
    }
  }

  /** Deleting the separators of a grouped amount touches only its whole
      units. */
  lemma UngroupedShape(cents: nat)
    ensures DeleteAll(RenderGrouped(cents), ",") ==
      DeleteAll(GroupDigits(cents / 100), ",") + "." + Cents2(cents % 100)
  {
    var g := GroupDigits(cents / 100);
    var b := Cents2(cents % 100);
    DeleteCharConcat(g, "." + b, ',');
    AbsentFirstChar("." + b, ",");
    DeleteAllAbsent("." + b, ",");
    assert g + "." + b == g + ("." + b);
    assert DeleteAll(g, ",") + ("." + b) == DeleteAll(g, ",") + "." + b;
  }

  /** Without its separators, a grouped amount is one `float()` reads as
      exactly cents / 100. */
  lemma UngroupedRoundTrip(cents: nat)
    ensures ParseNumber(DeleteAll(RenderGrouped(cents), ",")) == Some(cents as real / 100.0)
  {
    UngroupedShape(cents);
    GroupDigitsUngroup(cents / 100);
    PointedAmount(DeleteAll(GroupDigits(cents / 100), ","), cents);
  }

  /** Deleting the tokens one after another, in two runs. */
  lemma {:induction false} DeleteTokensSplit(s: string, a: seq<string>, b: seq<string>)
    ensures DeleteTokens(s, a + b) == DeleteTokens(DeleteTokens(s, a), b)
    decreases |a|
  {
    if a == [] {
      assert a + b == b;
    } else {
      assert (a + b)[0] == a[0];
      assert (a + b)[1..] == a[1..] + b;
      DeleteTokensSplit(DeleteAll(s, a[0]), a[1..], b);
    }
  }

  lemma {:induction false} DeleteTokensNoneOccur(s: string, tokens: seq<string>)
    requires forall k :: 0 <= k < |tokens| ==> !Occurs(s, tokens[k])
    ensures DeleteTokens(s, tokens) == s
    decreases |tokens|
  {
    if tokens != [] {
      DeleteAllAbsent(s, tokens[0]);
      DeleteTokensNoneOccur(s, tokens[1..]);
    }
  }

  /** When no token but a leading tag `t` occurs, deleting the tokens
      removes just the tag. */
  lemma {:induction false} DeleteTokensTag(t: string, w: string, tokens: seq<string>)
    requires t == "" || t in tokens
    requires t != "" ==> !Occurs(w, t)
    requires forall k :: 0 <= k < |tokens| ==> tokens[k] != ""
    requires forall k :: 0 <= k < |tokens| && tokens[k] != t ==> !Occurs(t + w, tokens[k]) && !Occurs(w, tokens[k])
    ensures DeleteTokens(t + w, tokens) == w
    decreases |tokens|
  {
    if t == "" {
      assert t + w == w;
      DeleteTokensNoneOccur(w, tokens);
    } else if tokens[0] == t {
      DeleteAllLeadingToken(t, w);
      DeleteAllAbsent(w, t);
      DeleteTokensNoneOccur(w, tokens[1..]);
    } else {
      DeleteAllAbsent(t + w, tokens[0]);
      assert tokens == [tokens[0]] + tokens[1..];
      DeleteTokensTag(t, w, tokens[1..]);
    }
  }

  /** The tokens `parse_price` deletes before "," and after it. */
  const LeadTokens: seq<string> := ["$", "£", "AUD"]
  const TrailTokens: seq<string> := ["CAD", "€", "EUR"]

  lemma DeleteTokensAroundComma(s: string)
    ensures DeleteTokens(s, CurrencyTokens) ==
      DeleteTokens(DeleteAll(DeleteTokens(s, LeadTokens), ","), TrailTokens)
  {
    assert CurrencyTokens == LeadTokens + ([","] + TrailTokens);
    DeleteTokensSplit(s, LeadTokens, [","] + TrailTokens);
    assert ([","] + TrailTokens)[1..] == TrailTokens;
  }

  /** A lead token, or none, in front of numeric text: the lead run
      removes exactly the tag. */
  lemma LeadRunRemovesTag(t: string, w: string)
    requires t == "" || t in LeadTokens
    requires Numeric(w)
    ensures DeleteTokens(t + w, LeadTokens) == w
  {
    forall k | 0 <= k < |LeadTokens| && LeadTokens[k] != t
      ensures !Occurs(t + w, LeadTokens[k]) && !Occurs(w, LeadTokens[k])
    {
      NoLetterToken(t, w, LeadTokens[k]);
      NoLetterToken("", w, LeadTokens[k]);
      assert "" + w == w;
    }
    if t != "" {
      NoLetterToken("", w, t);
      assert "" + w == w;
    }
    DeleteTokensTag(t, w, LeadTokens);
  }

  /** No lead token occurs behind "," or a trail token. */
  lemma LeadRunKeepsOthers(t: string, w: string)
    requires t == "," || t in TrailTokens
    requires Numeric(w)
    ensures DeleteTokens(t + w, LeadTokens) == t + w
  {
    if t == "," {
      assert Numeric(t + w);
      forall k | 0 <= k < |LeadTokens|
        ensures !Occurs(t + w, LeadTokens[k])
      {
        NoLetterToken("", t + w, LeadTokens[k]);
        assert "" + (t + w) == t + w;
      }
    } else {
      forall k | 0 <= k < |LeadTokens|
        ensures !Occurs(t + w, LeadTokens[k])
      {
        NoLetterToken(t, w, LeadTokens[k]);
      }
    }
    DeleteTokensNoneOccur(t + w, LeadTokens);
  }

  lemma LeadTaggedNumeric(t: string, w: string)
    requires t == "" || t in LeadTokens
    requires Numeric(w)
    ensures DeleteTokens(t + w, CurrencyTokens) == DeleteAll(w, ",")
  {
    NumericUngrouped(w);
    DeleteTokensAroundComma(t + w);
    LeadRunRemovesTag(t, w);
    DeleteTokensPlain(DeleteAll(w, ","), TrailTokens);
  }

  lemma CommaTaggedNumeric(w: string)
    requires Numeric(w)
    ensures DeleteTokens("," + w, CurrencyTokens) == DeleteAll(w, ",")
  {
    NumericUngrouped(w);
    DeleteTokensAroundComma("," + w);
    LeadRunKeepsOthers(",", w);
    DeleteAllLeadingToken(",", w);
    DeleteTokensPlain(DeleteAll(w, ","), TrailTokens);
  }

  /** The "," step passes over a tag without a comma. */
  lemma CommaStepKeepsTag(t: string, w: string)
    requires ',' !in t
    ensures DeleteAll(t + w, ",") == t + DeleteAll(w, ",")
  {
    DeleteCharConcat(t, w, ',');
    AbsentFirstChar(t, ",");
    DeleteAllAbsent(t, ",");
  }

  lemma TrailTaggedNumeric(t: string, w: string)
    requires t in TrailTokens
    requires Numeric(w)
    ensures DeleteTokens(t + w, CurrencyTokens) == DeleteAll(w, ",")
  {
    var p := DeleteAll(w, ",");
    NumericUngrouped(w);
    DeleteTokensAroundComma(t + w);
    LeadRunKeepsOthers(t, w);
    TrailTokenHasNoComma(t);
    CommaStepKeepsTag(t, w);
    DeleteTokensTagged(t, p, TrailTokens);
  }

  lemma TrailTokenHasNoComma(t: string)
    requires t in TrailTokens
    ensures ',' !in t
  {
  }

  /** With no token or one token in front of numeric text, the chain of
      deletions removes the tag, and the "," step takes the separators out. */
  lemma DeleteTokensGroupedAmount(t: string, w: string)
    requires t == "" || t in CurrencyTokens
    requires Numeric(w)
    ensures DeleteTokens(t + w, CurrencyTokens) == DeleteAll(w, ",")
  {
    if t == "" || t in LeadTokens {
      LeadTaggedNumeric(t, w);
    } else if t == "," {
      CommaTaggedNumeric(w);
    } else {
      TrailTaggedNumeric(t, w);
    }
  }

  lemma NormalizeGroupedAmount(t: string, cents: nat)
    requires t == "" || t in CurrencyTokens
    ensures Normalize(t + RenderGrouped(cents)) == DeleteAll(RenderGrouped(cents), ",")
  {
    var w := RenderGrouped(cents);
    DeleteTokensGroupedAmount(t, w);
    NumericUngrouped(w);
    PlainIsStripped(DeleteAll(w, ","));
    StripFixesStripped(DeleteAll(w, ","));
  }

  /** A price shown with thousands separators and no token or any one token
      in front, such as "$1,299.99", reads as exactly cents / 100. */
  lemma ParsePriceOfGroupedAmount(t: string, cents: nat)
    requires t == "" || t in CurrencyTokens
    ensures ParsePrice(t + RenderGrouped(cents)) == cents as real / 100.0
  {
    NormalizeGroupedAmount(t, cents);
    UngroupedRoundTrip(cents);
    ParseNumberDefined(DeleteAll(RenderGrouped(cents), ","));
  }

  /** 1299.99 is rendered with one separator. */
  lemma GroupedExample()
    ensures RenderGrouped(129999) == "1,299.99"
  {
    assert GroupDigits(1) == "1";
    assert Digits3(299) == "299";
    assert Cents2(99) == "99";
  }

  lemma SplitTokenKeepsSigns()
    ensures DeleteAll("A,UD", "$") == "A,UD"
    ensures DeleteAll("A,UD", "£") == "A,UD"
  {
    AbsentFirstChar("A,UD", "$");
    DeleteAllAbsent("A,UD", "$");
    AbsentFirstChar("A,UD", "£");
    DeleteAllAbsent("A,UD", "£");
  }

  lemma SplitTokenKeepsCode()
    ensures DeleteAll("A,UD", "AUD") == "A,UD"
  {
    assert "A,UD"[..3][1] != "AUD"[1];
    assert "A,UD"[1..] == ",UD";
    AbsentFirstChar(",UD", "AUD");
    DeleteAllAbsent(",UD", "AUD");
  }

  lemma SplitTokenLosesComma()
    ensures DeleteAll("A,UD", ",") == "AUD"
  {
  }

  lemma DeleteFromWholeToken()
    ensures DeleteAll("AUD", "CAD") == "AUD"
    ensures DeleteAll("AUD", "€") == "AUD"
    ensures DeleteAll("AUD", "EUR") == "AUD"
  {
    AbsentFirstChar("AUD", "CAD");
    DeleteAllAbsent("AUD", "CAD");
    AbsentFirstChar("AUD", "€");
    DeleteAllAbsent("AUD", "€");
    AbsentFirstChar("AUD", "EUR");
    DeleteAllAbsent("AUD", "EUR");
  }

  lemma NormalizeSplitToken()
    ensures Normalize("A,UD") == "AUD"
  {
    var ts := CurrencyTokens;
    SplitTokenKeepsSigns();
    SplitTokenKeepsCode();
    SplitTokenLosesComma();
    DeleteFromWholeToken();
    assert DeleteTokens("A,UD", ts) == DeleteTokens("AUD", ts[4..]);
    assert DeleteTokens("AUD", ts[4..]) == "AUD";
    StripFixesStripped("AUD");
  }

  lemma NormalizeWholeToken()
    ensures Normalize("AUD") == ""
  {
    assert DeleteAll("AUD", "$") == "AUD";
    assert DeleteAll("AUD", "£") == "AUD";
    assert DeleteAll("AUD", "AUD") == "";
    assert DeleteTokens("AUD", CurrencyTokens) == DeleteTokens("", CurrencyTokens[3..]);
  }

  /** Because the tokens are deleted in a fixed order, normalising twice is
      not normalising once: deleting "," from "A,UD" assembles "AUD" after
      "AUD" has already been deleted, and that text is not a number. */
  lemma NormalizeNotIdempotent()
    ensures Normalize("A,UD") == "AUD"
    ensures Normalize(Normalize("A,UD")) == ""
  {
    NormalizeSplitToken();
    NormalizeWholeToken();
  }

  /** The text "A,UD" normalises to "AUD", which is not a number, so its
      price reads as zero. */
  lemma SplitTokenPriceIsZero()
    ensures ParsePrice("A,UD") == 0.0
  {
    NormalizeSplitToken();
    NotDecimal("AUD");
  }

  /** Text with no digit and no point is not a number. */
  lemma NotDecimal(s: string)
    requires forall k :: 0 <= k < |s| ==> !IsDigit(s[k]) && s[k] != '.'
    requires s != [] && !HasSign(s)
    ensures !IsDecimal(s)
  {
    assert !IsDigit(s[0]);
  }
}
