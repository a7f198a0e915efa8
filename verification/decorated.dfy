/**
 Price text as `parse_price` meets it on the catalog: an amount with
 whitespace and whole currency tokens around it, in any number and order,
 as in " AUD 1,299.99 ", "1,299.99 €" or "AUD $1,299.99". The text is read
 as a sequence of pieces; every `replace` of the chain then removes exactly
 the pieces equal to its token, and `strip()` removes the whitespace left
 around the amount.
 */
module Decorated {
  import opened Text
  import opened Price

  /** What may stand next to an amount: one whitespace character or one
      whole currency token. */
  predicate Decoration(piece: string) {
    piece in CurrencyTokens || (|piece| == 1 && IsSpace(piece[0]))
  }

  predicate AllDecoration(pieces: seq<string>) {
    forall x :: x in pieces ==> Decoration(x)
  }

  /** A piece of price text: a decoration, or one character of a numeric
      amount. */
  predicate PricePiece(piece: string) {
    Decoration(piece) || (|piece| == 1 && Numeric(piece))
  }

  predicate AllPricePieces(pieces: seq<string>) {
    forall x :: x in pieces ==> PricePiece(x)
  }

  /** The pieces that are not among `tokens`, in their order. */
  function Drop(pieces: seq<string>, tokens: seq<string>): (kept: seq<string>)
    ensures forall x :: x in kept <==> x in pieces && x !in tokens
    decreases |pieces|
  {
    if pieces == [] then []
    else (if pieces[0] in tokens then [] else [pieces[0]]) + Drop(pieces[1..], tokens)
  }

  lemma {:induction false} DropAppend(xs: seq<string>, ys: seq<string>, tokens: seq<string>)
    ensures Drop(xs + ys, tokens) == Drop(xs, tokens) + Drop(ys, tokens)
    decreases |xs|
  {
    if xs == [] {
      assert xs + ys == ys;
    } else {
      assert (xs + ys)[1..] == xs[1..] + ys;
      DropAppend(xs[1..], ys, tokens);
    }
  }

  lemma {:induction false} DropNone(xs: seq<string>)
    ensures Drop(xs, []) == xs
    decreases |xs|
  {
    if xs != [] {
      DropNone(xs[1..]);
      assert xs == [xs[0]] + xs[1..];
    }
  }

  /** Dropping two lists of tokens one after the other drops both. */
  lemma {:induction false} DropTwice(xs: seq<string>, a: seq<string>, b: seq<string>)
    ensures Drop(Drop(xs, a), b) == Drop(xs, a + b)
    decreases |xs|
  {
    if xs != [] {
      var x := xs[0];
      DropTwice(xs[1..], a, b);
      assert x in a + b <==> x in a || x in b;
      if x in a {
        assert Drop(xs, a) == Drop(xs[1..], a);
      } else {
        var d := Drop(xs[1..], a);
        assert Drop(xs, a) == [x] + d;
        assert ([x] + d)[1..] == d;
      }
    }
  }

  /** Two token lists that agree on every piece drop the same pieces. */
  lemma {:induction false} DropAgree(xs: seq<string>, a: seq<string>, b: seq<string>)
    requires forall x :: x in xs ==> (x in a <==> x in b)
    ensures Drop(xs, a) == Drop(xs, b)
    decreases |xs|
  {
    if xs != [] {
      assert xs[0] in xs;
      DropAgree(xs[1..], a, b);
    }
  }

  /** A one-character piece is never where a different currency token
      starts: no multi-character token begins with a whitespace or numeric
      character. */
  lemma SingleCharPiece(c: char, rest: string, k: string)
    requires PricePiece([c]) && k in CurrencyTokens && k != [c]
    ensures !OccursAt([c] + rest, k, 0)
  {
    var s := [c] + rest;
    assert k[0] != c;
    if |k| <= |s| {
      assert s[..|k|][0] == c;
    }
  }

  /** No other currency token starts inside a three-letter token, whatever
      follows it; "CAD" holds the 'A' that starts "AUD", but a 'D' and not a
      'U' comes next. */
  lemma CodePiece(a: string, rest: string, k: string)
    requires a in CurrencyTokens && |a| == 3 && k in CurrencyTokens && k != a
    ensures forall j :: 0 <= j < |a| ==> !OccursAt(a + rest, k, j)
  {
    var s := a + rest;
    forall j | 0 <= j < |a|
      ensures !OccursAt(s, k, j)
    {
      if j + |k| <= |s| {
        assert s[j..j + |k|][0] == a[j];
        if j == 1 && |k| == 3 {
          assert s[j..j + |k|][1] == a[2];
        }
      }
    }
  }

  /** A currency token starts nowhere inside a different price piece. */
  lemma OnlyWholeTokens(a: string, rest: string, k: string)
    requires PricePiece(a) && k in CurrencyTokens && a != k
    ensures forall j :: 0 <= j < |a| ==> !OccursAt(a + rest, k, j)
  {
    if |a| == 1 {
      assert a == [a[0]];
      SingleCharPiece(a[0], rest, k);
    } else {
      CodePiece(a, rest, k);
    }
  }

  /** One `replace(k, "")` on price text removes exactly the pieces equal
      to `k`. */
  lemma {:induction false} DeleteTokenFromPieces(xs: seq<string>, k: string)
    requires AllPricePieces(xs) && k in CurrencyTokens
    ensures DeleteAll(Concat(xs), k) == Concat(Drop(xs, [k]))
    decreases |xs|
  {
    if xs != [] {
      assert xs[0] in xs;
      var x, rest := xs[0], Concat(xs[1..]);
      DeleteTokenFromPieces(xs[1..], k);
      assert Concat(xs) == x + rest;
      if x == k {
        assert x in [k];
        assert Drop(xs, [k]) == Drop(xs[1..], [k]);
        DeleteAllLeadingToken(k, rest);
      } else {
        var d := Drop(xs[1..], [k]);
        assert x !in [k];
        assert Drop(xs, [k]) == [x] + d;
        assert ([x] + d)[1..] == d;
        OnlyWholeTokens(x, rest, k);
        DeleteAllPassesPiece(x, rest, k);
      }
    }
  }

  /** The whole chain of `replace` calls removes exactly the pieces that are
      among its tokens. */
  lemma {:induction false} DeleteTokensFromPieces(xs: seq<string>, tokens: seq<string>)
    requires AllPricePieces(xs)
    requires forall i :: 0 <= i < |tokens| ==> tokens[i] in CurrencyTokens
    ensures DeleteTokens(Concat(xs), tokens) == Concat(Drop(xs, tokens))
    decreases |tokens|
  {
    if tokens != [] {
      var ys := Drop(xs, [tokens[0]]);
      DeleteTokenFromPieces(xs, tokens[0]);
      DeleteTokensFromPieces(ys, tokens[1..]);
      DropTwice(xs, [tokens[0]], tokens[1..]);
      assert [tokens[0]] + tokens[1..] == tokens;
      calc {
        DeleteTokens(Concat(xs), tokens);
        DeleteTokens(DeleteAll(Concat(xs), tokens[0]), tokens[1..]);
        DeleteTokens(Concat(ys), tokens[1..]);
        Concat(Drop(ys, tokens[1..]));
        Concat(Drop(xs, tokens));
      }
    } else {
      DropNone(xs);
    }
  }

  /** The characters of numeric text are price pieces, and of the currency
      tokens only "," is among them. */
  lemma NumericPieces(w: string)
    requires Numeric(w)
    ensures AllPricePieces(Chars(w))
    ensures Drop(Chars(w), CurrencyTokens) == Drop(Chars(w), [","])
  {
    forall x | x in Chars(w)
      ensures PricePiece(x) && (x in CurrencyTokens <==> x in [","])
    {
      var i :| 0 <= i < |w| && Chars(w)[i] == x;
      assert x == [w[i]];
    }
    DropAgree(Chars(w), CurrencyTokens, [","]);
  }

  /** Removing the currency tokens from decorations leaves whitespace. */
  lemma DecorationLeavesSpace(pieces: seq<string>)
    requires AllDecoration(pieces)
    ensures AllSpace(Concat(Drop(pieces, CurrencyTokens)))
  {
    forall x | x in Drop(pieces, CurrencyTokens)
      ensures AllSpace(x)
    {
      assert Decoration(x) && x !in CurrencyTokens;
    }
    ConcatSpace(Drop(pieces, CurrencyTokens));
  }

  /** The chain of deletions on a decorated numeric amount leaves the
      whitespace of the decorations and the amount without separators. */
  lemma DeleteTokensDecorated(front: seq<string>, w: string, back: seq<string>)
    requires AllDecoration(front) && AllDecoration(back) && Numeric(w)
    ensures DeleteTokens(Concat(front) + w + Concat(back), CurrencyTokens) ==
      Concat(Drop(front, CurrencyTokens)) + DeleteAll(w, ",") + Concat(Drop(back, CurrencyTokens))
  {
    var xs := front + Chars(w) + back;
    ConcatChars(w);
    ConcatAppend(front + Chars(w), back);
    ConcatAppend(front, Chars(w));
    NumericPieces(w);
    assert AllPricePieces(xs);
    DeleteTokensFromPieces(xs, CurrencyTokens);
    DropAppend(front + Chars(w), back, CurrencyTokens);
    DropAppend(front, Chars(w), CurrencyTokens);
    ConcatAppend(Drop(front, CurrencyTokens) + Drop(Chars(w), CurrencyTokens), Drop(back, CurrencyTokens));
    ConcatAppend(Drop(front, CurrencyTokens), Drop(Chars(w), CurrencyTokens));
    DeleteTokenFromPieces(Chars(w), ",");
  }

  /** After the deletions and `strip()`, a decorated grouped amount is the
      amount without its separators. */
  lemma NormalizeDecorated(front: seq<string>, cents: nat, back: seq<string>)
    requires AllDecoration(front) && AllDecoration(back)
    ensures Normalize(Concat(front) + RenderGrouped(cents) + Concat(back)) == DeleteAll(RenderGrouped(cents), ",")
  {
    var w := RenderGrouped(cents);
    var p := DeleteAll(w, ",");
    DeleteTokensDecorated(front, w, back);
    DecorationLeavesSpace(front);
    DecorationLeavesSpace(back);
    UngroupedShape(cents);
    NumericUngrouped(w);
    PlainIsStripped(p);
    StripAround(Concat(Drop(front, CurrencyTokens)), p, Concat(Drop(back, CurrencyTokens)));
  }

  /** A grouped amount with any whitespace and any whole currency tokens
      before and after it reads as exactly cents / 100. */
  lemma ParsePriceOfDecoratedAmount(front: seq<string>, cents: nat, back: seq<string>)
    requires AllDecoration(front) && AllDecoration(back)
    ensures ParsePrice(Concat(front) + RenderGrouped(cents) + Concat(back)) == cents as real / 100.0
  {
    NormalizeDecorated(front, cents, back);
    UngroupedRoundTrip(cents);
    ParseNumberDefined(DeleteAll(RenderGrouped(cents), ","));
  }

  /** Whitespace, then at most one token, then whitespace, as pieces. */
  function SpacedTag(a: string, t: string, b: string): (pieces: seq<string>)
    requires AllSpace(a) && AllSpace(b) && (t == "" || t in CurrencyTokens)
    ensures AllDecoration(pieces)
  {
    Chars(a) + (if t == "" then [] else [t]) + Chars(b)
  }

  lemma SpacedTagText(a: string, t: string, b: string)
    requires AllSpace(a) && AllSpace(b) && (t == "" || t in CurrencyTokens)
    ensures Concat(SpacedTag(a, t, b)) == a + t + b
  {
    var tag: seq<string> := if t == "" then [] else [t];
    ConcatAppend(Chars(a) + tag, Chars(b));
    ConcatAppend(Chars(a), tag);
    ConcatChars(a);
    ConcatChars(b);
    assert Concat(tag) == t;
  }

  /** A grouped amount with optional whitespace and an optional token on
      either side, such as " AUD 1,299.99 " or "1,299.99 €", reads as
      exactly cents / 100. */
  lemma ParsePriceOfSpacedAmount(a: string, t: string, b: string, cents: nat, c: string, u: string, d: string)
    requires AllSpace(a) && AllSpace(b) && AllSpace(c) && AllSpace(d)
    requires t == "" || t in CurrencyTokens
    requires u == "" || u in CurrencyTokens
    ensures ParsePrice(a + t + b + RenderGrouped(cents) + c + u + d) == cents as real / 100.0
  {
    var w := RenderGrouped(cents);
    SpacedTagText(a, t, b);
    SpacedTagText(c, u, d);
    ParsePriceOfDecoratedAmount(SpacedTag(a, t, b), cents, SpacedTag(c, u, d));
    Regroup(a, t, b, w, c, u, d);
  }

  /** Whitespace and one token in front, whitespace after: " AUD 1,299.99 ". */
  lemma ParsePriceOfLeadingToken(a: string, t: string, b: string, cents: nat, c: string)
    requires AllSpace(a) && AllSpace(b) && AllSpace(c)
    requires t == "" || t in CurrencyTokens
    ensures ParsePrice(a + t + b + RenderGrouped(cents) + c) == cents as real / 100.0
  {
    var w := RenderGrouped(cents);
    SpacedTagText(a, t, b);
    ConcatChars(c);
    ParsePriceOfDecoratedAmount(SpacedTag(a, t, b), cents, Chars(c));
    assert a + t + b + w + c == (a + t + b) + w + c;
  }

  /** One token after the amount, with whitespace around it and before the
      amount: "1,299.99 €", or " 1,299.99 EUR" when `a` is a space. */
  lemma ParsePriceOfTrailingToken(a: string, cents: nat, b: string, t: string, c: string)
    requires AllSpace(a) && AllSpace(b) && AllSpace(c)
    requires t == "" || t in CurrencyTokens
    ensures ParsePrice(a + RenderGrouped(cents) + b + t + c) == cents as real / 100.0
  {
    var w := RenderGrouped(cents);
    ConcatChars(a);
    SpacedTagText(b, t, c);
    ParsePriceOfDecoratedAmount(Chars(a), cents, SpacedTag(b, t, c));
    RegroupAfter(a, w, b, t, c);
  }

  /** The same text, grouped as the lemmas above state it. */
  lemma Regroup(a: string, t: string, b: string, w: string, c: string, u: string, d: string)
    ensures a + t + b + w + c + u + d == (a + t + b) + w + (c + u + d)
  {
  }

  lemma RegroupAfter(a: string, w: string, b: string, t: string, c: string)
    ensures a + w + b + t + c == a + w + (b + t + c)
  {
  }

  /** Two tokens in front of the amount with whitespace between them, as in
      "AUD $1,299.99", still read as exactly cents / 100. */
  lemma TwoTokensInFront(t1: string, b: string, t2: string, cents: nat)
    requires t1 in CurrencyTokens && t2 in CurrencyTokens && AllSpace(b)
    ensures ParsePrice(t1 + b + t2 + RenderGrouped(cents)) == cents as real / 100.0
  {
    var front := [t1] + Chars(b) + [t2];
    ConcatAppend([t1] + Chars(b), [t2]);
    ConcatAppend([t1], Chars(b));
    ConcatChars(b);
    assert Concat([t1]) == t1 && Concat([t2]) == t2;
    assert AllDecoration(front);
    ParsePriceOfDecoratedAmount(front, cents, []);
    assert Concat(front) + RenderGrouped(cents) + Concat([]) == t1 + b + t2 + RenderGrouped(cents);
  }
}
