/**
 * The compact text form of a fixed-width bitmap: one character of the
 * standard token alphabet per set bit, in ascending bit order
 * (`asStringMap` / `fromStringMap` of the short and long enum sets).
 */
module StringMap {
  import opened Bits
  import opened Wrappers

  /**
   * The standard token alphabet (EnumSetMarker.STANDARD_TOKENS) is a
   * parameter: any duplicate-free string with at least 63 symbols.
   */
  predicate ValidTokens(tokens: string)
  {
    |tokens| >= 63 && forall i, j :: 0 <= i < j < |tokens| ==> tokens[i] != tokens[j]
  }

  /** `String.indexOf(char)`: the first position of c in t, or -1. */
  function IndexOf(t: string, c: char): (r: int)
    ensures -1 <= r < |t|
    ensures r == -1 <==> c !in t
    ensures r >= 0 ==> t[r] == c && c !in t[..r]
  {
    if t == [] then -1
    else if t[0] == c then 0
    else
      var r := IndexOf(t[1..], c);
      assert t[1..][..r + 1] == t[1..r + 2] by { }
      if r == -1 then -1 else r + 1
  }

  /** The text form of the bits of x below n: token i for every set bit i, ascending. */
  function TokenString(x: nat, n: nat, tokens: string): string
    requires n <= |tokens|
  {
    if n == 0 then []
    else TokenString(x, n - 1, tokens) + (if Bit(x, n - 1) then [tokens[n - 1]] else [])
  }

  /**
   * What `fromStringMap` computes: the OR of `1 << pos` over the characters of s,
   * where pos is the character's index in the alphabet; any character whose
   * index is missing or not below `width` is rejected.
   */
  function ParseTokens(s: string, tokens: string, width: nat): Result<nat>
  {
    if s == [] then Success(0)
    else
      match ParseTokens(s[..|s| - 1], tokens, width)
      case Failure(e) => Failure(e)
      case Success(w) =>
        var pos := IndexOf(tokens, s[|s| - 1]);
        if 0 <= pos < width then Success(Or(w, Pow2(pos))) else Failure(IllegalArgument)
  }

  /** A character fromStringMap accepts. */
  predicate ValidToken(c: char, tokens: string, width: nat)
  {
    0 <= IndexOf(tokens, c) < width
  }

  // ---------------------------------------------------------------------
  // Properties of the text form
  // ---------------------------------------------------------------------

  /** The text form has one character per set bit: token Indices(x, n)[k] at position k. */
  lemma {:induction false} TokenStringShape(x: nat, n: nat, tokens: string)
    requires n <= |tokens|
    ensures |TokenString(x, n, tokens)| == BitCount(x, n)
    ensures forall k :: 0 <= k < |TokenString(x, n, tokens)| ==>
      TokenString(x, n, tokens)[k] == tokens[Indices(x, n)[k]]
  {
    if n > 0 { TokenStringShape(x, n - 1, tokens); }
  }

  /**
   * Every character of the text form is a distinct token, and the tokens
   * appear in strictly ascending alphabet order.
   */
  lemma TokenStringAscending(x: nat, n: nat, tokens: string)
    requires n <= |tokens| && ValidTokens(tokens)
    ensures forall k, l :: 0 <= k < l < |TokenString(x, n, tokens)| ==>
      IndexOf(tokens, TokenString(x, n, tokens)[k]) < IndexOf(tokens, TokenString(x, n, tokens)[l])
  {
    TokenStringShape(x, n, tokens);
    IndicesSpec(x, n);
    forall k, l | 0 <= k < l < |TokenString(x, n, tokens)|
      ensures IndexOf(tokens, TokenString(x, n, tokens)[k]) < IndexOf(tokens, TokenString(x, n, tokens)[l])
    {
      IndexOfToken(tokens, Indices(x, n)[k]);
      IndexOfToken(tokens, Indices(x, n)[l]);
    }
  }

  /** In a duplicate-free alphabet, the index of token i is i. */
  lemma IndexOfToken(tokens: string, i: nat)
    requires ValidTokens(tokens) && i < |tokens|
    ensures IndexOf(tokens, tokens[i]) == i
  {
    var r := IndexOf(tokens, tokens[i]);
    assert tokens[i] in tokens;
    assert tokens[r] == tokens[i];
  }

  /** Once a prefix is rejected, so is the whole string. */
  lemma {:induction false} ParseFailureExtends(s: string, k: nat, tokens: string, width: nat)
    requires k <= |s| && ParseTokens(s[..k], tokens, width).Failure?
    ensures ParseTokens(s, tokens, width) == Failure(IllegalArgument)
    decreases |s| - k
  {
    if k == |s| {
      assert s[..k] == s;
      ParseFailureIsIllegal(s, tokens, width);
    } else {
      assert s[..k + 1][..k] == s[..k];
      ParseFailureExtends(s, k + 1, tokens, width);
    }
  }

  lemma {:induction false} ParseFailureIsIllegal(s: string, tokens: string, width: nat)
    ensures ParseTokens(s, tokens, width).Failure? ==> ParseTokens(s, tokens, width) == Failure(IllegalArgument)
  {
    if s != [] { ParseFailureIsIllegal(s[..|s| - 1], tokens, width); }
  }

  /** The alphabet positions of the characters of s. */
  function Positions(s: string, tokens: string): set<int>
  {
    set k | 0 <= k < |s| :: IndexOf(tokens, s[k])
  }

  lemma PositionsSnoc(s: string, tokens: string)
    requires s != []
    ensures Positions(s, tokens) == Positions(s[..|s| - 1], tokens) + {IndexOf(tokens, s[|s| - 1])}
  {
    var p := s[..|s| - 1];
    assert forall k :: 0 <= k < |p| ==> p[k] == s[k];
    forall i | i in Positions(s, tokens) ensures i in Positions(p, tokens) + {IndexOf(tokens, s[|s| - 1])} {
      var k :| 0 <= k < |s| && IndexOf(tokens, s[k]) == i;
      if k < |p| { assert IndexOf(tokens, p[k]) == i; }
    }
  }

  /** fromStringMap accepts exactly the strings made of valid tokens. */
  lemma {:induction false} ParseTokensAccepts(s: string, tokens: string, width: nat)
    ensures ParseTokens(s, tokens, width).Success? <==> forall k :: 0 <= k < |s| ==> ValidToken(s[k], tokens, width)
  {
    if s != [] {
      var p := s[..|s| - 1];
      ParseTokensAccepts(p, tokens, width);
      assert forall k :: 0 <= k < |p| ==> p[k] == s[k];
    }
  }

  /** An accepted string yields the non-negative pattern whose bits are its tokens' positions. */
  lemma {:induction false} ParseTokensValue(s: string, tokens: string, width: nat)
    requires ParseTokens(s, tokens, width).Success?
    ensures ParseTokens(s, tokens, width).value < Pow2(width)
    ensures Members(ParseTokens(s, tokens, width).value, width) == Positions(s, tokens)
  {
    if s == [] {
      forall i: nat ensures !Bit(0, i) { BitZero(i); }
    } else {
      var p := s[..|s| - 1];
      ParseTokensValue(p, tokens, width);
      var w := ParseTokens(p, tokens, width).value;
      var pos := IndexOf(tokens, s[|s| - 1]);
      Pow2Monotone(pos + 1, width);
      OrBound(w, Pow2(pos), width);
      var v := Or(w, Pow2(pos));
      forall i: nat ensures Bit(v, i) <==> Bit(w, i) || i == pos {
        BitOr(w, Pow2(pos), i); BitPow2(pos, i);
      }
      PositionsSnoc(s, tokens);
      assert Members(v, width) == Members(w, width) + {pos};
    }
  }

  /** `fromStringMap(asStringMap())` recovers the bits below `width`. */
  lemma {:induction false} ParseTokenString(x: nat, n: nat, tokens: string, width: nat)
    requires ValidTokens(tokens) && n <= width <= |tokens|
    ensures ParseTokens(TokenString(x, n, tokens), tokens, width) == Success(Low(x, n))
  {
    if n > 0 {
      ParseTokenString(x, n - 1, tokens, width);
      var p := TokenString(x, n - 1, tokens);
      var w := Low(x, n - 1);
      if Bit(x, n - 1) {
        IndexOfToken(tokens, n - 1);
        ParseSnoc(p, tokens[n - 1], tokens, width, w);
        assert TokenString(x, n, tokens) == p + [tokens[n - 1]];
        assert Low(x, n) == Or(w, Pow2(n - 1));
      } else {
        assert TokenString(x, n, tokens) == p;
        forall i: nat ensures Bit(Or(w, 0), i) <==> Bit(w, i) { BitOr(w, 0, i); BitZero(i); }
        BitsEqual(Or(w, 0), w);
        assert Low(x, n) == w;
      }
    }
  }

  /** Appending an accepted token to an accepted string sets that token's bit. */
  lemma ParseSnoc(p: string, c: char, tokens: string, width: nat, w: nat)
    requires ParseTokens(p, tokens, width) == Success(w) && 0 <= IndexOf(tokens, c) < width
    ensures ParseTokens(p + [c], tokens, width) == Success(Or(w, Pow2(IndexOf(tokens, c))))
  {
    assert (p + [c])[..|p|] == p;
  }

  /** The round trip for a non-negative bitmap of a set of width `width`. */
  lemma RoundTrip(x: nat, tokens: string, width: nat)
    requires ValidTokens(tokens) && width <= |tokens| && x < Pow2(width)
    ensures ParseTokens(TokenString(x, width, tokens), tokens, width) == Success(x)
  {
    ParseTokenString(x, width, tokens, width);
    LowId(x, width);
  }
}
