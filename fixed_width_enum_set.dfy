/**
 * The fixed-width bitmap enum sets: AbstractShortEnumSet keeps the set in a
 * Java `short` (ordinals below 15), AbstractLongEnumSet in a Java `long`
 * (ordinals below 63).  Both widths share one class, parameterised by
 * MAX_TOKENS of the scalar and by the concrete subclass's getMaxOrdinal().
 *
 * The field `bitmap` holds the bit pattern of the scalar read unsigned: a
 * `nat` below 2^16 or 2^64.  Bit MAX_TOKENS is the scalar's sign bit; no
 * ordinal can reach it through add, but the raw-bitmap constructor and the
 * set algebra can carry it.
 */
module FixedWidthEnumSet {
  import opened Wrappers
  import opened Bits
  import opened StringMap

  /** MAX_TOKENS of AbstractShortEnumSet: a `short` holds ordinals 0 to 14 and its sign bit. */
  const SHORT_TOKENS: nat := 15
  /** MAX_TOKENS of AbstractLongEnumSet: a `long` holds ordinals 0 to 62 and its sign bit. */
  const LONG_TOKENS: nat := 63

  /** The two scalars the source uses; every proof below holds for any MAX_TOKENS below 64. */
  predicate KnownWidth(maxTokens: nat)
  {
    maxTokens == SHORT_TOKENS || maxTokens == LONG_TOKENS
  }

  /** The scalar is a `short`; otherwise it is a `long`. */
  predicate IsShort(maxTokens: nat)
  {
    maxTokens == SHORT_TOKENS
  }

  /** The number of bits of the scalar; its top bit, MAX_TOKENS, is the sign. */
  function Width(maxTokens: nat): nat
  {
    maxTokens + 1
  }

  /**
   * The distance `BIT << k` shifts by: k modulo 32 when BIT is a `short`
   * (it is promoted to `int`), k modulo 64 when BIT is a `long`.
   */
  function ShiftDistance(maxTokens: nat, k: nat): (r: nat)
    ensures r < 64
    ensures k < 32 ==> r == k
    ensures !IsShort(maxTokens) && k < 64 ==> r == k
  {
    if IsShort(maxTokens) then k % 32 else k % 64
  }

  /**
   * A concrete subclass: its runtime class, MAX_TOKENS of its scalar
   * (SHORT_TOKENS or LONG_TOKENS) and getMaxOrdinal() (the number of enum instances).
   */
  datatype EnumSetClass = EnumSetClass(name: string, maxTokens: nat, maxOrdinal: nat)

  /** The argument of contains and remove: null or a non-enum object, or an enum value with its ordinal. */
  datatype Probe = NotAnEnum | EnumValue(ordinal: nat)

  /** The ordinals below m. */
  function Below(m: nat): (r: set<nat>)
    ensures forall i: nat :: i in r <==> i < m
  {
    if m == 0 then {} else Below(m - 1) + {m - 1}
  }

  function Min(a: nat, b: nat): nat
  {
    if a <= b then a else b
  }

  /** Widening an n-bit pattern to m bits by copying its sign bit (the conversion `short` to `long`). */
  function SignExtend(x: nat, n: nat, m: nat): nat
    requires 0 < n
  {
    if Bit(x, n - 1) then Or(x, AndNot(Ones(m), Ones(n))) else x
  }

  /** `>>= 1` on an n-bit signed scalar: the sign bit is copied into the vacated top bit. */
  function ShiftRightArith(x: nat, n: nat): nat
    requires 0 < n
  {
    Or(x / 2, if Bit(x, n - 1) then Pow2(n - 1) else 0)
  }

  class BitmapEnumSet {
    const kind: EnumSetClass
    /** The bit pattern of the Java field `bitmap`. */
    var bitmap: nat
    /** `_was$Frozen`: once set, no call may change the bitmap. */
    var wasFrozen: bool

    ghost predicate Valid()
      reads this
    {
      kind.maxTokens < 64 && bitmap < Pow2(Width(kind.maxTokens))
    }

    /** The ordinals the set contains: the bits of the scalar below MAX_TOKENS. */
    ghost function Elements(): set<nat>
      reads this
    {
      Members(bitmap, kind.maxTokens)
    }

    /** The sign bit of the scalar. */
    predicate IsNegative()
      reads this
    {
      Bit(bitmap, kind.maxTokens)
    }

    /** The no-argument constructor: the empty set. */
    constructor (kind: EnumSetClass)
      requires KnownWidth(kind.maxTokens)
      ensures Valid() && this.kind == kind && !wasFrozen
      ensures bitmap == 0 && Elements() == {} && !IsNegative()
    {
      this.kind := kind;
      bitmap := 0;
      wasFrozen := false;
      new;
      forall i: nat ensures !Bit(0, i) { BitZero(i); }
    }

    /** The constructor taking the raw signed scalar. */
    constructor FromBitmap(kind: EnumSetClass, raw: int)
      requires KnownWidth(kind.maxTokens)
      requires 0 <= raw + Pow2(kind.maxTokens) && raw < Pow2(kind.maxTokens)
      ensures Valid() && this.kind == kind && !wasFrozen
      ensures GetBitmap() == raw
    {
      this.kind := kind;
      bitmap := Unsigned(raw, Width(kind.maxTokens));
      wasFrozen := false;
      new;
      UnsignedSigned(raw, Width(kind.maxTokens));
    }

    method Freeze()
      modifies this`wasFrozen
      ensures wasFrozen
    {
      wasFrozen := true;
    }

    /** `verify$Not$Frozen`: the exception a modifying call throws on a frozen set. */
    function VerifyNotFrozen(): (r: Result<()>)
      reads this
      ensures r.Failure? <==> wasFrozen
      ensures r.Failure? ==> r.error == FrozenInstance
    {
      if wasFrozen then Failure(FrozenInstance) else Success(())
    }

    /** `getBitmap`: the signed value of the scalar. */
    function GetBitmap(): (r: int)
      reads this
      requires Valid()
      ensures 0 <= r + Pow2(kind.maxTokens) && r < Pow2(kind.maxTokens)
      ensures Unsigned(r, Width(kind.maxTokens)) == bitmap
      ensures r < 0 <==> IsNegative()
    {
      SignedUnsigned(bitmap, Width(kind.maxTokens));
      Signed(bitmap, Width(kind.maxTokens))
    }

    /**
     * `size`: `Long.bitCount` of the scalar widened to `long`; a negative
     * scalar contributes its sign bit and, for `short`, the 48 copies of it.
     */
    function Size(): (r: nat)
      reads this
      requires Valid()
      ensures r == |Elements()| + (if IsNegative() then 64 - kind.maxTokens else 0)
    {
      SizeCount(bitmap, kind.maxTokens, 64);
      BitCount(SignExtend(bitmap, Width(kind.maxTokens), 64), 64)
    }

    function IsEmpty(): (r: bool)
      reads this
      requires Valid()
      ensures r <==> Elements() == {} && !IsNegative()
    {
      ZeroIffNoMembers(bitmap, kind.maxTokens);
      bitmap == 0
    }

    /** `contains`: `q < MAX_TOKENS && (bitmap & (BIT << q)) != 0`. */
    function Contains(p: Probe): (r: bool)
      reads this
      ensures r <==> p.EnumValue? && p.ordinal in Elements()
      ensures p.EnumValue? && p.ordinal >= kind.maxTokens ==> !r
    {
      p.EnumValue? && p.ordinal < kind.maxTokens && Bit(bitmap, p.ordinal)
    }

    /** `add` of an enum value with ordinal q. */
    method Add(q: nat) returns (r: Result<bool>)
      requires Valid()
      modifies this`bitmap
      ensures Valid()
      ensures q >= kind.maxTokens || q >= kind.maxOrdinal ==>
        r == Failure(IllegalArgument) && bitmap == old(bitmap)
      ensures q < kind.maxTokens && q < kind.maxOrdinal && q in old(Elements()) ==>
        r == Success(false) && bitmap == old(bitmap)
      ensures q < kind.maxTokens && q < kind.maxOrdinal && q !in old(Elements()) && wasFrozen ==>
        r == Failure(FrozenInstance) && bitmap == old(bitmap)
      ensures q < kind.maxTokens && q < kind.maxOrdinal && q !in old(Elements()) && !wasFrozen ==>
        r == Success(true) && bitmap == Or(old(bitmap), Pow2(q))
        && Elements() == old(Elements()) + {q} && IsNegative() == old(IsNegative())
    {
      var w := kind.maxTokens;
      if q >= w || q >= kind.maxOrdinal {
        return Failure(IllegalArgument);
      }
      if Bit(bitmap, q) {
        return Success(false);
      }
      var check := VerifyNotFrozen();
      if check.Failure? {
        return Failure(check.error);
      }
      MembersSetBit(bitmap, q, w);
      Pow2Monotone(q + 1, w + 1);
      OrBound(bitmap, Pow2(q), w + 1);
      bitmap := Or(bitmap, Pow2(q));
      return Success(true);
    }

    /** `remove` of a probe object. */
    method Remove(p: Probe) returns (r: Result<bool>)
      requires Valid()
      modifies this`bitmap
      ensures Valid()
      ensures p.NotAnEnum? ==> r == Success(false) && bitmap == old(bitmap)
      ensures p.EnumValue? && (p.ordinal >= kind.maxTokens || p.ordinal >= kind.maxOrdinal) ==>
        r == Failure(IllegalArgument) && bitmap == old(bitmap)
      ensures (p.EnumValue? && p.ordinal < kind.maxTokens && p.ordinal < kind.maxOrdinal
        && p.ordinal !in old(Elements())) ==>
        r == Success(false) && bitmap == old(bitmap)
      ensures (p.EnumValue? && p.ordinal < kind.maxTokens && p.ordinal < kind.maxOrdinal
        && p.ordinal in old(Elements()) && wasFrozen) ==>
        r == Failure(FrozenInstance) && bitmap == old(bitmap)
      ensures (p.EnumValue? && p.ordinal < kind.maxTokens && p.ordinal < kind.maxOrdinal
        && p.ordinal in old(Elements()) && !wasFrozen) ==>
        r == Success(true) && bitmap == AndNot(old(bitmap), Pow2(p.ordinal))
        && Elements() == old(Elements()) - {p.ordinal} && IsNegative() == old(IsNegative())
    {
      if p.NotAnEnum? {
        return Success(false);
      }
      var q := p.ordinal;
      var w := kind.maxTokens;
      if q >= w || q >= kind.maxOrdinal {
        return Failure(IllegalArgument);
      }
      if !Bit(bitmap, q) {
        return Success(false);
      }
      var check := VerifyNotFrozen();
      if check.Failure? {
        return Failure(check.error);
      }
      MembersClearBit(bitmap, q, w);
      AndNotBound(bitmap, Pow2(q), w + 1);
      bitmap := AndNot(bitmap, Pow2(q));
      return Success(true);
    }

    /** `clear`: the frozen check is made only when the set is not already empty. */
    method Clear() returns (r: Result<()>)
      requires Valid()
      modifies this`bitmap
      ensures Valid()
      ensures old(bitmap) == 0 ==> r == Success(()) && bitmap == 0
      ensures old(bitmap) != 0 && wasFrozen ==> r == Failure(FrozenInstance) && bitmap == old(bitmap)
      ensures old(bitmap) != 0 && !wasFrozen ==> r == Success(()) && bitmap == 0
      ensures r.Success? ==> Elements() == {} && !IsNegative()
    {
      forall i: nat ensures !Bit(0, i) { BitZero(i); }
      if bitmap != 0 {
        var check := VerifyNotFrozen();
        if check.Failure? {
          return Failure(check.error);
        }
        bitmap := 0;
      }
      return Success(());
    }

    /** `unifyWith`: `bitmap |= that.bitmap`. */
    method UnifyWith(that: BitmapEnumSet) returns (r: Result<()>)
      requires Valid() && that.Valid() && that.kind.maxTokens == kind.maxTokens
      modifies this`bitmap
      ensures Valid()
      ensures wasFrozen ==> r == Failure(FrozenInstance) && bitmap == old(bitmap)
      ensures !wasFrozen ==> (r == Success(()) && bitmap == Or(old(bitmap), old(that.bitmap))
        && Elements() == old(Elements()) + old(that.Elements())
        && (IsNegative() <==> old(IsNegative()) || old(that.IsNegative())))
    {
      var check := VerifyNotFrozen();
      if check.Failure? {
        return Failure(check.error);
      }
      var w := kind.maxTokens;
      MembersOr(bitmap, that.bitmap, w);
      BitOr(bitmap, that.bitmap, w);
      OrBound(bitmap, that.bitmap, w + 1);
      bitmap := Or(bitmap, that.bitmap);
      return Success(());
    }

    /** `intersectWith`: `bitmap &= that.bitmap`. */
    method IntersectWith(that: BitmapEnumSet) returns (r: Result<()>)
      requires Valid() && that.Valid() && that.kind.maxTokens == kind.maxTokens
      modifies this`bitmap
      ensures Valid()
      ensures wasFrozen ==> r == Failure(FrozenInstance) && bitmap == old(bitmap)
      ensures !wasFrozen ==> (r == Success(()) && bitmap == And(old(bitmap), old(that.bitmap))
        && Elements() == old(Elements()) * old(that.Elements())
        && (IsNegative() <==> old(IsNegative()) && old(that.IsNegative())))
    {
      var check := VerifyNotFrozen();
      if check.Failure? {
        return Failure(check.error);
      }
      var w := kind.maxTokens;
      MembersAnd(bitmap, that.bitmap, w);
      BitAnd(bitmap, that.bitmap, w);
      AndBound(bitmap, that.bitmap, w + 1);
      bitmap := And(bitmap, that.bitmap);
      return Success(());
    }

    /** `exclude`: `bitmap &= ~that.bitmap`. */
    method Exclude(that: BitmapEnumSet) returns (r: Result<()>)
      requires Valid() && that.Valid() && that.kind.maxTokens == kind.maxTokens
      modifies this`bitmap
      ensures Valid()
      ensures wasFrozen ==> r == Failure(FrozenInstance) && bitmap == old(bitmap)
      ensures !wasFrozen ==> (r == Success(()) && bitmap == AndNot(old(bitmap), old(that.bitmap))
        && Elements() == old(Elements()) - old(that.Elements())
        && (IsNegative() <==> old(IsNegative()) && !old(that.IsNegative())))
    {
      var check := VerifyNotFrozen();
      if check.Failure? {
        return Failure(check.error);
      }
      var w := kind.maxTokens;
      MembersAndNot(bitmap, that.bitmap, w);
      BitAndNot(bitmap, that.bitmap, w);
      AndNotBound(bitmap, that.bitmap, w + 1);
      bitmap := AndNot(bitmap, that.bitmap);
      return Success(());
    }

    /** `exactlyOneOf`: `bitmap ^= that.bitmap`. */
    method ExactlyOneOf(that: BitmapEnumSet) returns (r: Result<()>)
      requires Valid() && that.Valid() && that.kind.maxTokens == kind.maxTokens
      modifies this`bitmap
      ensures Valid()
      ensures wasFrozen ==> r == Failure(FrozenInstance) && bitmap == old(bitmap)
      ensures !wasFrozen ==> (r == Success(()) && bitmap == Xor(old(bitmap), old(that.bitmap))
        && Elements() == (old(Elements()) - old(that.Elements())) + (old(that.Elements()) - old(Elements()))
        && (IsNegative() <==> old(IsNegative()) != old(that.IsNegative())))
    {
      var check := VerifyNotFrozen();
      if check.Failure? {
        return Failure(check.error);
      }
      var w := kind.maxTokens;
      MembersXor(bitmap, that.bitmap, w);
      BitXor(bitmap, that.bitmap, w);
      XorBound(bitmap, that.bitmap, w + 1);
      bitmap := Xor(bitmap, that.bitmap);
      return Success(());
    }

    /**
     * `bitmapFullSet`: `(BIT << getMaxOrdinal()) - BIT` narrowed to the
     * scalar.  For an enum with at most MAX_TOKENS instances it is the set of
     * all of them; otherwise the shift distance wraps and the narrowing cast
     * keeps the low bits.
     */
    function BitmapFullSet(): (r: nat)
      requires kind.maxTokens < 64
      ensures r < Pow2(Width(kind.maxTokens))
      ensures forall i: nat :: Bit(r, i) <==> i < ShiftDistance(kind.maxTokens, kind.maxOrdinal) && i < Width(kind.maxTokens)
      ensures kind.maxOrdinal <= kind.maxTokens ==>
        Members(r, kind.maxTokens) == Below(kind.maxOrdinal) && !Bit(r, kind.maxTokens)
    {
      var n := Min(ShiftDistance(kind.maxTokens, kind.maxOrdinal), Width(kind.maxTokens));
      OnesBelow(n, Width(kind.maxTokens));
      assert kind.maxOrdinal <= kind.maxTokens ==> n == kind.maxOrdinal;
      Ones(n)
    }

    /** `complement`: `~bitmap & bitmapFullSet()`. */
    method Complement() returns (r: Result<()>)
      requires Valid()
      modifies this`bitmap
      ensures Valid()
      ensures wasFrozen ==> r == Failure(FrozenInstance) && bitmap == old(bitmap)
      ensures !wasFrozen ==> r == Success(()) && bitmap == AndNot(BitmapFullSet(), old(bitmap))
      ensures !wasFrozen && kind.maxOrdinal <= kind.maxTokens ==>
        Elements() == Below(kind.maxOrdinal) - old(Elements()) && !IsNegative()
    {
      var check := VerifyNotFrozen();
      if check.Failure? {
        return Failure(check.error);
      }
      var full := BitmapFullSet();
      MembersAndNot(full, bitmap, kind.maxTokens);
      BitAndNot(full, bitmap, kind.maxTokens);
      AndNotBound(full, bitmap, Width(kind.maxTokens));
      bitmap := AndNot(full, bitmap);
      return Success(());
    }

    /** Complementing twice restores a set of ordinals below getMaxOrdinal() (for an enum that fits). */
    lemma ComplementTwice()
      requires Valid() && kind.maxOrdinal <= kind.maxTokens
      requires forall i: nat :: Bit(bitmap, i) ==> i < kind.maxOrdinal
      ensures AndNot(BitmapFullSet(), AndNot(BitmapFullSet(), bitmap)) == bitmap
    {
      var full := BitmapFullSet();
      forall i: nat | Bit(bitmap, i) ensures Bit(full, i) { }
      AndNotTwice(full, bitmap);
    }

    /**
     * `hashCode`: for `short`, the scalar's value; for `long`,
     * `(int)(bitmap ^ (bitmap >>> 32))`, whose bit i is bit i xor bit i + 32.
     */
    function HashCode(): (r: int)
      reads this
      requires Valid()
      ensures InSigned(r, 32)
      ensures IsShort(kind.maxTokens) ==> r == GetBitmap()
      ensures !IsShort(kind.maxTokens) ==> FoldedHash(r, bitmap)
    {
      if IsShort(kind.maxTokens) then
        SignedWiden(GetBitmap(), Width(kind.maxTokens), 32);
        GetBitmap()
      else
        LongHash(bitmap)
    }

    /** `equals`: the same runtime class and the same scalar. */
    predicate Equals(that: BitmapEnumSet?)
      reads this, that
      ensures Equals(that) ==>
        that != null && that.kind == kind && that.Elements() == Elements() && that.IsNegative() == IsNegative()
    {
      that != null && that.kind == kind && that.bitmap == bitmap
    }

    /** `asStringMap`: one token per set bit below MAX_TOKENS, shifting a copy of the scalar right. */
    method AsStringMap(tokens: string) returns (s: string)
      requires Valid() && ValidTokens(tokens)
      ensures s == TokenString(bitmap, kind.maxTokens, tokens)
      ensures |s| == |Elements()|
      ensures ParseTokens(s, tokens, kind.maxTokens).Success?
      ensures Members(ParseTokens(s, tokens, kind.maxTokens).value, kind.maxTokens) == Elements()
      ensures !IsNegative() ==> ParseTokens(s, tokens, kind.maxTokens) == Success(bitmap)
    {
      var w := kind.maxTokens;
      var x := bitmap;
      s := [];
      var rotmap: nat := x;
      var i: nat := 0;
      while i < w
        invariant i <= w
        invariant rotmap == Rotated(x, i, w)
        invariant s == TokenString(x, i, tokens)
      {
        RotatedLow(x, i, w);
        if Bit(rotmap, 0) {            // (rotmap & BIT) != 0
          s := s + [tokens[i]];
        }
        rotmap := ShiftRightArith(rotmap, w + 1);      // rotmap >>= 1
        i := i + 1;
      }
      AsStringMapFacts(bitmap, w, tokens);
    }
  }

  // ---------------------------------------------------------------------
  // Static helpers: fromStringMap and bitmapOf
  // ---------------------------------------------------------------------

  /** `fromStringMap`: the scalar whose bits are the alphabet positions of the characters of s. */
  method FromStringMap(maxTokens: nat, s: string, tokens: string) returns (r: Result<nat>)
    ensures r == ParseTokens(s, tokens, maxTokens)
    ensures r.Success? <==> forall k :: 0 <= k < |s| ==> ValidToken(s[k], tokens, maxTokens)
    ensures r.Success? ==> r.value < Pow2(maxTokens) && Members(r.value, maxTokens) == Positions(s, tokens)
  {
    var w := maxTokens;
    ParseTokensAccepts(s, tokens, w);
    var work := 0;
    var i := 0;
    while i < |s|
      invariant 0 <= i <= |s|
      invariant ParseTokens(s[..i], tokens, w) == Success(work)
    {
      var c := s[i];
      var pos := IndexOf(tokens, c);
      assert s[..i + 1][..i] == s[..i];
      if 0 <= pos < w {
        work := Or(work, Pow2(pos));          // work |= BIT << pos
      } else {
        ParseFailureExtends(s, i + 1, tokens, w);
        return Failure(IllegalArgument);
      }
      i := i + 1;
    }
    assert s[..i] == s;
    ParseTokensValue(s, tokens, w);
    return Success(work);
  }

  /**
   * The bits bitmapOf sets: for each argument, the shift distance of its ordinal
   * when that position lies inside the scalar (a `short` narrowing drops
   * the bits `BIT << ordinal` sets at positions 16 to 31).
   */
  ghost function ShiftedOrdinals(maxTokens: nat, ordinals: seq<nat>): set<nat>
  {
    if ordinals == [] then {}
    else
      var b := ShiftDistance(maxTokens, ordinals[|ordinals| - 1]);
      ShiftedOrdinals(maxTokens, ordinals[..|ordinals| - 1]) + (if b < Width(maxTokens) then {b} else {})
  }

  /** `bitmapOf`: `val |= BIT << ordinal` for each argument, with Java's shift and narrowing. */
  method BitmapOf(maxTokens: nat, ordinals: seq<nat>) returns (r: nat)
    requires maxTokens < 64
    ensures r < Pow2(Width(maxTokens))
    ensures Members(r, Width(maxTokens)) == ShiftedOrdinals(maxTokens, ordinals)
    ensures (forall k :: 0 <= k < |ordinals| ==> ordinals[k] < maxTokens) ==>
      r < Pow2(maxTokens) && Members(r, maxTokens) == set x | x in ordinals
  {
    var n := Width(maxTokens);
    r := 0;
    forall j: nat ensures !Bit(0, j) { BitZero(j); }
    var i := 0;
    while i < |ordinals|
      invariant 0 <= i <= |ordinals|
      invariant r < Pow2(n)
      invariant Members(r, n) == ShiftedOrdinals(maxTokens, ordinals[..i])
    {
      var b := ShiftDistance(maxTokens, ordinals[i]);
      ShiftedOrdinalsSnoc(maxTokens, ordinals, i, b);
      SetBitStep(r, b, n);
      if b < n {
        r := Or(r, Pow2(b));      // val |= BIT << ordinal
      }
      i := i + 1;
    }
    assert ordinals[..i] == ordinals;
    BitmapOfSmall(maxTokens, ordinals, r);
  }

  /** ShiftedOrdinals grows by the shifted position of the next ordinal, when it lies inside the scalar. */
  lemma ShiftedOrdinalsSnoc(maxTokens: nat, ordinals: seq<nat>, i: nat, b: nat)
    requires i < |ordinals| && b == ShiftDistance(maxTokens, ordinals[i])
    ensures ShiftedOrdinals(maxTokens, ordinals[..i + 1]) ==
      ShiftedOrdinals(maxTokens, ordinals[..i]) + (if b < Width(maxTokens) then {b} else {})
  {
    assert ordinals[..i + 1][..i] == ordinals[..i];
  }

  /** One step of bitmapOf: setting bit b of an n-bit pattern adds b to its members when b < n. */
  lemma SetBitStep(r: nat, b: nat, n: nat)
    requires r < Pow2(n)
    ensures var next := if b < n then Or(r, Pow2(b)) else r;
      next < Pow2(n) && Members(next, n) == Members(r, n) + (if b < n then {b} else {})
  {
    if b < n {
      Pow2Monotone(b + 1, n);
      OrBound(r, Pow2(b), n);
      MembersSetBit(r, b, n);
    }
  }

  /** With every ordinal below MAX_TOKENS, the shifted bits are the ordinals themselves. */
  lemma {:induction false} ShiftedOrdinalsSmall(maxTokens: nat, ordinals: seq<nat>)
    requires maxTokens < 64
    requires forall k :: 0 <= k < |ordinals| ==> ordinals[k] < maxTokens
    ensures ShiftedOrdinals(maxTokens, ordinals) == set x | x in ordinals
  {
    if ordinals != [] {
      var p := ordinals[..|ordinals| - 1];
      var last := ordinals[|ordinals| - 1];
      assert forall k :: 0 <= k < |p| ==> p[k] == ordinals[k];
      ShiftedOrdinalsSmall(maxTokens, p);
      assert ShiftedOrdinals(maxTokens, ordinals) == ShiftedOrdinals(maxTokens, p) + {last};
      assert ordinals == p + [last];
      forall x ensures x in ordinals <==> x in p || x == last {
        assert x in ordinals <==> x in p + [last];
      }
    }
  }

  /** When every ordinal is below MAX_TOKENS, bitmapOf sets exactly those ordinals. */
  lemma BitmapOfSmall(maxTokens: nat, ordinals: seq<nat>, r: nat)
    requires maxTokens < 64
    requires r < Pow2(Width(maxTokens)) && Members(r, Width(maxTokens)) == ShiftedOrdinals(maxTokens, ordinals)
    ensures (forall k :: 0 <= k < |ordinals| ==> ordinals[k] < maxTokens) ==>
      r < Pow2(maxTokens) && Members(r, maxTokens) == set x | x in ordinals
  {
    if forall k :: 0 <= k < |ordinals| ==> ordinals[k] < maxTokens {
      var w := maxTokens;
      ShiftedOrdinalsSmall(maxTokens, ordinals);
      assert w !in Members(r, w + 1);
      forall i: nat | w <= i ensures !Bit(r, i) {
        if i > w { BitAbove(r, w + 1, i); }
      }
      BoundFromBits(r, w);
      assert Members(r, w) == Members(r, w + 1) - {w};
    }
  }

  // ---------------------------------------------------------------------
  // Lemmas about the scalar
  // ---------------------------------------------------------------------

  /**
   * The popcount of the scalar sign-extended to m bits (`long`: m is 64):
   * the members plus, when negative, every bit from MAX_TOKENS up to m - 1.
   */
  lemma SizeCount(x: nat, w: nat, m: nat)
    requires w < m && x < Pow2(w + 1)
    ensures BitCount(SignExtend(x, w + 1, m), m) == |Members(x, w)| + (if Bit(x, w) then m - w else 0)
  {
    var y := SignExtend(x, w + 1, m);
    var neg := Bit(x, w);
    forall i: nat | i < w ensures Bit(y, i) <==> Bit(x, i) {
      SignExtendBit(x, w, m, i);
    }
    forall i: nat | w <= i < m ensures Bit(y, i) <==> neg {
      SignExtendBit(x, w, m, i);
    }
    BitCountUniformTop(y, w, m, neg);
    IndicesSameBits(y, x, w);
    MembersCount(x, w);
  }

  /** Bit i of the scalar sign-extended to m bits: its own bit up to the sign, then copies of the sign up to m - 1. */
  lemma SignExtendBit(x: nat, w: nat, m: nat, i: nat)
    requires w < m && x < Pow2(w + 1)
    ensures Bit(SignExtend(x, w + 1, m), i) <==> if i <= w then Bit(x, i) else i < m && Bit(x, w)
  {
    if Bit(x, w) {
      BitOr(x, AndNot(Ones(m), Ones(w + 1)), i);
      BitAndNot(Ones(m), Ones(w + 1), i);
      BitOnes(m, i);
      BitOnes(w + 1, i);
      if w < i { BitAbove(x, w + 1, i); }
    } else if w < i {
      BitAbove(x, w + 1, i);
    }
  }

  /** The scalar is zero iff it has no members and a clear sign bit. */
  lemma ZeroIffNoMembers(x: nat, w: nat)
    requires x < Pow2(w + 1)
    ensures x == 0 <==> Members(x, w) == {} && !Bit(x, w)
  {
    forall i: nat ensures !Bit(0, i) { BitZero(i); }
    if Members(x, w) == {} && !Bit(x, w) {
      forall i: nat | i < w + 1 ensures !Bit(x, i) {
        if i < w { assert i !in Members(x, w); }
      }
      ZeroFromLowBits(x, w + 1);
    }
  }

  /**
   * r is an `int` whose bit i, as a 32-bit pattern, is bit i xor bit i + 32
   * of the 64-bit pattern b.
   */
  predicate FoldedHash(r: int, b: nat)
  {
    InSigned(r, 32) && forall i: nat :: i < 32 ==> (Bit(Unsigned(r, 32), i) <==> Bit(b, i) != Bit(b, i + 32))
  }

  /** `(int)(bitmap ^ (bitmap >>> 32))` for the bit pattern b of a `long`. */
  function LongHash(b: nat): (r: int)
    ensures FoldedHash(r, b)
  {
    LongHashBits(b);
    Signed(Trunc(Xor(b, Shr(b, 32)), 32), 32)
  }

  /** The long hash folds the two halves of the scalar together. */
  lemma LongHashBits(b: nat)
    ensures Trunc(Xor(b, Shr(b, 32)), 32) < Pow2(32)
    ensures FoldedHash(Signed(Trunc(Xor(b, Shr(b, 32)), 32), 32), b)
  {
    var h := Trunc(Xor(b, Shr(b, 32)), 32);
    TruncBound(Xor(b, Shr(b, 32)), 32);
    SignedUnsigned(h, 32);
    forall i: nat | i < 32 ensures Bit(h, i) <==> Bit(b, i) != Bit(b, i + 32) {
      BitTrunc(Xor(b, Shr(b, 32)), 32, i);
      BitXor(b, Shr(b, 32), i);
      BitShr(b, 32, i);
    }
  }

  /** An arithmetic right shift moves every bit below the top one place down and keeps the sign. */
  lemma ShiftRightArithBits(x: nat, n: nat)
    requires 0 < n
    ensures forall j: nat :: j + 1 < n ==> (Bit(ShiftRightArith(x, n), j) <==> Bit(x, j + 1))
  {
    var c := if Bit(x, n - 1) then Pow2(n - 1) else 0;
    forall j: nat | j + 1 < n ensures Bit(ShiftRightArith(x, n), j) <==> Bit(x, j + 1) {
      BitOr(x / 2, c, j);
      if Bit(x, n - 1) { BitPow2(n - 1, j); } else { BitZero(j); }
    }
  }

  /** The copy of the scalar asStringMap inspects at step i: i arithmetic shifts right by one. */
  function Rotated(x: nat, i: nat, w: nat): nat
  {
    if i == 0 then x else ShiftRightArith(Rotated(x, i - 1, w), w + 1)
  }

  /** After i shifts, bit j of the copy is bit i + j of the scalar, up to the sign bit. */
  lemma {:induction false} RotatedBits(x: nat, i: nat, w: nat)
    requires i <= w
    ensures forall j: nat :: i + j <= w ==> (Bit(Rotated(x, i, w), j) <==> Bit(x, i + j))
  {
    if i > 0 {
      RotatedBits(x, i - 1, w);
      ShiftRightArithBits(Rotated(x, i - 1, w), w + 1);
      forall j: nat | i + j <= w ensures Bit(Rotated(x, i, w), j) <==> Bit(x, i + j) {
        assert (i - 1) + (j + 1) <= w;
      }
    }
  }

  /** Bit 0 of the copy at step i is bit i of the scalar. */
  lemma RotatedLow(x: nat, i: nat, w: nat)
    requires i <= w
    ensures Bit(Rotated(x, i, w), 0) <==> Bit(x, i)
  {
    RotatedBits(x, i, w);
    assert i + 0 <= w;
  }

  /** What asStringMap's result says about the set. */
  lemma AsStringMapFacts(x: nat, w: nat, tokens: string)
    requires ValidTokens(tokens) && w <= |tokens| && x < Pow2(w + 1)
    ensures |TokenString(x, w, tokens)| == |Members(x, w)|
    ensures ParseTokens(TokenString(x, w, tokens), tokens, w) == Success(Low(x, w))
    ensures Members(Low(x, w), w) == Members(x, w)
    ensures !Bit(x, w) ==> Low(x, w) == x
  {
    TokenStringShape(x, w, tokens);
    MembersCount(x, w);
    ParseTokenString(x, w, tokens, w);
    forall i: nat ensures Bit(Low(x, w), i) <==> i < w && Bit(x, i) { BitLow(x, w, i); }
    if !Bit(x, w) {
      forall i: nat | w <= i ensures !Bit(x, i) {
        if w < i { BitAbove(x, w + 1, i); }
      }
      BoundFromBits(x, w);
      LowId(x, w);
    }
  }

  /**
   * `equals` holds iff the runtime classes agree and both sets have the same
   * members and the same sign bit; equal sets have equal hash codes and sizes.
   */
  lemma EqualsSpec(a: BitmapEnumSet, b: BitmapEnumSet?)
    requires a.Valid() && (b != null ==> b.Valid())
    ensures a.Equals(b) <==>
      b != null && a.kind == b.kind && a.Elements() == b.Elements() && a.IsNegative() == b.IsNegative()
    ensures a.Equals(b) ==> b.Equals(a) && a.HashCode() == b.HashCode() && a.Size() == b.Size()
  {
    if b != null && a.kind == b.kind && a.Elements() == b.Elements() && a.IsNegative() == b.IsNegative() {
      var w := a.kind.maxTokens;
      assert Members(a.bitmap, w + 1) == Members(b.bitmap, w + 1) by {
        forall i: nat | i < w + 1 ensures Bit(a.bitmap, i) <==> Bit(b.bitmap, i) {
          if i < w { assert i in a.Elements() <==> i in b.Elements(); }
        }
      }
      MembersDetermine(a.bitmap, b.bitmap, w + 1);
    }
  }

  // ---------------------------------------------------------------------
  // SetOfEnumsIterator
  // ---------------------------------------------------------------------

  /**
   * The iterator over a private copy of the bitmap: each `next` finds the
   * lowest remaining bit above `index`, clears it and returns
   * `values[index]`.  `original` is the copy it started from and `yielded`
   * the ordinals returned so far.
   */
  class SetOfEnumsIterator<E> {
    const values: seq<E>
    const maxTokens: nat
    var bitmap: nat
    var index: int
    ghost const original: nat
    ghost var yielded: seq<nat>

    ghost predicate Valid()
      reads this
    {
      maxTokens < 64 && original < Pow2(Width(maxTokens)) && -1 <= index < Width(maxTokens)
      && bitmap == AndNot(original, Ones(index + 1))
      && yielded == Indices(original, index + 1)
    }

    constructor (values: seq<E>, maxTokens: nat, bitmap: nat)
      requires KnownWidth(maxTokens) && bitmap < Pow2(Width(maxTokens))
      ensures Valid() && this.values == values && this.maxTokens == maxTokens
      ensures original == bitmap && this.bitmap == bitmap && index == -1 && yielded == []
    {
      this.values := values;
      this.maxTokens := maxTokens;
      this.bitmap := bitmap;
      index := -1;
      original := bitmap;
      yielded := [];
      new;
      Start(bitmap, index + 1);
    }

    /** `hasNext`: bits remain, that is, not every member has been returned yet. */
    function HasNext(): (r: bool)
      reads this
      requires Valid()
      ensures r <==> |yielded| < BitCount(original, Width(maxTokens))
      ensures !r ==> yielded == Indices(original, Width(maxTokens))
    {
      Remaining(original, index + 1, Width(maxTokens));
      bitmap != 0
    }

    /**
     * `next`: on an exhausted iterator a `short` set returns null and
     * a `long` set throws NoSuchElementException; otherwise the next
     * member in ascending order, or an array index error once the state has
     * advanced when that member has no entry in `values`.
     */
    method Next() returns (r: Result<Option<E>>)
      requires Valid()
      modifies this`bitmap, this`index, this`yielded
      ensures Valid()
      ensures old(bitmap) == 0 ==>
        bitmap == old(bitmap) && index == old(index) && yielded == old(yielded)
        && r == (if IsShort(maxTokens) then Success(None) else Failure(NoSuchElement))
      ensures old(bitmap) != 0 ==>
        index == LowestBit(old(bitmap)) && yielded == old(yielded) + [index]
        && bitmap == AndNot(old(bitmap), Pow2(index))
        && r == (if index < |values| then Success(Some(values[index])) else Failure(IndexOutOfBounds))
    {
      if bitmap == 0 {
        // a short set returns null, a long set throws
        return if IsShort(maxTokens) then Success(None) else Failure(NoSuchElement);
      }
      ghost var k := index + 1;
      ghost var p := NextStep(original, k, Width(maxTokens));
      index := index + 1;
      Seek(p);
      Take(k, p);
      // values[index] throws once the ordinal has no enum instance
      return if index < |values| then Success(Some(values[index])) else Failure(IndexOutOfBounds);
    }

    /** `while ((bitmap & (BIT << index)) == 0) ++index;` stops at the lowest remaining bit p. */
    method Seek(ghost p: nat)
      requires bitmap > 0 && p == LowestBit(bitmap) && 0 <= index <= p
      modifies this`index
      ensures index == p
    {
      while !Bit(bitmap, index)
        invariant index <= p
        decreases p - index
      {
        BelowLowest(bitmap, index);
        index := index + 1;
      }
      LowestAt(bitmap, index);
    }

    /** `bitmap &= ~(BIT << index)` for the lowest remaining bit, which is now returned. */
    method Take(ghost k: nat, ghost p: nat)
      requires maxTokens < 64 && original < Pow2(Width(maxTokens)) && k <= p < Width(maxTokens) && index == p
      requires bitmap == AndNot(original, Ones(k)) && yielded == Indices(original, k)
      requires AndNot(AndNot(original, Ones(k)), Pow2(p)) == AndNot(original, Ones(p + 1))
      requires Indices(original, p + 1) == Indices(original, k) + [p]
      modifies this`bitmap, this`yielded
      ensures Valid() && bitmap == AndNot(old(bitmap), Pow2(index)) && yielded == old(yielded) + [index]
    {
      bitmap := AndNot(bitmap, Pow2(index));
      yielded := yielded + [index];
    }

    method Remove() returns (r: Result<()>)
      ensures r == Failure(UnsupportedOperation)
    {
      return Failure(UnsupportedOperation);
    }
  }

  /** With the bits below k cleared, nothing remains iff Indices has already reached n. */
  lemma Remaining(orig: nat, k: nat, n: nat)
    requires orig < Pow2(n) && k <= n
    ensures Indices(orig, k) <= Indices(orig, n)
    ensures AndNot(orig, Ones(k)) == 0 <==> |Indices(orig, k)| == |Indices(orig, n)|
    ensures AndNot(orig, Ones(k)) == 0 ==> Indices(orig, k) == Indices(orig, n)
  {
    var rem := AndNot(orig, Ones(k));
    AndNotBound(orig, Ones(k), n);
    IndicesPrefix(orig, k, n);
    if rem == 0 {
      forall i: nat | k <= i < n ensures !Bit(orig, i) {
        BitZero(i); BitAndNot(orig, Ones(k), i); BitOnes(k, i);
      }
    }
    if |Indices(orig, k)| == |Indices(orig, n)| {
      forall i: nat | i < n ensures !Bit(rem, i) {
        BitAndNot(orig, Ones(k), i); BitOnes(k, i);
      }
      ZeroFromLowBits(rem, n);
      assert Indices(orig, k) == Indices(orig, n)[..|Indices(orig, k)|];
    }
  }

  /** Before the first `next` no bit is cleared and nothing is returned. */
  lemma Start(x: nat, n: nat)
    requires n == 0
    ensures AndNot(x, Ones(n)) == x && Indices(x, n) == []
  {
    forall i: nat ensures Bit(AndNot(x, Ones(n)), i) <==> Bit(x, i) {
      BitAndNot(x, Ones(n), i); BitOnes(n, i);
    }
    BitsEqual(AndNot(x, Ones(n)), x);
  }

  /** A clear bit no higher than the lowest set bit lies below it. */
  lemma BelowLowest(x: nat, j: nat)
    requires x > 0 && !Bit(x, j) && j <= LowestBit(x)
    ensures j < LowestBit(x)
  {
  }

  /** A set bit no higher than the lowest set bit is the lowest set bit. */
  lemma LowestAt(x: nat, j: nat)
    requires x > 0 && Bit(x, j) && j <= LowestBit(x)
    ensures j == LowestBit(x)
  {
  }

  /**
   * One iterator step: with the bits below k cleared, the lowest remaining
   * bit p lies below n, and clearing it advances the cleared prefix to p + 1.
   */
  lemma NextStep(orig: nat, k: nat, n: nat) returns (p: nat)
    requires orig < Pow2(n) && k <= n && AndNot(orig, Ones(k)) != 0
    ensures p == LowestBit(AndNot(orig, Ones(k))) && k <= p < n
    ensures AndNot(AndNot(orig, Ones(k)), Pow2(p)) == AndNot(orig, Ones(p + 1))
    ensures Indices(orig, p + 1) == Indices(orig, k) + [p]
  {
    var rem := AndNot(orig, Ones(k));
    AndNotBound(orig, Ones(k), n);
    p := LowestBit(rem);
    LowestBitBelow(rem, n);
    BitAndNot(orig, Ones(k), p);
    BitOnes(k, p);
    Advance(orig, k, p);
  }

  /** One iterator step: clearing the lowest remaining bit p advances the cleared prefix to p + 1. */
  lemma Advance(orig: nat, k: nat, p: nat)
    requires Bit(AndNot(orig, Ones(k)), p)
    requires forall i: nat :: i < p ==> !Bit(AndNot(orig, Ones(k)), i)
    ensures AndNot(AndNot(orig, Ones(k)), Pow2(p)) == AndNot(orig, Ones(p + 1))
    ensures Indices(orig, p + 1) == Indices(orig, k) + [p]
  {
    var rem := AndNot(orig, Ones(k));
    forall i: nat ensures Bit(rem, i) <==> Bit(orig, i) && k <= i {
      BitAndNot(orig, Ones(k), i); BitOnes(k, i);
    }
    forall i: nat ensures Bit(AndNot(rem, Pow2(p)), i) <==> Bit(AndNot(orig, Ones(p + 1)), i) {
      BitAndNot(rem, Pow2(p), i); BitPow2(p, i);
      BitAndNot(orig, Ones(p + 1), i); BitOnes(p + 1, i);
      if k <= i < p { assert !Bit(rem, i); }
    }
    BitsEqual(AndNot(rem, Pow2(p)), AndNot(orig, Ones(p + 1)));
    forall i: nat | k <= i < p ensures !Bit(orig, i) { assert !Bit(rem, i); }
    IndicesGap(orig, k, p);
  }
}
