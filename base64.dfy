/**
 * The Base64 codec of section 6.8 of RFC 2045 without line breaks: every
 * 24-bit group of input becomes four symbols of the 64-character alphabet,
 * and a final group of one or two bytes is padded with '='.
 *
 * A Java `byte` is held as its 8-bit pattern and a Java `int` as its
 * 32-bit pattern, so that shifts, masks and `(byte)` casts are those of
 * the Java code.  The encoder appends to a growable buffer; the decoders
 * fill a preallocated array.
 */
module Base64 {
  import opened Wrappers

  /** A Java byte, as its bit pattern (so `b & 0xff` is its unsigned value). */
  type byte = bv8

  /** The byte '='. */
  const PAD: byte := 61

  /** The Java int -1. */
  const MinusOne: bv32 := 0xFFFF_FFFF

  /** `c >= 0` for the Java int with bit pattern c. */
  predicate NonNegative(c: bv32)
  {
    c < 0x8000_0000
  }

  // ---------------------------------------------------------------------
  // The tables CA and IA
  // ---------------------------------------------------------------------

  /**
   * Symbol k of the alphabet CA (Table 1 of section 6.8 of RFC 2045):
   * 'A' to 'Z', then 'a' to 'z', then '0' to '9', then '+' and '/'.
   */
  function Sym(k: bv32): (b: byte)
    requires k < 64
    ensures b != PAD
  {
    if k < 26 then 65 + k as bv8
    else if k < 52 then 97 + (k - 26) as bv8
    else if k < 62 then 48 + (k - 52) as bv8
    else if k == 62 then 43
    else 47
  }

  /** The position of b in CA, or -1 when b is not an alphabet symbol. */
  function AlphabetIndex(b: byte): bv32
  {
    if 65 <= b <= 90 then (b - 65) as bv32
    else if 97 <= b <= 122 then (b - 97) as bv32 + 26
    else if 48 <= b <= 57 then (b - 48) as bv32 + 52
    else if b == 43 then 62
    else if b == 47 then 63
    else MinusOne
  }

  /** The decoding table IA: the alphabet position of a symbol, 0 for '=', -1 for any other byte. */
  function IA(b: byte): bv32
  {
    if b == PAD then 0 else AlphabetIndex(b)
  }

  /** A byte IA maps to a six-bit value: an alphabet symbol or '='. */
  predicate IsSymbolOrPad(b: byte)
  {
    IA(b) != MinusOne
  }

  /** IA holds -1 or a six-bit value. */
  lemma IARange(b: byte)
    ensures IA(b) == MinusOne || IA(b) < 64
    ensures NonNegative(IA(b)) <==> IsSymbolOrPad(b)
  {
  }

  /** AlphabetIndex inverts Sym. */
  lemma AlphabetInverse(b: byte)
    ensures AlphabetIndex(b) != MinusOne ==> AlphabetIndex(b) < 64 && Sym(AlphabetIndex(b)) == b
  {
  }

  /** Sym inverts AlphabetIndex. */
  lemma SymIndex(k: bv32)
    requires k < 64
    ensures AlphabetIndex(Sym(k)) == k && IA(Sym(k)) == k
  {
  }

  /** IA inverts CA, and every byte that is neither a symbol nor '=' maps to -1. */
  lemma IAInvertsCA()
    ensures forall k: bv32 :: k < 64 ==> IA(Sym(k)) == k
    ensures IA(PAD) == 0
    ensures forall b: byte :: IA(b) == MinusOne <==> b != PAD && forall k: bv32 :: k < 64 ==> Sym(k) != b
  {
    forall k: bv32 | k < 64 ensures IA(Sym(k)) == k { SymIndex(k); }
    forall b: byte | IA(b) != MinusOne && b != PAD ensures exists k: bv32 :: k < 64 && Sym(k) == b {
      AlphabetInverse(b);
    }
  }

  /** The static initialiser: fill IA with -1, enter each symbol's position, then map '=' to 0. */
  method BuildDecodeTable() returns (ia: array<bv32>)
    ensures fresh(ia) && ia.Length == 256
    ensures forall b: byte :: ia[b as int] == IA(b)
  {
    ia := new bv32[256];
    var b := 0;
    while b < 256
      invariant 0 <= b <= 256
      invariant forall k :: 0 <= k < b ==> ia[k] == MinusOne
    {
      ia[b] := MinusOne;
      b := b + 1;
    }
    var i: bv32 := 0;
    EnteredNone(ia[..]);
    while i < 64
      invariant i <= 64
      invariant Entered(ia[..], i)
    {
      EnterSymbol(ia[..], i);
      ia[Sym(i) as int] := i;
      i := i + 1;
    }
    ghost var t := ia[..];
    EnterPad(t);
    ia[PAD as int] := 0;
    assert ia[..] == t[PAD as int := 0];
  }

  /**
   * The table t holds the positions of the first n symbols; every other
   * entry is -1 or the position of the symbol whose code is its index.
   */
  ghost predicate Entered(t: seq<bv32>, n: bv32)
  {
    |t| == 256 && PositionsEntered(t, n) && EntriesNamed(t, n)
  }

  /** The first n symbols map to their positions. */
  ghost predicate PositionsEntered(t: seq<bv32>, n: bv32)
    requires |t| == 256
  {
    forall x: byte :: AlphabetIndex(x) < n ==> t[x as int] == AlphabetIndex(x)
  }

  /** Every entry is -1 or a position below n of the symbol whose code is the entry's index. */
  ghost predicate EntriesNamed(t: seq<bv32>, n: bv32)
    requires |t| == 256
  {
    forall k :: 0 <= k < 256 ==> t[k] == MinusOne || (t[k] < n && AlphabetIndex(k as bv8) == t[k])
  }

  /** A table of -1 holds no position yet. */
  lemma EnteredNone(t: seq<bv32>)
    requires |t| == 256 && forall k :: 0 <= k < 256 ==> t[k] == MinusOne
    ensures Entered(t, 0)
  {
  }

  /** Entering the position of symbol n keeps Entered. */
  lemma EnterSymbol(t: seq<bv32>, n: bv32)
    requires n < 64 && Entered(t, n)
    ensures Entered(t[Sym(n) as int := n], n + 1)
  {
    EnterSymbolFound(t, n);
    EnterSymbolOthers(t, n);
  }

  /** After entering symbol n, the first n + 1 symbols map to their positions. */
  lemma EnterSymbolFound(t: seq<bv32>, n: bv32)
    requires n < 64 && Entered(t, n)
    ensures PositionsEntered(t[Sym(n) as int := n], n + 1)
  {
    var c := Sym(n);
    SymIndex(n);
    ByteIndex(c);
    forall x: byte | AlphabetIndex(x) < n + 1 ensures t[c as int := n][x as int] == AlphabetIndex(x) {
      AlphabetInverse(x);
      ByteIndex(x);
    }
  }

  /** After entering symbol n, every entry is still -1 or a position that names its own index. */
  lemma EnterSymbolOthers(t: seq<bv32>, n: bv32)
    requires n < 64 && Entered(t, n)
    ensures EntriesNamed(t[Sym(n) as int := n], n + 1)
  {
    var c := Sym(n);
    SymIndex(n);
    ByteIndex(c);
  }

  /** Once every symbol is entered, mapping '=' to 0 completes IA. */
  lemma EnterPad(t: seq<bv32>)
    requires Entered(t, 64)
    ensures forall b: byte :: t[PAD as int := 0][b as int] == IA(b)
  {
    ByteIndex(PAD);
    forall x: byte ensures t[PAD as int := 0][x as int] == IA(x) {
      AlphabetInverse(x);
      ByteIndex(x);
    }
  }

  /** A byte used as an array index: its value is below 256 and converts back to the byte. */
  lemma ByteIndex(b: byte)
    ensures 0 <= b as int < 256 && (b as int) as bv8 == b
  {
  }

  // ---------------------------------------------------------------------
  // The encoding
  // ---------------------------------------------------------------------

  /** Three bytes as the low 24 bits of an int, the first byte highest. */
  function Group(b0: byte, b1: byte, b2: byte): (i: bv32)
    ensures i < 0x100_0000
  {
    ((b0 as bv32) << 16) | ((b1 as bv32) << 8) | (b2 as bv32)
  }

  /** The four symbols of a 24-bit group: its four six-bit digits, highest first. */
  function Quad(i: bv32): (r: seq<byte>)
  {
    [Sym((i >> 18) & 0x3f), Sym((i >> 12) & 0x3f), Sym((i >> 6) & 0x3f), Sym(i & 0x3f)]
  }

  /** The four symbols of a group are alphabet symbols. */
  lemma QuadSymbols(i: bv32)
    ensures |Quad(i)| == 4 && forall k :: 0 <= k < 4 ==> Quad(i)[k] != PAD && AlphabetIndex(Quad(i)[k]) != MinusOne
  {
    SymIndex((i >> 18) & 0x3f);
    SymIndex((i >> 12) & 0x3f);
    SymIndex((i >> 6) & 0x3f);
    SymIndex(i & 0x3f);
  }

  /**
   * The Base64 encoding: each group of three bytes yields four symbols,
   * then the final group of fewer than three bytes yields FinalQuad.
   */
  function Encode(x: seq<byte>): seq<byte>
    decreases |x|
  {
    if |x| < 3 then FinalQuad(x) else Quad(Group(x[0], x[1], x[2])) + Encode(x[3..])
  }

  /**
   * The final group of at most two bytes: nothing for none; otherwise it is
   * completed with zero bits and yields the first two or three symbols of
   * that group, then '=' up to four.
   */
  function FinalQuad(t: seq<byte>): seq<byte>
    requires |t| < 3
  {
    if |t| == 0 then []
    else if |t| == 1 then Quad(Group(t[0], 0, 0))[..2] + [PAD, PAD]
    else Quad(Group(t[0], t[1], 0))[..3] + [PAD]
  }

  /** The number of bytes the encoding of n bytes takes: `((n - 1) / 3 + 1) * 4`, none for no input. */
  function EncodedLength(n: nat): nat
  {
    if n == 0 then 0 else ((n - 1) / 3 + 1) * 4
  }

  /** The number of '=' a final group of n mod 3 bytes receives. */
  function PadsFor(n: nat): nat
  {
    if n % 3 == 0 then 0 else 3 - n % 3
  }

  /**
   * e ends in exactly p of '=' and every byte before them is an alphabet
   * symbol.
   */
  predicate Shaped(e: seq<byte>, p: nat)
  {
    p <= |e|
    && (forall k :: 0 <= k < |e| - p ==> e[k] != PAD && AlphabetIndex(e[k]) != MinusOne)
    && (forall k :: |e| - p <= k < |e| ==> e[k] == PAD)
  }

  /**
   * Shape of the encoding: its length, and every byte an alphabet symbol
   * except the final PadsFor(|x|) bytes, which are '='.
   */
  lemma {:induction false} EncodeShape(x: seq<byte>)
    ensures |Encode(x)| == EncodedLength(|x|)
    ensures Shaped(Encode(x), PadsFor(|x|))
    decreases |x|
  {
    if |x| < 3 {
      FinalQuadShape(x);
    } else {
      EncodeShape(x[3..]);
      var q := Quad(Group(x[0], x[1], x[2]));
      QuadSymbols(Group(x[0], x[1], x[2]));
      ShapedPrepend(q, Encode(x[3..]), PadsFor(|x| - 3));
      assert PadsFor(|x|) == PadsFor(|x| - 3);
      assert EncodedLength(|x|) == EncodedLength(|x| - 3) + 4;
    }
  }

  /** Four symbols in front keep the shape. */
  lemma ShapedPrepend(q: seq<byte>, r: seq<byte>, p: nat)
    requires |q| == 4 && Shaped(q, 0) && Shaped(r, p)
    ensures Shaped(q + r, p)
  {
    var e := q + r;
    forall k | 0 <= k < |e| ensures e[k] == if k < 4 then q[k] else r[k - 4] { }
  }

  /** The final group's shape: four bytes unless empty, the last PadsFor(|t|) of them '='. */
  lemma FinalQuadShape(t: seq<byte>)
    requires |t| < 3
    ensures |FinalQuad(t)| == EncodedLength(|t|) && Shaped(FinalQuad(t), PadsFor(|t|))
  {
    if |t| == 1 {
      QuadSymbols(Group(t[0], 0, 0));
    } else if |t| == 2 {
      QuadSymbols(Group(t[0], t[1], 0));
    }
  }

  /** Encoding distributes over a split after g whole groups of three bytes. */
  lemma {:induction false} EncodeConcat(a: seq<byte>, b: seq<byte>, g: nat)
    requires |a| == 3 * g
    ensures Encode(a + b) == Encode(a) + Encode(b)
  {
    if g > 0 {
      var c := a + b;
      assert c[3..] == a[3..] + b;
      assert c[0] == a[0] && c[1] == a[1] && c[2] == a[2];
      EncodeConcat(a[3..], b, g - 1);
    } else {
      assert a + b == b;
    }
  }


  // ---------------------------------------------------------------------
  // encodeToByte
  // ---------------------------------------------------------------------

  /** The growable byte buffer the encoder appends to (ByteBuilder); only its visible contents are modelled. */
  class ByteBuilder {
    var contents: seq<byte>

    constructor ()
      ensures contents == []
    {
      contents := [];
    }
  }

  /**
   * `encodeToByte`: append the encoding of `sArr[offset .. offset + length]`
   * to the buffer; full groups in a loop (EncodeGroups), then the padded
   * final group in the four positions below the new length `dLen`.  The
   * second leftover byte is read at `offset + length - 1` (see
   * FinalQuadAsWritten).
   */
  method EncodeToByte(target: ByteBuilder, sArr: seq<byte>, offset: nat, length: nat)
    requires offset + length <= |sArr|
    modifies target
    ensures target.contents == old(target.contents) + Encode(sArr[offset..offset + length])
    ensures |target.contents| == |old(target.contents)| + EncodedLength(length)
  {
    ghost var pre := target.contents;
    if length == 0 {
      EmptyEncoding(pre, sArr, offset, length);
      return;
    }
    var d := |target.contents|;
    var eLen := (length / 3) * 3 + offset;
    var cCnt := ((length - 1) / 3 + 1) * 4;
    var dLen := d + cCnt;
    var left := offset + length - eLen;
    LengthArith(length, offset);
    var dArr := EncodeGroups(target.contents, sArr, offset, eLen, length / 3);
    dArr := EncodeLast(pre, dArr, sArr, offset, length, eLen, left, dLen, length / 3);
    target.contents := dArr;
  }

  /** The rest of encodeToByte after its main loop: the final group, if bytes are left over. */
  method EncodeLast(ghost pre: seq<byte>, dArr: seq<byte>, sArr: seq<byte>, offset: nat, length: nat, eLen: nat, left: int, dLen: int, ghost groups: nat)
    returns (r: seq<byte>)
    requires offset + length <= |sArr| && eLen == offset + 3 * groups && left == offset + length - eLen && 0 <= left < 3
    requires dArr == pre + Encode(sArr[offset..eLen]) && dLen == |dArr| + (if left > 0 then 4 else 0)
    ensures r == pre + Encode(sArr[offset..offset + length]) && |r| == dLen
  {
    var d := |dArr|;
    if left > 0 {
      assert d == dLen - 4;  // the "Mismatch!" diagnostic never fires
      FinalStep(pre, sArr, offset, length, eLen, groups);
      r := EncodeTail(dArr, sArr, eLen, offset + length);
    } else {
      SameEncoding(pre, sArr, offset, eLen, offset + length);
      r := dArr;
    }
  }

  /**
   * The loop of encodeToByte over the full groups between `offset` and
   * `eLen`: four symbols appended for every three bytes.
   */
  method EncodeGroups(prefix: seq<byte>, sArr: seq<byte>, offset: nat, eLen: nat, ghost groups: nat) returns (dArr: seq<byte>)
    requires eLen == offset + 3 * groups <= |sArr|
    ensures dArr == prefix + Encode(sArr[offset..eLen])
    ensures |dArr| == |prefix| + 4 * groups
  {
    dArr := prefix;
    var off := offset;
    ghost var g := 0;
    while off < eLen
      invariant off == offset + 3 * g && g <= groups
      invariant |dArr| == |prefix| + 4 * g
      invariant dArr == prefix + Encode(sArr[offset..off])
    {
      GroupBound(off, offset, g, eLen, groups);
      GroupStep(prefix, sArr, offset, off, g);
      dArr := EncodeStep(dArr, sArr, off);
      off := off + 3;
      g := g + 1;
    }
    SameEncoding(prefix, sArr, offset, off, eLen);
  }

  /** The encodings of two slices with the same bounds are the same. */
  lemma SameEncoding(pre: seq<byte>, s: seq<byte>, offset: nat, off: nat, end: nat)
    requires offset <= off == end <= |s|
    ensures pre + Encode(s[offset..off]) == pre + Encode(s[offset..end])
  {
  }

  /** Nothing to encode appends nothing. */
  lemma EmptyEncoding(pre: seq<byte>, s: seq<byte>, offset: nat, length: nat)
    requires offset <= |s| && length == 0
    ensures pre == pre + Encode(s[offset..offset + length])
  {
    assert s[offset..offset + length] == [];
  }

  /** The index arithmetic of encodeToByte: full groups end at eLen, 0 to 2 bytes are left over, cCnt counts four symbols per group. */
  lemma LengthArith(length: nat, offset: nat)
    requires length > 0
    ensures (length / 3) * 3 + offset == offset + 3 * (length / 3)
    ensures 0 <= offset + length - ((length / 3) * 3 + offset) < 3
    ensures ((length - 1) / 3 + 1) * 4 == 4 * (length / 3) + (if offset + length - ((length / 3) * 3 + offset) > 0 then 4 else 0)
  {
  }

  /** A group starts 3 * g bytes after offset, so one that starts before eLen ends by eLen. */
  lemma GroupBound(off: int, offset: int, g: int, eLen: int, groups: int)
    requires off == offset + 3 * g && eLen == offset + 3 * groups && off < eLen
    ensures off + 3 <= eLen && g < groups
  {
  }

  /** Encoding one more full group appends its four symbols. */
  lemma GroupStep(pre: seq<byte>, s: seq<byte>, offset: nat, off: nat, g: nat)
    requires off == offset + 3 * g && off + 3 <= |s|
    ensures pre + Encode(s[offset..off]) + Encode(s[off..off + 3]) == pre + Encode(s[offset..off + 3])
  {
    var a := s[offset..off];
    var b := s[off..off + 3];
    assert s[offset..off + 3] == a + b;
    EncodeConcat(a, b, g);
  }

  /** One pass of encodeToByte's main loop: the four symbols of the three bytes at off, after d. */
  method EncodeStep(d: seq<byte>, sArr: seq<byte>, off: nat) returns (r: seq<byte>)
    requires off + 3 <= |sArr|
    ensures r == d + Encode(sArr[off..off + 3]) && |r| == |d| + 4
  {
    var i := Group(sArr[off], sArr[off + 1], sArr[off + 2]);
    EncodeOneGroup(sArr[off..off + 3]);
    r := d + Quad(i);
  }

  /** Three bytes encode to the four symbols of their group. */
  lemma EncodeOneGroup(b: seq<byte>)
    requires |b| == 3
    ensures Encode(b) == Quad(Group(b[0], b[1], b[2]))
  {
    assert b[3..] == [];
    assert Encode(b) == Quad(Group(b[0], b[1], b[2])) + FinalQuad([]);
  }

  /** The value encodeToByte gives a final group: the first byte at bits 10 to 17, the second at bits 2 to 9. */
  function TailValue(b0: byte, b1: byte): (i: bv32)
    ensures i < 0x40000
  {
    ((b0 as bv32) << 10) | ((b1 as bv32) << 2)
  }

  /** The four symbols encodeToByte writes for a final group of `left` bytes with value i. */
  function TailQuad(i: bv32, left: int): seq<byte>
    requires i < 0x40000
  {
    [Sym(i >> 12), Sym((i >> 6) & 0x3f), if left == 2 then Sym(i & 0x3f) else PAD, PAD]
  }

  /** The symbols encodeToByte computes for one or two leftover bytes are their final group. */
  lemma TailSymbols(t: seq<byte>)
    requires 1 <= |t| <= 2
    ensures TailQuad(TailValue(t[0], if |t| == 2 then t[1] else 0), |t|) == FinalQuad(t)
  {
    if |t| == 1 {
      TailSymbolsOne(t[0]);
    } else {
      TailSymbolsTwo(t[0], t[1]);
    }
  }

  /** One leftover byte: two symbols and "==". */
  lemma TailSymbolsOne(b0: byte)
    ensures TailQuad(TailValue(b0, 0), 1) == Quad(Group(b0, 0, 0))[..2] + [PAD, PAD]
  {
    var i := TailValue(b0, 0);
    TailDigits(b0, 0);
    var q := Quad(Group(b0, 0, 0));
    assert q[..2] + [PAD, PAD] == [q[0], q[1], PAD, PAD];
  }

  /** Two leftover bytes: three symbols and "=". */
  lemma TailSymbolsTwo(b0: byte, b1: byte)
    ensures TailQuad(TailValue(b0, b1), 2) == Quad(Group(b0, b1, 0))[..3] + [PAD]
  {
    var i := TailValue(b0, b1);
    TailDigits(b0, b1);
    var q := Quad(Group(b0, b1, 0));
    assert q[..3] + [PAD] == [q[0], q[1], q[2], PAD];
  }

  /** The 18-bit tail value holds the top three six-bit digits of the zero-padded group. */
  lemma TailDigits(b0: byte, b1: byte)
    ensures var i := TailValue(b0, b1);
      var n := Group(b0, b1, 0);
      i >> 12 == (n >> 18) & 0x3f && (i >> 6) & 0x3f == (n >> 12) & 0x3f && i & 0x3f == (n >> 6) & 0x3f
  {
  }

  /** Appending the final group completes the encoding. */
  lemma FinalStep(pre: seq<byte>, s: seq<byte>, offset: nat, length: nat, eLen: nat, groups: nat)
    requires offset + length <= |s| && eLen == offset + 3 * groups && 0 < offset + length - eLen < 3
    ensures pre + Encode(s[offset..eLen]) + Encode(s[eLen..offset + length]) == pre + Encode(s[offset..offset + length])
  {
    var a := s[offset..eLen];
    var t := s[eLen..offset + length];
    assert s[offset..offset + length] == a + t;
    EncodeConcat(a, t, groups);
  }

  /**
   * The last four symbols encodeToByte sets for the one or two bytes from
   * eLen to last: the first leftover byte at bits 10 to 17, the second at
   * bits 2 to 9, then '=' in place of the missing symbols.
   */
  method EncodeTail(d: seq<byte>, sArr: seq<byte>, eLen: nat, last: nat) returns (r: seq<byte>)
    requires eLen < last <= |sArr| && last - eLen < 3
    ensures r == d + Encode(sArr[eLen..last]) && |r| == |d| + 4
  {
    var left := last - eLen;
    var i := TailValue(sArr[eLen], if left == 2 then sArr[last - 1] else 0);
    ghost var t := sArr[eLen..last];
    TailSymbols(t);
    assert t[0] == sArr[eLen];
    assert |t| == 2 ==> t[1] == sArr[last - 1];
    assert Encode(t) == FinalQuad(t);
    r := d + TailQuad(i, left);
  }

  /**
   * The final group as line 126 of encodeToByte computes it: the second
   * leftover byte is read from `sArr[length - 1]`, an index that leaves
   * out `offset`.
   */
  function FinalQuadAsWritten(sArr: seq<byte>, offset: nat, length: nat): (r: seq<byte>)
    requires offset + length <= |sArr| && length % 3 != 0
    ensures |r| == 4 && r[3] == PAD && (length % 3 == 1 <==> r[2] == PAD)
  {
    var eLen := (length / 3) * 3 + offset;
    var left := offset + length - eLen;
    TailQuad(TailValue(sArr[eLen], if left == 2 then sArr[length - 1] else 0), left)
  }

  /** As written, the final group is right when `offset` is 0 or only one byte is left over. */
  lemma AsWrittenAtOffsetZero(sArr: seq<byte>, offset: nat, length: nat)
    requires offset + length <= |sArr| && length % 3 != 0
    requires offset == 0 || length % 3 == 1
    ensures FinalQuadAsWritten(sArr, offset, length) == Encode(sArr[(length / 3) * 3 + offset..offset + length])
  {
    var eLen := (length / 3) * 3 + offset;
    var t := sArr[eLen..offset + length];
    assert |t| == length % 3;
    TailSymbols(t);
    assert t[0] == sArr[eLen];
    assert |t| == 2 ==> t[1] == sArr[length - 1];
  }

  /** With offset 3 and the two bytes "AB" to encode, line 126 reads the byte 0 instead of 'B': "QQA=" instead of "QUI=". */
  lemma AsWrittenCounterexample()
    ensures FinalQuadAsWritten([0, 0, 0, 65, 66], 3, 2) == [81, 81, 65, 61]
    ensures Encode([65, 66]) == [81, 85, 73, 61]
  {
    assert [0, 0, 0, 65, 66][1] == 0;
  }

  // ---------------------------------------------------------------------
  // Well-formed encodings and what they stand for
  // ---------------------------------------------------------------------

  /**
   * A well-formed encoding: a multiple of four bytes, all of them alphabet
   * symbols except that the last one or two may be '=' (a '=' only ever
   * followed by '=').
   */
  predicate WellFormed(s: seq<byte>)
  {
    |s| % 4 == 0
    && (forall k :: 0 <= k < |s| - 2 ==> AlphabetIndex(s[k]) != MinusOne)
    && (|s| >= 2 ==> IsSymbolOrPad(s[|s| - 2]) && IsSymbolOrPad(s[|s| - 1]))
    && (|s| >= 2 && s[|s| - 2] == PAD ==> s[|s| - 1] == PAD)
  }

  /** The number of '=' at the end of an encoding: none, one or two. */
  function TrailingPads(s: seq<byte>): (p: nat)
    ensures p <= 2 && p <= |s|
  {
    if |s| >= 1 && s[|s| - 1] == PAD then
      if |s| >= 2 && s[|s| - 2] == PAD then 2 else 1
    else 0
  }

  /** The 24-bit value of four characters: six bits each, from IA ('=' counts as zero). */
  function Value(c0: byte, c1: byte, c2: byte, c3: byte): bv32
  {
    (IA(c0) << 18) | (IA(c1) << 12) | (IA(c2) << 6) | IA(c3)
  }

  /** The low eight bits of an int, as the `(byte)` cast keeps them. */
  function Low8(n: bv32): byte
  {
    (n & 0xFF) as byte
  }

  /** The three bytes of a 24-bit value, as `(byte)(i >> 16)`, `(byte)(i >> 8)` and `(byte) i`. */
  function Bytes(n: bv32): seq<byte>
  {
    [Low8(n >> 16), Low8(n >> 8), Low8(n)]
  }

  /** Every complete group of four characters, decoded to three bytes. */
  function Groups(s: seq<byte>): seq<byte>
    decreases |s|
  {
    if |s| < 4 then []
    else Bytes(Value(s[0], s[1], s[2], s[3])) + Groups(s[4..])
  }

  /** What a well-formed encoding stands for: its groups, less one byte per '='. */
  function DecodeRef(s: seq<byte>): seq<byte>
    requires WellFormed(s)
  {
    GroupsLength(s);
    Groups(s)[..|s| / 4 * 3 - TrailingPads(s)]
  }

  /** Three bytes for every whole group of four characters. */
  lemma {:induction false} GroupsLength(s: seq<byte>)
    ensures |Groups(s)| == |s| / 4 * 3
    decreases |s|
  {
    if |s| >= 4 {
      GroupsLength(s[4..]);
      assert |Groups(s)| == 3 + |Groups(s[4..])|;
      GroupCountStep(|s|);
    }
  }

  /** One group fewer: three bytes fewer. */
  lemma GroupCountStep(n: int)
    requires n >= 4
    ensures (n - 4) / 4 * 3 + 3 == n / 4 * 3
  {
  }

  /** The four symbols of a 24-bit group have the group as their value. */
  lemma QuadValue(n: bv32)
    requires n < 0x100_0000
    ensures Value(Quad(n)[0], Quad(n)[1], Quad(n)[2], Quad(n)[3]) == n
  {
    SymIndex((n >> 18) & 0x3f);
    SymIndex((n >> 12) & 0x3f);
    SymIndex((n >> 6) & 0x3f);
    SymIndex(n & 0x3f);
    DigitSplit(n);
  }

  /** A 24-bit value is its four six-bit digits put back in place. */
  lemma DigitSplit(n: bv32)
    requires n < 0x100_0000
    ensures (((n >> 18) & 0x3f) << 18) | (((n >> 12) & 0x3f) << 12) | (((n >> 6) & 0x3f) << 6) | (n & 0x3f) == n
  {
  }

  /** A group's three bytes come back out of its value. */
  lemma BytesGroup(b0: byte, b1: byte, b2: byte)
    ensures Bytes(Group(b0, b1, b2)) == [b0, b1, b2]
  {
  }

  /** A final group of two bytes: its '=' stands for the zero low digit. */
  lemma ValueOnePad(n: bv32)
    requires n < 0x100_0000 && n & 0x3f == 0
    ensures Value(Quad(n)[0], Quad(n)[1], Quad(n)[2], PAD) == n
  {
    SymIndex((n >> 18) & 0x3f);
    SymIndex((n >> 12) & 0x3f);
    SymIndex((n >> 6) & 0x3f);
    DigitSplit(n);
  }

  /** A final group of one byte: its "==" stand for the two zero low digits. */
  lemma ValueTwoPads(n: bv32)
    requires n < 0x100_0000 && n & 0xfff == 0
    ensures Value(Quad(n)[0], Quad(n)[1], PAD, PAD) == n
  {
    SymIndex((n >> 18) & 0x3f);
    SymIndex((n >> 12) & 0x3f);
    DigitSplit(n);
  }

  /** A group whose last byte is zero has six zero low bits; one whose last two are zero, twelve. */
  lemma GroupLowZero(b0: byte, b1: byte)
    ensures Group(b0, b1, 0) & 0x3f == 0 && Group(b0, 0, 0) & 0xfff == 0
  {
  }

  /** Decoding splits after a first group of four characters. */
  lemma GroupsCons(q: seq<byte>, r: seq<byte>)
    requires |q| == 4
    ensures Groups(q + r) == Bytes(Value(q[0], q[1], q[2], q[3])) + Groups(r)
  {
    var s := q + r;
    assert s[4..] == r;
    assert s[0] == q[0] && s[1] == q[1] && s[2] == q[2] && s[3] == q[3];
  }

  /** Decoding the final group of an encoding gives back its one or two bytes, then zeros. */
  lemma FinalGroups(t: seq<byte>)
    requires |t| < 3
    ensures |t| <= |Groups(FinalQuad(t))| && Groups(FinalQuad(t))[..|t|] == t
  {
    if |t| == 2 {
      var n := Group(t[0], t[1], 0);
      var q := Quad(n);
      var e := q[..3] + [PAD];
      assert e == [q[0], q[1], q[2], PAD];
      GroupsCons(e, []);
      GroupLowZero(t[0], t[1]);
      ValueOnePad(n);
      BytesGroup(t[0], t[1], 0);
      assert Groups(e) == [t[0], t[1], 0];
    } else if |t| == 1 {
      var n := Group(t[0], 0, 0);
      var q := Quad(n);
      var e := q[..2] + [PAD, PAD];
      assert e == [q[0], q[1], PAD, PAD];
      GroupsCons(e, []);
      GroupLowZero(t[0], 0);
      ValueTwoPads(n);
      BytesGroup(t[0], 0, 0);
      assert Groups(e) == [t[0], 0, 0];
    }
  }

  /** Decoding the groups of an encoding gives the bytes encoded, then a zero byte per '='. */
  lemma {:induction false} GroupsOfEncode(x: seq<byte>)
    ensures |x| <= |Groups(Encode(x))|
    ensures Groups(Encode(x))[..|x|] == x
    decreases |x|
  {
    if |x| < 3 {
      FinalGroups(x);
    } else {
      GroupsOfEncode(x[3..]);
      FirstGroupBytes(x);
      PrefixCons(x, Groups(Encode(x[3..])));
    }
  }

  /** Decoding an encoding of at least three bytes starts with those three bytes. */
  lemma FirstGroupBytes(x: seq<byte>)
    requires |x| >= 3
    ensures Groups(Encode(x)) == [x[0], x[1], x[2]] + Groups(Encode(x[3..]))
  {
    var n := Group(x[0], x[1], x[2]);
    var q := Quad(n);
    var r := Encode(x[3..]);
    assert Encode(x) == q + r;
    GroupsCons(q, r);
    QuadValue(n);
    BytesGroup(x[0], x[1], x[2]);
  }

  /** Three bytes of x, then a sequence that starts with the rest of x, start with x. */
  lemma PrefixCons(x: seq<byte>, g: seq<byte>)
    requires |x| >= 3 && |x| - 3 <= |g| && g[..|x| - 3] == x[3..]
    ensures |x| <= |[x[0], x[1], x[2]] + g| && ([x[0], x[1], x[2]] + g)[..|x|] == x
  {
    var h := [x[0], x[1], x[2]];
    assert (h + g)[..|x|] == h + g[..|x| - 3];
    assert x == h + x[3..];
  }

  /** The round trip: every encoding is well formed and stands for the bytes encoded. */
  lemma RoundTrip(x: seq<byte>)
    ensures WellFormed(Encode(x))
    ensures DecodeRef(Encode(x)) == x
  {
    EncodeShape(x);
    EncodedLengthFacts(|x|);
    EncodeWellFormed(Encode(x), PadsFor(|x|));
    GroupsOfEncode(x);
  }

  /** A shaped sequence of whole groups with at most two '=' is well formed, the '=' being its trailing pads. */
  lemma EncodeWellFormed(e: seq<byte>, p: nat)
    requires |e| % 4 == 0 && p <= 2 && Shaped(e, p) && (p > 0 ==> |e| >= 4)
    ensures WellFormed(e) && TrailingPads(e) == p
  {
    if |e| >= 2 {
      IARange(e[|e| - 2]);
      IARange(e[|e| - 1]);
    }
  }

  /** Encoded lengths are whole groups of four; three bytes per group, less one per '=', is the input length again. */
  lemma EncodedLengthFacts(n: nat)
    ensures EncodedLength(n) % 4 == 0 && PadsFor(n) <= 2 && (PadsFor(n) > 0 ==> EncodedLength(n) >= 4)
    ensures EncodedLength(n) / 4 * 3 - PadsFor(n) == n
  {
    if n > 0 {
      var q := (n - 1) / 3;
      assert EncodedLength(n) == 4 * (q + 1);
      assert EncodedLength(n) / 4 * 3 == (q + 1) * 3;
    }
  }


  // ---------------------------------------------------------------------
  // decode
  // ---------------------------------------------------------------------

  /** `IA[b] <= 0` for the int IA holds: '=', 'A' and every byte outside the alphabet. */
  predicate NonPositive(c: bv32)
  {
    c == 0 || !NonNegative(c)
  }

  /** The slice of n bytes from offset lies inside s. */
  predicate InBounds(s: seq<byte>, offset: int, n: int)
  {
    0 <= offset && 0 <= n && offset + n <= |s|
  }

  /** The number of '=' in t. */
  function CountPads(t: seq<byte>): nat
  {
    if |t| == 0 then 0 else (if t[0] == PAD then 1 else 0) + CountPads(t[1..])
  }

  /**
   * The loop of decode that counts '=': from the end of the slice back to
   * its second byte, as long as IA of the byte is at most 0.
   */
  method ScanPads(sArr: seq<byte>, offset: int, sLen: int) returns (r: Result<int>)
    ensures r.Failure? ==> r.error == IndexOutOfBounds && !InBounds(sArr, offset, sLen)
    ensures r.Success? ==> 0 <= r.value
    ensures sLen <= 1 ==> r == Success(0)
    ensures InBounds(sArr, offset, sLen) && WellFormed(sArr[offset..offset + sLen]) ==> r == Success(TrailingPads(sArr[offset..offset + sLen]))
  {
    var pad := 0;
    var i := sLen;
    ghost var inb := InBounds(sArr, offset, sLen);
    while i > 1
      invariant if sLen <= 1 then i == sLen else 1 <= i <= sLen
      invariant 0 <= pad && (i == sLen ==> pad == 0)
      invariant inb ==> pad == CountPads(sArr[offset + i..offset + sLen])
    {
      if !(0 <= offset + i - 1 < |sArr|) {
        return Failure(IndexOutOfBounds);
      }
      if !NonPositive(IA(sArr[offset + i - 1])) {
        break;
      }
      ghost var rest := if inb then sArr[offset + i..offset + sLen] else [];
      i := i - 1;
      if inb {
        assert sArr[offset + i..offset + sLen][1..] == rest;
      }
      if sArr[offset + i] == PAD {
        pad := pad + 1;
      }
    }
    if inb && WellFormed(sArr[offset..offset + sLen]) && sLen > 1 {
      ScanCounted(sArr, offset, sLen, i, pad);
    }
    return Success(pad);
  }

  /** Where the loop of ScanPads stops, the '=' it counted are the trailing ones. */
  lemma ScanCounted(sArr: seq<byte>, offset: int, sLen: int, i: int, pad: int)
    requires InBounds(sArr, offset, sLen) && WellFormed(sArr[offset..offset + sLen]) && sLen > 1
    requires 1 <= i <= sLen && pad == CountPads(sArr[offset + i..offset + sLen])
    requires i > 1 ==> !NonPositive(IA(sArr[offset + i - 1]))
    ensures pad == TrailingPads(sArr[offset..offset + sLen])
  {
    var src := sArr[offset..offset + sLen];
    assert src[i..] == sArr[offset + i..offset + sLen];
    if i > 1 {
      IARange(src[i - 1]);
      assert src[i - 1..][1..] == src[i..];
      TrailingPadsCounted(src, i - 1);
    } else {
      TrailingPadsCounted(src, i);
    }
  }

  /**
   * In a well-formed encoding, the '=' from any byte on are its trailing
   * pads, provided the count starts before the last two bytes or at a byte
   * that is not '='.
   */
  lemma {:induction false} TrailingPadsCounted(s: seq<byte>, i: nat)
    requires WellFormed(s) && i < |s| && (i + 3 <= |s| || s[i] != PAD)
    ensures CountPads(s[i..]) == TrailingPads(s)
    decreases |s| - i
  {
    if i + 2 < |s| {
      assert AlphabetIndex(PAD) == MinusOne;
      assert s[i..][1..] == s[i + 1..];
      if i + 3 < |s| || s[i + 1] != PAD {
        TrailingPadsCounted(s, i + 1);
      } else {
        LastTwoPads(s);
      }
    } else {
      assert s[i..][1..] == s[i + 1..];
      if i + 1 < |s| {
        assert s[i + 1..][1..] == [];
      }
    }
  }

  /** The last two bytes hold the trailing pads. */
  lemma LastTwoPads(s: seq<byte>)
    requires WellFormed(s) && |s| >= 2
    ensures CountPads(s[|s| - 2..]) == TrailingPads(s)
  {
    var t := s[|s| - 2..];
    assert t[1..][1..] == [];
    assert CountPads(t[1..]) == if t[1] == PAD then 1 else 0;
    assert t[0] == s[|s| - 2] && t[1] == s[|s| - 1];
  }

  /** The bytes from s0 on are four the decoder takes as they are: each maps to a six-bit value. */
  predicate PlainGroupAt(sArr: seq<byte>, s0: int)
  {
    0 <= s0 && s0 + 4 <= |sArr| && forall k :: s0 <= k < s0 + 4 ==> IsSymbolOrPad(sArr[k])
  }

  /**
   * The int the inner loop of decode holds after taking the first j of the
   * four plain bytes from s0: their six-bit values, highest first.
   */
  function Partial(sArr: seq<byte>, s0: nat, j: bv32): bv32
    requires s0 + 4 <= |sArr|
  {
    if j == 0 then 0
    else if j == 1 then IA(sArr[s0]) << 18
    else if j == 2 then (IA(sArr[s0]) << 18) | (IA(sArr[s0 + 1]) << 12)
    else if j == 3 then (IA(sArr[s0]) << 18) | (IA(sArr[s0 + 1]) << 12) | (IA(sArr[s0 + 2]) << 6)
    else Value(sArr[s0], sArr[s0 + 1], sArr[s0 + 2], sArr[s0 + 3])
  }

  /** The bv32 loop counter j and the int k count the same characters, none to four. */
  predicate Same(j: bv32, k: int)
  {
    (j == 0 && k == 0) || (j == 1 && k == 1) || (j == 2 && k == 2) || (j == 3 && k == 3) || (j == 4 && k == 4)
  }

  /** The bv32 count of k characters, none to four. */
  function Count(k: int): (j: bv32)
    requires 0 <= k <= 4
    ensures Same(j, k)
  {
    if k == 0 then 0 else if k == 1 then 1 else if k == 2 then 2 else if k == 3 then 3 else 4
  }

  /** A counter paired with k is the count of k. */
  lemma SameCount(j: bv32, k: int)
    requires Same(j, k)
    ensures 0 <= k <= 4 && j == Count(k)
  {
  }

  /** Both counters step together. */
  lemma SameStep(j: bv32, k: int)
    requires Same(j, k) && j < 4
    ensures Same(j + 1, k + 1) && 0 <= k < 4
  {
  }

  /** Character j, put in place, extends the partial value by one digit. */
  lemma PartialStep(sArr: seq<byte>, s0: nat, j: bv32, k: int, i: bv32)
    requires s0 + 4 <= |sArr| && Same(j, k) && j < 4 && i == Partial(sArr, s0, j)
    ensures 0 <= k < 4 && i | (IA(sArr[s0 + k]) << (18 - j * 6)) == Partial(sArr, s0, j + 1)
  {
    if j == 0 {
      PartialStep0(sArr, s0, j, k, i);
    } else if j == 1 {
      PartialStep1(sArr, s0, j, k, i);
    } else if j == 2 {
      PartialStep2(sArr, s0, j, k, i);
    } else {
      PartialStep3(sArr, s0, j, k, i);
    }
  }

  /** PartialStep for the digit c that IA gave for the byte b at s0 + k. */
  lemma DigitStep(sArr: seq<byte>, s0: nat, j: bv32, k: int, i: bv32, b: byte, c: bv32)
    requires s0 + 4 <= |sArr| && Same(j, k) && j < 4 && i == Partial(sArr, s0, j)
    requires 0 <= s0 + k < |sArr| && b == sArr[s0 + k] && c == IA(b)
    ensures i | (c << (18 - j * 6)) == Partial(sArr, s0, j + 1)
  {
    PartialStep(sArr, s0, j, k, i);
  }

  /** All four characters taken: the partial value is the group's value. */
  lemma PartialFour(sArr: seq<byte>, s0: nat)
    requires s0 + 4 <= |sArr|
    ensures Partial(sArr, s0, 4) == Value(sArr[s0], sArr[s0 + 1], sArr[s0 + 2], sArr[s0 + 3])
  {
  }

  /** The first character of a group. */
  lemma PartialStep0(sArr: seq<byte>, s0: nat, j: bv32, k: int, i: bv32)
    requires s0 + 4 <= |sArr| && j == 0 && k == 0 && i == Partial(sArr, s0, j)
    ensures i | (IA(sArr[s0 + k]) << (18 - j * 6)) == Partial(sArr, s0, j + 1)
  {
  }

  /** The second character of a group. */
  lemma PartialStep1(sArr: seq<byte>, s0: nat, j: bv32, k: int, i: bv32)
    requires s0 + 4 <= |sArr| && j == 1 && k == 1 && i == Partial(sArr, s0, j)
    ensures i | (IA(sArr[s0 + k]) << (18 - j * 6)) == Partial(sArr, s0, j + 1)
  {
  }

  /** The third character of a group. */
  lemma PartialStep2(sArr: seq<byte>, s0: nat, j: bv32, k: int, i: bv32)
    requires s0 + 4 <= |sArr| && j == 2 && k == 2 && i == Partial(sArr, s0, j)
    ensures i | (IA(sArr[s0 + k]) << (18 - j * 6)) == Partial(sArr, s0, j + 1)
  {
  }

  /** The fourth character of a group. */
  lemma PartialStep3(sArr: seq<byte>, s0: nat, j: bv32, k: int, i: bv32)
    requires s0 + 4 <= |sArr| && j == 3 && k == 3 && i == Partial(sArr, s0, j)
    ensures i | (IA(sArr[s0 + k]) << (18 - j * 6)) == Partial(sArr, s0, j + 1)
  {
  }

  /** A byte IA does not map to -1 has a six-bit value. */
  lemma DigitRange(b: byte)
    requires NonNegative(IA(b))
    ensures IA(b) < 64
  {
    IARange(b);
  }

  /** A six-bit value put in place as one of four digits keeps the int within 24 bits. */
  lemma DigitBound(i: bv32, c: bv32, j: bv32)
    requires i < 0x100_0000 && c < 64 && j < 4
    ensures i | (c << (18 - j * 6)) < 0x100_0000
  {
  }


  /**
   * The inner loop of decode: from s0 on, take the next four bytes IA maps
   * to a six-bit value, skipping every other byte, and put those values
   * together, highest first; returns the int and the index after them.
   */
  method AssembleGroup(sArr: seq<byte>, s0: int) returns (r: Result<(bv32, int)>)
    ensures r.Failure? ==> r.error == IndexOutOfBounds
    ensures r.Success? ==> s0 + 4 <= r.value.1 <= |sArr| && r.value.0 < 0x100_0000
    ensures PlainGroupAt(sArr, s0) ==> r == Success((Value(sArr[s0], sArr[s0 + 1], sArr[s0 + 2], sArr[s0 + 3]), s0 + 4))
  {
    var i: bv32 := 0;
    var s := s0;
    var j: bv32 := 0;
    ghost var k := 0;
    ghost var plain := PlainGroupAt(sArr, s0);
    while j < 4
      invariant Same(j, k) && s0 + k <= s && (s0 < s ==> s <= |sArr|)
      invariant i < 0x100_0000
      invariant plain ==> s == s0 + k && i == Partial(sArr, s0, j)
      decreases |sArr| - s
    {
      if !(0 <= s < |sArr|) {
        return Failure(IndexOutOfBounds);
      }
      var c := IA(sArr[s]);
      ghost var b := sArr[s];
      s := s + 1;
      if NonNegative(c) {
        DigitRange(b);
        DigitBound(i, c, j);
        SameStep(j, k);
        if plain {
          DigitStep(sArr, s0, j, k, i, b, c);
        }
        i := i | (c << (18 - j * 6));
        j := j + 1;
        k := k + 1;
      }
      // otherwise Java's `j--` undoes the loop's `j++`
    }
    if plain {
      PartialFour(sArr, s0);
    }
    return Success((i, s));
  }

  /** Java's int arithmetic: n wrapped to 32 bits and read as a signed value. */
  function Int32(n: int): (r: int)
    ensures -0x8000_0000 <= r < 0x8000_0000 && (r - n) % 0x1_0000_0000 == 0
    ensures -0x8000_0000 <= n < 0x8000_0000 ==> r == n
  {
    (n + 0x8000_0000) % 0x1_0000_0000 - 0x8000_0000
  }

  /**
   * The output length as decode computes it, `(sLen * 6 >> 3) - pad`, with
   * the product in 32-bit int arithmetic (`>> 3` floors, as Dafny's `/ 8` does).
   */
  function DecodedLengthAsWritten(sLen: int, pad: int): (len: int)
    ensures -0x1000_0000 - pad <= len < 0x1000_0000 - pad
  {
    Int32(sLen * 6) / 8 - pad
  }

  /** The output length decode evidently means: six bits per character, less one byte per '='. */
  function DecodedLength(sLen: int, pad: int): (len: int)
    ensures sLen % 4 == 0 ==> len == sLen / 4 * 3 - pad
  {
    sLen * 6 / 8 - pad
  }

  /** Both agree while `sLen * 6` fits an int. */
  lemma LengthAsWrittenAgrees(sLen: int, pad: int)
    requires 0 <= sLen && sLen * 6 < 0x8000_0000
    ensures DecodedLengthAsWritten(sLen, pad) == DecodedLength(sLen, pad)
  {
  }

  /** A slice of 357913944 characters, a multiple of four, gets a negative length as written. */
  lemma LengthOverflowCounterexample()
    ensures DecodedLengthAsWritten(357913944, 0) < 0
    ensures DecodedLength(357913944, 0) == 268435458
  {
  }

  /** The value of group g of s, its characters 4g to 4g + 3. */
  function GroupValue(s: seq<byte>, g: nat): bv32
    requires 4 * g + 4 <= |s|
  {
    Value(s[4 * g], s[4 * g + 1], s[4 * g + 2], s[4 * g + 3])
  }

  /** Byte 3g + k of Groups(s) is byte k of group g. */
  lemma {:induction false} GroupsAt(s: seq<byte>, g: nat, k: nat)
    requires 4 * g + 4 <= |s| && k < 3
    ensures 3 * g + k < |Groups(s)|
    ensures Groups(s)[3 * g + k] == Bytes(GroupValue(s, g))[k]
    decreases g
  {
    GroupsUnfold(s);
    if g > 0 {
      GroupsAt(s[4..], g - 1, k);
      GroupValueTail(s, g);
      AppendIndex(Bytes(Value(s[0], s[1], s[2], s[3])), Groups(s[4..]), 3 * g + k);
    }
  }

  /** Groups(s) unfolded once. */
  lemma GroupsUnfold(s: seq<byte>)
    requires |s| >= 4
    ensures Groups(s) == Bytes(Value(s[0], s[1], s[2], s[3])) + Groups(s[4..])
  {
  }

  /** Past three bytes, an index into h + t is one into t. */
  lemma AppendIndex(h: seq<byte>, t: seq<byte>, i: nat)
    requires |h| == 3 && 3 <= i < 3 + |t|
    ensures i < |h + t| && (h + t)[i] == t[i - 3]
  {
  }

  /** Group g of s is group g - 1 of what follows its first group. */
  lemma GroupValueTail(s: seq<byte>, g: nat)
    requires 4 * g + 4 <= |s| && g > 0
    ensures GroupValue(s[4..], g - 1) == GroupValue(s, g)
  {
    var t := s[4..];
    assert t[4 * (g - 1)] == s[4 * g] && t[4 * (g - 1) + 1] == s[4 * g + 1];
    assert t[4 * (g - 1) + 2] == s[4 * g + 2] && t[4 * (g - 1) + 3] == s[4 * g + 3];
  }

  /** Inside a well-formed slice, each group of four is one decode takes as it is. */
  lemma PlainInside(sArr: seq<byte>, offset: int, sLen: int, g: nat)
    requires InBounds(sArr, offset, sLen) && WellFormed(sArr[offset..offset + sLen]) && 4 * g + 4 <= sLen
    ensures PlainGroupAt(sArr, offset + 4 * g)
  {
    var src := sArr[offset..offset + sLen];
    forall k | offset + 4 * g <= k < offset + 4 * g + 4
      ensures IsSymbolOrPad(sArr[k])
    {
      assert sArr[k] == src[k - offset];
      if k - offset < sLen - 2 {
        assert AlphabetIndex(src[k - offset]) != MinusOne;
        IARange(src[k - offset]);
      }
    }
  }

  /** While fewer bytes are out than the slice's groups hold, another whole group lies inside it. */
  lemma NextGroupInside(g: nat, len: int, sLen: int)
    requires 3 * g < len && sLen % 4 == 0 && len <= sLen / 4 * 3
    ensures 4 * g + 4 <= sLen
  {
  }

  /** Java's `sLen % 4 == 0` is divisibility by four, for either sign. */
  lemma RemZero(a: int)
    ensures JavaRem(a, 4) == 0 <==> a % 4 == 0
  {
  }

  /**
   * In a well-formed slice, with g groups out and fewer than len bytes,
   * the characters from s on are the next group, taken as they are, and
   * its three bytes are the next three of Groups.
   */
  lemma NextGroup(sArr: seq<byte>, offset: int, sLen: int, g: nat, len: int, s: int, want: seq<byte>, d: int)
    requires InBounds(sArr, offset, sLen) && WellFormed(sArr[offset..offset + sLen])
    requires 3 * g < len && len <= sLen / 4 * 3 && s == offset + 4 * g
    requires d == 3 * g && want == Groups(sArr[offset..offset + sLen])
    ensures PlainGroupAt(sArr, s) && d + 3 <= |want| && want[d..d + 3] == Bytes(Value(sArr[s], sArr[s + 1], sArr[s + 2], sArr[s + 3]))
  {
    NextGroupInside(g, len, sLen);
    PlainInside(sArr, offset, sLen, g);
    GroupBytesAt(sArr, offset, sLen, g, s);
  }

  /** Bytes 3g to 3g + 2 of the slice's Groups are those of its group g, the characters from s. */
  lemma GroupBytesAt(sArr: seq<byte>, offset: int, sLen: int, g: nat, s: int)
    requires InBounds(sArr, offset, sLen) && 4 * g + 4 <= sLen && s == offset + 4 * g
    ensures 3 * g + 3 <= |Groups(sArr[offset..offset + sLen])|
    ensures Groups(sArr[offset..offset + sLen])[3 * g..3 * g + 3] == Bytes(Value(sArr[s], sArr[s + 1], sArr[s + 2], sArr[s + 3]))
  {
    GroupSlice(sArr[offset..offset + sLen], g);
    GroupValueAt(sArr, offset, sLen, g, s);
  }

  /** Bytes 3g to 3g + 2 of Groups(s) are the bytes of group g. */
  lemma GroupSlice(s: seq<byte>, g: nat)
    requires 4 * g + 4 <= |s|
    ensures 3 * g + 3 <= |Groups(s)| && Groups(s)[3 * g..3 * g + 3] == Bytes(GroupValue(s, g))
  {
    GroupsAt(s, g, 0);
    GroupsAt(s, g, 1);
    GroupsAt(s, g, 2);
    ThreeBytes(Groups(s), 3 * g, Bytes(GroupValue(s, g)));
  }

  /** Three bytes that agree one by one form the slice. */
  lemma ThreeBytes(t: seq<byte>, d: nat, b: seq<byte>)
    requires d + 3 <= |t| && |b| == 3 && t[d] == b[0] && t[d + 1] == b[1] && t[d + 2] == b[2]
    ensures t[d..d + 3] == b
  {
  }

  /** Group g of the slice is the four characters from s in sArr. */
  lemma GroupValueAt(sArr: seq<byte>, offset: int, sLen: int, g: nat, s: int)
    requires InBounds(sArr, offset, sLen) && 4 * g + 4 <= sLen && s == offset + 4 * g
    ensures GroupValue(sArr[offset..offset + sLen], g) == Value(sArr[s], sArr[s + 1], sArr[s + 2], sArr[s + 3])
  {
    var src := sArr[offset..offset + sLen];
    assert src[4 * g] == sArr[s] && src[4 * g + 1] == sArr[s + 1];
    assert src[4 * g + 2] == sArr[s + 2] && src[4 * g + 3] == sArr[s + 3];
  }

  /**
   * The "add the bytes" step of decode: the three bytes of i, as many as
   * fit below len, go to dArr from d on; returns the new d.
   */
  method AddBytes(dArr: array<byte>, d: int, i: bv32) returns (next: int)
    requires 0 <= d < dArr.Length
    modifies dArr
    ensures next == if d + 3 <= dArr.Length then d + 3 else dArr.Length
    ensures dArr[..d] == old(dArr[..d]) && dArr[next..] == old(dArr[next..])
    ensures dArr[d..next] == Bytes(i)[..next - d]
  {
    var len := dArr.Length;
    ghost var b := Bytes(i);
    next := d;
    dArr[next] := Low8(i >> 16);
    next := next + 1;
    if next < len {
      dArr[next] := Low8(i >> 8);
      next := next + 1;
      if next < len {
        dArr[next] := Low8(i);
        next := next + 1;
        assert dArr[d..next] == [b[0], b[1], b[2]];
      } else {
        assert dArr[d..next] == [b[0], b[1]];
      }
    } else {
      assert dArr[d..next] == [b[0]];
    }
  }

  /** One pass of decode's loop: the group at s assembled, its bytes stored from d. */
  method DecodeStep(sArr: seq<byte>, dArr: array<byte>, s: int, d: int, ghost want: seq<byte>, ghost ok: bool)
    returns (r: Result<(int, int)>)
    requires 0 <= d < dArr.Length
    requires ok ==> dArr.Length <= |want| && dArr[..d] == want[..d]
    requires ok ==> PlainGroupAt(sArr, s) && d + 3 <= |want| && want[d..d + 3] == Bytes(Value(sArr[s], sArr[s + 1], sArr[s + 2], sArr[s + 3]))
    modifies dArr
    ensures r.Failure? ==> r.error == IndexOutOfBounds && !ok
    ensures r.Success? ==> r.value.0 == (if d + 3 <= dArr.Length then d + 3 else dArr.Length)
    ensures ok ==> r.Success? && r.value.1 == s + 4 && dArr[..r.value.0] == want[..r.value.0]
  {
    var assembled := AssembleGroup(sArr, s);
    if assembled.Failure? {
      return Failure(assembled.error);
    }
    var i := assembled.value.0;
    var next := AddBytes(dArr, d, i);
    if ok {
      GroupCut(want, d, next, Bytes(i));
      PrefixExtend(dArr[..], want, d, next);
    }
    return Success((next, assembled.value.1));
  }

  /** Agreeing up to d and from d to d2 is agreeing up to d2. */
  lemma PrefixExtend(a: seq<byte>, b: seq<byte>, d: nat, d2: nat)
    requires d <= d2 <= |a| && d2 <= |b| && a[..d] == b[..d] && a[d..d2] == b[d..d2]
    ensures a[..d2] == b[..d2]
  {
    assert a[..d2] == a[..d] + a[d..d2];
    assert b[..d2] == b[..d] + b[d..d2];
  }

  /** The bytes of a group, cut at d2, are the wanted ones there too. */
  lemma GroupCut(want: seq<byte>, d: nat, d2: nat, b: seq<byte>)
    requires d + 3 <= |want| && want[d..d + 3] == b && d <= d2 <= d + 3
    ensures want[d..d2] == b[..d2 - d]
  {
  }

  /**
   * Decodes sLen characters of sArr from offset: None when sLen is not a
   * multiple of four; otherwise an array of `(sLen * 6 >> 3) - pad` bytes,
   * filled group by group, the characters IA rejects skipped.
   */
  method Decode(sArr: seq<byte>, offset: int, sLen: int) returns (r: Result<Option<seq<byte>>>)
    ensures r == Success(None) <==> JavaRem(sLen, 4) != 0
    ensures r.Failure? ==> r.error == IndexOutOfBounds || r.error == NegativeArraySize
    ensures sLen == 0 ==> r == Success(Some([]))
    ensures r.Success? && r.value.Some? ==> 0 <= sLen && |r.value.value| <= sLen / 4 * 3
    ensures InBounds(sArr, offset, sLen) && WellFormed(sArr[offset..offset + sLen]) ==>
      r == Success(Some(DecodeRef(sArr[offset..offset + sLen])))
  {
    if JavaRem(sLen, 4) != 0 {
      return Success(None);
    }
    RemZero(sLen);
    var scan := ScanPads(sArr, offset, sLen);
    if scan.Failure? {
      return Failure(scan.error);
    }
    var bytes := DecodeBody(sArr, offset, sLen, scan.value);
    if bytes.Failure? {
      return Failure(bytes.error);
    }
    return Success(Some(bytes.value));
  }

  /** The rest of decode once the pad count is known: the array's length, then its bytes. */
  method DecodeBody(sArr: seq<byte>, offset: int, sLen: int, pad: int) returns (r: Result<seq<byte>>)
    requires sLen % 4 == 0 && 0 <= pad && (sLen <= 1 ==> pad == 0)
    requires InBounds(sArr, offset, sLen) && WellFormed(sArr[offset..offset + sLen]) ==> pad == TrailingPads(sArr[offset..offset + sLen])
    ensures r.Failure? ==> r.error == IndexOutOfBounds || r.error == NegativeArraySize
    ensures sLen == 0 ==> r == Success([])
    ensures r.Success? ==> 0 <= sLen && |r.value| <= sLen / 4 * 3
    ensures InBounds(sArr, offset, sLen) && WellFormed(sArr[offset..offset + sLen]) ==>
      r == Success(DecodeRef(sArr[offset..offset + sLen]))
  {
    var len := DecodedLength(sLen, pad);
    if len < 0 {
      return Failure(NegativeArraySize);
    }
    LengthFacts(sLen, pad, len);
    if InBounds(sArr, offset, sLen) && WellFormed(sArr[offset..offset + sLen]) {
      RefLength(sArr[offset..offset + sLen], len);
    }
    r := DecodeGroups(sArr, offset, sLen, len);
  }

  /** An array length decode accepts: from a length of at least zero, at most three bytes per four characters. */
  lemma LengthFacts(sLen: int, pad: int, len: int)
    requires sLen % 4 == 0 && 0 <= pad && len == DecodedLength(sLen, pad) && 0 <= len
    ensures 0 <= sLen && len <= sLen / 4 * 3 && (sLen == 0 ==> len == 0)
  {
  }

  /**
   * The loops of decode: len bytes, three from each group of four
   * characters from offset on, the characters IA rejects skipped.  For a
   * well-formed encoding they are the first len bytes of its groups.
   */
  method DecodeGroups(sArr: seq<byte>, offset: int, sLen: int, len: int) returns (r: Result<seq<byte>>)
    requires 0 <= len
    ensures r.Failure? ==> r.error == IndexOutOfBounds
    ensures r.Success? ==> |r.value| == len
    ensures len == 0 ==> r == Success([])
    ensures InBounds(sArr, offset, sLen) && WellFormed(sArr[offset..offset + sLen]) && len <= sLen / 4 * 3 ==>
      len <= |Groups(sArr[offset..offset + sLen])| && r == Success(Groups(sArr[offset..offset + sLen])[..len])
  {
    var dArr := new byte[len];
    ghost var wf := InBounds(sArr, offset, sLen) && WellFormed(sArr[offset..offset + sLen]) && len <= sLen / 4 * 3;
    ghost var want := if wf then Groups(sArr[offset..offset + sLen]) else [];
    if wf {
      GroupsLength(sArr[offset..offset + sLen]);
    }
    var s := offset;
    var d := 0;
    ghost var g := 0;
    while d < len
      invariant 0 <= d <= len && dArr.Length == len
      invariant wf ==> len <= |want| && dArr[..d] == want[..d]
      invariant wf && d < len ==> d == 3 * g && s == offset + 4 * g
      decreases len - d
    {
      if wf {
        NextGroup(sArr, offset, sLen, g, len, s, want, d);
      }
      var step := DecodeStep(sArr, dArr, s, d, want, wf);
      if step.Failure? {
        return Failure(step.error);
      }
      d := step.value.0;
      s := step.value.1;
      g := g + 1;
    }
    if wf {
      assert dArr[..] == dArr[..len];
    }
    return Success(dArr[..]);
  }


  // ---------------------------------------------------------------------
  // decodeFast
  // ---------------------------------------------------------------------

  /** Every byte of an encoding is 7-bit ASCII. */
  lemma SymbolIsAscii(b: byte)
    requires IsSymbolOrPad(b)
    ensures b < 0x80
  {
  }

  /**
   * decodeFast indexes IA with the byte itself, `IA[sArr[k]]`: the n bytes
   * from k exist and none is 0x80 or above, which would be a negative index.
   */
  predicate Readable(sArr: seq<byte>, k: int, n: int)
  {
    0 <= k && 0 <= n && k + n <= |sArr| && forall j :: k <= j < k + n ==> sArr[j] < 0x80
  }

  /** A byte decodeFast trims: IA maps it to -1. */
  predicate Junk(b: byte)
  {
    !NonNegative(IA(b))
  }

  /**
   * sArr is a well-formed encoding sArr[a..b], with only bytes that are not
   * symbols or '=' around it, and no "\r" at index 76 that decodeFast would
   * take for a line separator.
   */
  predicate Framed(sArr: seq<byte>, a: int, b: int)
  {
    0 <= a < b <= |sArr|
    && (forall k :: 0 <= k < a ==> Junk(sArr[k]))
    && (forall k :: b <= k < |sArr| ==> Junk(sArr[k]))
    && WellFormed(sArr[a..b])
    && (|sArr| > 76 ==> sArr[76] != 13)
  }

  /** The trim from the start: sIx moves past the bytes IA maps to -1, stopping at the last index. */
  method TrimFront(sArr: seq<byte>) returns (sIx: int)
    requires 0 < |sArr|
    ensures 0 <= sIx < |sArr|
    ensures forall k :: 0 <= k < sIx ==> Junk(sArr[k])
    ensures sIx < |sArr| - 1 ==> !Junk(sArr[sIx])
  {
    sIx := 0;
    while sIx < |sArr| - 1 && Junk(sArr[sIx])
      invariant 0 <= sIx < |sArr|
      invariant forall k :: 0 <= k < sIx ==> Junk(sArr[k])
    {
      sIx := sIx + 1;
    }
  }

  /** The trim from the end: eIx moves back past the bytes IA maps to -1, stopping at 0. */
  method TrimBack(sArr: seq<byte>) returns (eIx: int)
    requires 0 < |sArr|
    ensures 0 <= eIx < |sArr|
    ensures forall k :: eIx < k < |sArr| ==> Junk(sArr[k])
    ensures eIx > 0 ==> !Junk(sArr[eIx])
  {
    eIx := |sArr| - 1;
    while eIx > 0 && Junk(sArr[eIx])
      invariant 0 <= eIx < |sArr|
      invariant forall k :: eIx < k < |sArr| ==> Junk(sArr[k])
    {
      eIx := eIx - 1;
    }
  }

  /** Around a framed encoding the trims stop at its first and its last byte. */
  lemma TrimsFindFrame(sArr: seq<byte>, a: int, b: int, sIx: int, eIx: int)
    requires Framed(sArr, a, b)
    requires 0 <= sIx < |sArr| && 0 <= eIx < |sArr|
    requires forall k :: 0 <= k < sIx ==> Junk(sArr[k])
    requires sIx < |sArr| - 1 ==> !Junk(sArr[sIx])
    requires forall k :: eIx < k < |sArr| ==> Junk(sArr[k])
    requires eIx > 0 ==> !Junk(sArr[eIx])
    ensures sIx == a && eIx == b - 1
  {
    var core := sArr[a..b];
    assert core[0] == sArr[a] && core[|core| - 1] == sArr[b - 1];
    IARange(core[0]);
    IARange(core[|core| - 1]);
    assert !Junk(sArr[b - 1]);
    assert !Junk(sArr[a]);
  }

  /** The group decodeFast reads from k, `IA[sArr[k]] << 18 | ... | IA[sArr[k + 3]]`. */
  function FastQuad(sArr: seq<byte>, k: int): Result<bv32>
  {
    if Readable(sArr, k, 4) then Success(Value(sArr[k], sArr[k + 1], sArr[k + 2], sArr[k + 3]))
    else Failure(IndexOutOfBounds)
  }

  /** The four bytes of a group inside a readable run are readable. */
  lemma ReadableGroup(sArr: seq<byte>, k: int, n: int, g: nat)
    requires Readable(sArr, k, n) && 4 * g + 4 <= n
    ensures FastQuad(sArr, k + 4 * g) == Success(Value(sArr[k + 4 * g], sArr[k + 4 * g + 1], sArr[k + 4 * g + 2], sArr[k + 4 * g + 3]))
  {
    assert Readable(sArr, k + 4 * g, 4);
  }

  /** In a readable run of whole groups, group g is read as it is and gives bytes 3g to 3g + 2 of Groups. */
  lemma FastGroupAt(sArr: seq<byte>, sIx0: int, n: int, groups: nat, g: nat, s: int, want: seq<byte>, d: int)
    requires 4 * groups <= n && InBounds(sArr, sIx0, n) && Readable(sArr, sIx0, 4 * groups)
    requires g < groups && s == sIx0 + 4 * g && d == 3 * g && want == Groups(sArr[sIx0..sIx0 + n])
    ensures FastQuad(sArr, s).Success? && d + 3 <= |want| && want[d..d + 3] == Bytes(FastQuad(sArr, s).value)
  {
    ReadableGroup(sArr, sIx0, 4 * groups, g);
    GroupBytesAt(sArr, sIx0, n, g, s);
  }

  method AddThreeBytes(dArr: array<byte>, d: int, i: bv32) returns (next: int)
    requires 0 <= d && d + 3 <= dArr.Length
    modifies dArr
    ensures next == d + 3
    ensures dArr[..d] == old(dArr[..d]) && dArr[next..] == old(dArr[next..])
    ensures dArr[d..next] == Bytes(i)
  {
    ghost var b := Bytes(i);
    next := d;
    dArr[next] := Low8(i >> 16);
    next := next + 1;
    dArr[next] := Low8(i >> 8);
    next := next + 1;
    dArr[next] := Low8(i);
    next := next + 1;
    assert dArr[d..next] == [b[0], b[1], b[2]];
  }

  /** One pass of decodeFast's main loop: the group of four at s, its three bytes stored from d. */
  method FastStep(sArr: seq<byte>, dArr: array<byte>, s: int, d: int, ghost want: seq<byte>, ghost ok: bool)
    returns (r: Result<int>)
    requires 0 <= d && d + 3 <= dArr.Length
    requires ok ==> d + 3 <= |want| && dArr[..d] == want[..d] && FastQuad(sArr, s).Success? && want[d..d + 3] == Bytes(FastQuad(sArr, s).value)
    modifies dArr
    ensures r.Failure? ==> r.error == IndexOutOfBounds && !ok
    ensures r.Success? ==> r.value == d + 3
    ensures ok ==> r.Success? && dArr[..d + 3] == want[..d + 3]
  {
    var q := FastQuad(sArr, s);
    if q.Failure? {
      return Failure(q.error);
    }
    var next := AddThreeBytes(dArr, d, q.value);
    if ok {
      PrefixExtend(dArr[..], want, d, next);
    }
    return Success(next);
  }

  /** Whole groups of four inside n characters decode to bytes inside Groups. */
  lemma GroupCountBound(n: int, groups: nat)
    requires 4 * groups <= n
    ensures 3 * groups <= n / 4 * 3
  {
  }

  /**
   * The main loop of decodeFast: eLen / 3 groups of four from sIx0, three
   * bytes each into dArr, skipping two bytes after every 19 groups when
   * there are line separators; returns the index after them.  Without
   * separators, over a readable run inside the n bytes from sIx0, the bytes
   * are those of Groups.
   */
  method FastGroups(sArr: seq<byte>, dArr: array<byte>, sIx0: int, eLen: int, sepCnt: int, ghost groups: nat, ghost n: int)
    returns (r: Result<int>)
    requires eLen == 3 * groups <= dArr.Length
    modifies dArr
    ensures r.Failure? ==> r.error == IndexOutOfBounds
    ensures sepCnt <= 0 && 4 * groups <= n && InBounds(sArr, sIx0, n) && Readable(sArr, sIx0, 4 * groups) ==>
      r == Success(sIx0 + 4 * groups) && eLen <= |Groups(sArr[sIx0..sIx0 + n])| && dArr[..eLen] == Groups(sArr[sIx0..sIx0 + n])[..eLen]
  {
    ghost var plain := sepCnt <= 0 && 4 * groups <= n && InBounds(sArr, sIx0, n) && Readable(sArr, sIx0, 4 * groups);
    ghost var want := if plain then Groups(sArr[sIx0..sIx0 + n]) else [];
    if plain {
      GroupsLength(sArr[sIx0..sIx0 + n]);
      GroupCountBound(n, groups);
    }
    var sIx := sIx0;
    var d := 0;
    var cc := 0;
    ghost var g := 0;
    while d < eLen
      invariant 0 <= d <= eLen && d == 3 * g
      invariant plain ==> sIx == sIx0 + 4 * g && dArr[..d] == want[..d]
      decreases eLen - d
    {
      if plain {
        FastGroupAt(sArr, sIx0, n, groups, g, sIx, want, d);
      }
      var step := FastStep(sArr, dArr, sIx, d, want, plain);
      if step.Failure? {
        return Failure(step.error);
      }
      sIx := sIx + 4;
      d := step.value;
      if sepCnt > 0 {
        cc := cc + 1;
        if cc == 19 {
          sIx := sIx + 2;
          cc := 0;
        }
      }
      g := g + 1;
    }
    if plain {
      assert g == groups;
    }
    return Success(sIx);
  }

  /** One character of decodeFast's tail loop, the shift distance masked as Java masks it. */
  lemma TailDigitStep(sArr: seq<byte>, s0: nat, j: bv32, k: int, i: bv32, s: int)
    requires s0 + 4 <= |sArr| && Same(j, k) && j < 4 && i == Partial(sArr, s0, j) && s == s0 + k
    ensures 0 <= s < |sArr| && Same(j + 1, k + 1)
    ensures i | (IA(sArr[s]) << ((18 - j * 6) & 31)) == Partial(sArr, s0, j + 1)
  {
    SameStep(j, k);
    TailShift(j);
    PartialStep(sArr, s0, j, k, i);
  }

  /** For a shift distance of this loop, Java's masking to five bits changes nothing. */
  lemma TailShift(j: bv32)
    requires j < 4
    ensures (18 - j * 6) & 31 == 18 - j * 6
  {
  }

  /**
   * The tail loop of decodeFast: from s0 up to last, each byte's IA value
   * shifted by `18 - j * 6`, the distance masked to five bits as Java does.
   * For up to four readable bytes of a group it is their partial value.
   */
  method FastTail(sArr: seq<byte>, s0: int, last: int) returns (r: Result<bv32>)
    ensures r.Failure? ==> r.error == IndexOutOfBounds
    ensures 0 <= s0 && s0 + 4 <= |sArr| && s0 <= last + 1 <= s0 + 4 && Readable(sArr, s0, last + 1 - s0) ==>
      r == Success(Partial(sArr, s0, Count(last + 1 - s0)))
  {
    ghost var plain := 0 <= s0 && s0 + 4 <= |sArr| && s0 <= last + 1 <= s0 + 4 && Readable(sArr, s0, last + 1 - s0);
    var i: bv32 := 0;
    var j: bv32 := 0;
    ghost var k := 0;
    var s := s0;
    while s <= last
      invariant s0 <= s
      invariant plain ==> s <= last + 1 && s == s0 + k && Same(j, k) && i == Partial(sArr, s0, j)
      decreases last + 1 - s
    {
      if !Readable(sArr, s, 1) {
        return Failure(IndexOutOfBounds);
      }
      if plain {
        TailDigitStep(sArr, s0, j, k, i, s);
      }
      i := i | (IA(sArr[s]) << ((18 - j * 6) & 31));
      s := s + 1;
      j := j + 1;
      k := k + 1;
    }
    if plain {
      SameCount(j, k);
    }
    return Success(i);
  }


  /**
   * The last loop of decodeFast: the bytes `(byte) (i >> r)` for r = 16,
   * 8, ... go to dArr from d0 to its end, which is at most two bytes away.
   */
  method AddTail(dArr: array<byte>, d0: int, i: bv32)
    requires 0 <= d0 <= dArr.Length <= d0 + 2
    modifies dArr
    ensures dArr[..d0] == old(dArr[..d0])
    ensures dArr[d0..] == Bytes(i)[..dArr.Length - d0]
  {
    ghost var b := Bytes(i);
    var d := d0;
    var r: bv32 := 16;
    while d < dArr.Length
      invariant d0 <= d <= dArr.Length
      invariant d == d0 ==> r == 16
      invariant d == d0 + 1 ==> r == 8
      invariant dArr[..d0] == old(dArr[..d0])
      invariant dArr[d0..d] == b[..d - d0]
    {
      ghost var k := d - d0;
      TailByte(i, r, k);
      var v := Low8(i >> r);
      assert v == b[k];
      dArr[d] := v;
      d := d + 1;
      r := r - 8;
      AppendSlice(dArr[..], d0, d, b);
    }
  }

  /** A last group with one '=' is worth its first three characters. */
  lemma PartialOnePad(sArr: seq<byte>, s0: nat)
    requires s0 + 4 <= |sArr| && sArr[s0 + 3] == PAD
    ensures Partial(sArr, s0, 3) == Value(sArr[s0], sArr[s0 + 1], sArr[s0 + 2], sArr[s0 + 3])
  {
  }

  /** A last group with two '=' is worth its first two characters. */
  lemma PartialTwoPads(sArr: seq<byte>, s0: nat)
    requires s0 + 4 <= |sArr| && sArr[s0 + 2] == PAD && sArr[s0 + 3] == PAD
    ensures Partial(sArr, s0, 2) == Value(sArr[s0], sArr[s0 + 1], sArr[s0 + 2], sArr[s0 + 3])
  {
  }

  /** Byte k of a tail is the group's value shifted right by 16 - 8k. */
  lemma TailByte(i: bv32, r: bv32, k: int)
    requires (k == 0 && r == 16) || (k == 1 && r == 8)
    ensures Low8(i >> r) == Bytes(i)[k]
  {
  }

  /** A slice grows by one element when its last element matches. */
  lemma AppendSlice(a: seq<byte>, d0: int, d: int, b: seq<byte>)
    requires 0 <= d0 < d <= |a| && d - d0 <= |b|
    requires a[d0..d - 1] == b[..d - 1 - d0] && a[d - 1] == b[d - 1 - d0]
    ensures a[d0..d] == b[..d - d0]
  {
    assert a[d0..d] == a[d0..d - 1] + [a[d - 1]];
    assert b[..d - d0] == b[..d - 1 - d0] + [b[d - 1 - d0]];
  }

  /** The bytes of a well-formed encoding are all below 0x80. */
  lemma WellFormedReadable(sArr: seq<byte>, a: int, b: int)
    requires 0 <= a <= b <= |sArr| && WellFormed(sArr[a..b])
    ensures Readable(sArr, a, b - a)
  {
    var core := sArr[a..b];
    forall j | a <= j < b
      ensures sArr[j] < 0x80
    {
      assert sArr[j] == core[j - a];
      if j - a < |core| - 2 {
        IARange(core[j - a]);
      }
      SymbolIsAscii(core[j - a]);
    }
  }

  /** The '=' count decodeFast reads at eIx is that of a framed encoding ending there. */
  lemma FramedPads(sArr: seq<byte>, sIx: int, eIx: int)
    requires Framed(sArr, sIx, eIx + 1)
    ensures eIx >= 1 && eIx - 1 >= sIx
    ensures TrailingPads(sArr[sIx..eIx + 1]) == if sArr[eIx] == PAD then (if sArr[eIx - 1] == PAD then 2 else 1) else 0
  {
    var core := sArr[sIx..eIx + 1];
    assert |core| >= 4;
    assert core[|core| - 1] == sArr[eIx] && core[|core| - 2] == sArr[eIx - 1];
  }

  /** How many whole groups the main loop of decodeFast takes from a framed encoding of L characters. */
  lemma FastCounts(L: int, pad: int, len: int, groups: int)
    requires L % 4 == 0 && L >= 4 && 0 <= pad <= 2 && len == L / 4 * 3 - pad && groups == len / 3
    ensures 0 <= groups && 4 * groups <= L && 3 * groups <= len <= 3 * groups + 2
    ensures pad == 0 ==> 3 * groups == len && 4 * groups == L
    ensures pad > 0 ==> 4 * groups + 4 == L && len == 3 * groups + 3 - pad
  {
  }

  /**
   * A run of L characters from sIx that decodeFast's loops read as they
   * stand: whole groups of bytes below 0x80, the last pad of them '=', and
   * len the number of bytes they stand for.
   */
  predicate FastReady(sArr: seq<byte>, sIx: int, L: int, pad: int, len: int)
  {
    InBounds(sArr, sIx, L) && L % 4 == 0 && L >= 4 && Readable(sArr, sIx, L)
    && 0 <= pad <= 2 && (pad >= 1 ==> sArr[sIx + L - 1] == PAD) && (pad == 2 ==> sArr[sIx + L - 2] == PAD)
    && len == L / 4 * 3 - pad
  }

  /** A non-empty well-formed encoding has at least one group. */
  lemma WellFormedLength(s: seq<byte>)
    requires WellFormed(s) && |s| > 0
    ensures |s| >= 4
  {
  }

  /** A well-formed encoding from sIx to eIx, with len from decodeFast's formula, is such a run. */
  lemma FramedReady(sArr: seq<byte>, sIx: int, eIx: int, pad: int, L: int, len: int)
    requires 0 <= sIx < eIx + 1 <= |sArr| && WellFormed(sArr[sIx..eIx + 1]) && pad == TrailingPads(sArr[sIx..eIx + 1])
    requires L == eIx + 1 - sIx && len == DecodedLength(L, pad)
    ensures len >= 0 && FastReady(sArr, sIx, eIx + 1 - sIx, pad, len)
  {
    var core := sArr[sIx..eIx + 1];
    WellFormedLength(core);
    WellFormedReadable(sArr, sIx, eIx + 1);
    PadsAtEnd(sArr, sIx, eIx, pad, L);
  }

  /** decodeFast's length for a well-formed encoding is that of what it stands for. */
  lemma RefLength(s: seq<byte>, len: int)
    requires WellFormed(s) && len == DecodedLength(|s|, TrailingPads(s))
    ensures len <= |Groups(s)| && DecodeRef(s) == Groups(s)[..len]
  {
    GroupsLength(s);
  }

  /** The '=' at the end of the run from sIx to eIx, as indices into sArr. */
  lemma PadsAtEnd(sArr: seq<byte>, sIx: int, eIx: int, pad: int, L: int)
    requires 0 <= sIx && eIx < |sArr| && L == eIx + 1 - sIx && L >= 2 && pad == TrailingPads(sArr[sIx..eIx + 1])
    ensures 0 <= pad <= 2 && (pad >= 1 ==> sArr[sIx + L - 1] == PAD) && (pad == 2 ==> sArr[sIx + L - 2] == PAD)
  {
    var core := sArr[sIx..eIx + 1];
    assert core[|core| - 1] == sArr[sIx + L - 1];
    assert core[|core| - 2] == sArr[sIx + L - 2];
  }

  /** Before the tail step: the last group of such a run, less its '=', is readable. */
  lemma TailReadable(sArr: seq<byte>, sIx: int, L: int, pad: int, len: int, groups: nat, s: int, last: int)
    requires FastReady(sArr, sIx, L, pad, len) && pad > 0 && 4 * groups + 4 == L
    requires s == sIx + 4 * groups && last == sIx + L - 1 - pad
    ensures 0 <= s && s + 4 <= |sArr| && s <= last + 1 <= s + 4 && Readable(sArr, s, last + 1 - s)
    ensures sArr[s + 3] == PAD && (pad == 2 ==> sArr[s + 2] == PAD)
  {
  }

  /** After the tail step: the partial value of the last group has its three bytes, the last ones of Groups. */
  lemma TailGroup(sArr: seq<byte>, sIx: int, L: int, pad: int, len: int, groups: nat, s: int, last: int, t: bv32)
    requires InBounds(sArr, sIx, L) && 1 <= pad <= 2 && 4 * groups + 4 == L
    requires s == sIx + 4 * groups && last == sIx + L - 1 - pad
    requires sArr[s + 3] == PAD && (pad == 2 ==> sArr[s + 2] == PAD)
    requires t == Partial(sArr, s, Count(last + 1 - s))
    ensures 3 * groups + 3 <= |Groups(sArr[sIx..sIx + L])|
    ensures Groups(sArr[sIx..sIx + L])[3 * groups..3 * groups + 3] == Bytes(t)
  {
    var s0 := sIx + 4 * groups;
    assert last + 1 - s == 4 - pad;
    if pad == 1 {
      PartialOnePad(sArr, s0);
    } else {
      PartialTwoPads(sArr, s0);
    }
    GroupBytesAt(sArr, sIx, L, groups, s0);
  }

  /** Whole groups up to eLen, then the first bytes of the next group: the wanted bytes up to len. */
  lemma TailJoin(a: seq<byte>, want: seq<byte>, eLen: nat, len: nat, b: seq<byte>)
    requires |a| == len && eLen <= len <= eLen + 3 && eLen + 3 <= |want|
    requires want[eLen..eLen + 3] == b && a[..eLen] == want[..eLen] && a[eLen..] == b[..len - eLen]
    ensures a == want[..len]
  {
    assert a == a[..eLen] + a[eLen..];
    assert want[..len] == want[..eLen] + want[eLen..len];
  }

  /** The tail step of decodeFast: the partial value of the bytes from s to last, its first bytes into dArr from d0 on. */
  method FinishTail(sArr: seq<byte>, dArr: array<byte>, s: int, last: int, d0: int) returns (r: Result<bv32>)
    requires 0 <= d0 <= dArr.Length <= d0 + 2
    modifies dArr
    ensures r.Failure? ==> r.error == IndexOutOfBounds
    ensures r.Success? ==> dArr[..d0] == old(dArr[..d0]) && dArr[d0..] == Bytes(r.value)[..dArr.Length - d0]
    ensures 0 <= s && s + 4 <= |sArr| && s <= last + 1 <= s + 4 && Readable(sArr, s, last + 1 - s) ==>
      r == Success(Partial(sArr, s, Count(last + 1 - s)))
  {
    var t := FastTail(sArr, s, last);
    if t.Failure? {
      return Failure(t.error);
    }
    AddTail(dArr, d0, t.value);
    return Success(t.value);
  }

  /** The run of L bytes from sIx is the run from sIx up to e. */
  lemma SameRun(sArr: seq<byte>, sIx: int, L: int, e: int)
    requires 0 <= sIx <= e <= |sArr| && sIx + L == e
    ensures sArr[sIx..sIx + L] == sArr[sIx..e]
  {
  }

  /**
   * The bytes decodeFast fills in, put together: the groups the main loop
   * wrote, then the first bytes of the tail's partial value.
   */
  lemma FillResult(a: seq<byte>, sArr: seq<byte>, sIx: int, eIx: int, L: int, pad: int, len: int, groups: nat, eLen: int, s: int, t: bv32)
    requires L == eIx + 1 - sIx && InBounds(sArr, sIx, L) && eLen == 3 * groups && eLen <= len <= eLen + 2
    requires |a| == len && s == sIx + 4 * groups
    requires eLen <= |Groups(sArr[sIx..sIx + L])| && a[..eLen] == Groups(sArr[sIx..sIx + L])[..eLen]
    requires eLen < len ==> 4 * groups + 4 == L && 1 <= pad <= 2 && len == 3 * groups + 3 - pad
    requires eLen < len ==> sArr[s + 3] == PAD && (pad == 2 ==> sArr[s + 2] == PAD)
    requires eLen < len ==> t == Partial(sArr, s, Count(eIx - pad + 1 - s)) && a[eLen..] == Bytes(t)[..len - eLen]
    ensures len <= |Groups(sArr[sIx..eIx + 1])| && a == Groups(sArr[sIx..eIx + 1])[..len]
  {
    SameRun(sArr, sIx, L, eIx + 1);
    var want := Groups(sArr[sIx..sIx + L]);
    if eLen < len {
      TailGroup(sArr, sIx, L, pad, len, groups, s, eIx - pad, t);
      TailJoin(a, want, eLen, len, Bytes(t));
    } else {
      assert a == a[..eLen];
    }
  }

  /**
   * decodeFast after the trims and the lengths: the array of len bytes,
   * filled by the main loop and the tail.  Over such a run from sIx to eIx,
   * without separators, it holds the run's groups up to len.
   */
  method FastFill(sArr: seq<byte>, sIx: int, eIx: int, pad: int, sepCnt: int, len: int) returns (r: Result<seq<byte>>)
    requires len >= 0
    ensures r.Failure? ==> r.error == IndexOutOfBounds
    ensures r.Success? ==> |r.value| == len
    ensures sepCnt == 0 && FastReady(sArr, sIx, eIx + 1 - sIx, pad, len) ==>
      len <= |Groups(sArr[sIx..eIx + 1])| && r == Success(Groups(sArr[sIx..eIx + 1])[..len])
  {
    ghost var L := eIx + 1 - sIx;
    ghost var plain := sepCnt == 0 && FastReady(sArr, sIx, L, pad, len);
    var dArr := new byte[len];
    var eLen := (len / 3) * 3;
    ghost var groups := len / 3;
    if plain {
      FastCounts(L, pad, len, groups);
    }
    var res := FastGroups(sArr, dArr, sIx, eLen, sepCnt, groups, L);
    if res.Failure? {
      return Failure(res.error);
    }
    var last := FastLast(sArr, dArr, sIx, eIx, pad, eLen, res.value, L, groups, plain);
    if last.Failure? {
      return Failure(last.error);
    }
    return Success(dArr[..]);
  }

  /**
   * decodeFast after its main loop, d at eLen: when bytes are still
   * missing, the last group's characters up to the pad decoded into them.
   */
  method FastLast(sArr: seq<byte>, dArr: array<byte>, sIx: int, eIx: int, pad: int, eLen: int, s: int, ghost L: int, ghost groups: nat, ghost plain: bool)
    returns (r: Result<()>)
    requires 0 <= eLen <= dArr.Length <= eLen + 2 && L == eIx + 1 - sIx
    requires plain ==> FastReady(sArr, sIx, L, pad, dArr.Length) && eLen == 3 * groups && groups == dArr.Length / 3 && s == sIx + 4 * groups
    requires plain ==> eLen <= |Groups(sArr[sIx..sIx + L])| && dArr[..eLen] == Groups(sArr[sIx..sIx + L])[..eLen]
    modifies dArr
    ensures r.Failure? ==> r.error == IndexOutOfBounds
    ensures plain ==> r.Success? && dArr.Length <= |Groups(sArr[sIx..eIx + 1])| && dArr[..] == Groups(sArr[sIx..eIx + 1])[..dArr.Length]
  {
    ghost var len := dArr.Length;
    ghost var t: bv32 := 0;
    var d := eLen;
    if d < dArr.Length {
      if plain {
        FastCounts(L, pad, len, groups);
        TailReadable(sArr, sIx, L, pad, len, groups, s, eIx - pad);
      }
      var tail := FinishTail(sArr, dArr, s, eIx - pad, d);
      if tail.Failure? {
        return Failure(tail.error);
      }
      t := tail.value;
    }
    if plain {
      FillResult(dArr[..], sArr, sIx, eIx, L, pad, len, groups, eLen, s, t);
    }
    return Success(());
  }


  /**
   * decodeFast after the trims: counts the '=', takes
   * `(sArr[76] == '\r' ? cCnt / 78 : 0) << 1` bytes for line separators
   * when there are more than 76, and decodes the rest.
   */
  method DecodeTrimmed(sArr: seq<byte>, sIx: int, eIx: int) returns (r: Result<seq<byte>>)
    requires 0 <= sIx < |sArr| && 0 <= eIx < |sArr|
    ensures r.Failure? ==> r.error == IndexOutOfBounds || r.error == NegativeArraySize
    ensures Framed(sArr, sIx, eIx + 1) ==> r == Success(DecodeRef(sArr[sIx..eIx + 1]))
  {
    ghost var framed := Framed(sArr, sIx, eIx + 1);
    if framed {
      FramedPads(sArr, sIx, eIx);
    }
    var pad := 0;
    if sArr[eIx] == PAD {
      if eIx - 1 < 0 {
        return Failure(IndexOutOfBounds);
      }
      pad := if sArr[eIx - 1] == PAD then 2 else 1;
    }
    var sLen := |sArr|;
    var cCnt := eIx - sIx + 1;
    var sepCnt := if sLen > 76 then (if sArr[76] == 13 then JavaDiv(cCnt, 78) else 0) * 2 else 0;
    var len := DecodedLength(cCnt - sepCnt, pad);
    if framed {
      assert sepCnt == 0;
      FramedReady(sArr, sIx, eIx, pad, cCnt - sepCnt, len);
      RefLength(sArr[sIx..eIx + 1], len);
    }
    if len < 0 {
      return Failure(NegativeArraySize);
    }
    r := FastFill(sArr, sIx, eIx, pad, sepCnt, len);
  }

  /**
   * decodeFast: trims the bytes IA rejects from both ends and decodes what
   * is left.  For a well-formed encoding with only such bytes around it and
   * no line separators, the result is what the encoding stands for.
   */
  method DecodeFast(sArr: seq<byte>) returns (r: Result<seq<byte>>)
    ensures |sArr| == 0 ==> r == Success([])
    ensures r.Failure? ==> r.error == IndexOutOfBounds || r.error == NegativeArraySize
    ensures forall a, b :: Framed(sArr, a, b) ==> r == Success(DecodeRef(sArr[a..b]))
  {
    if |sArr| == 0 {
      return Success([]);
    }
    var sIx := TrimFront(sArr);
    var eIx := TrimBack(sArr);
    r := DecodeTrimmed(sArr, sIx, eIx);
    forall a, b | Framed(sArr, a, b)
      ensures r == Success(DecodeRef(sArr[a..b]))
    {
      TrimsFindFrame(sArr, a, b, sIx, eIx);
    }
  }

}
