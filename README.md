# jpaw enum sets, Base64 and exception codes in Dafny

This project models five classes of jpaw, the utility library behind the
bonaparte/t9t framework. It proves what their methods do.

- **The fixed-width bitmap enum sets.** `AbstractShortEnumSet` stores a set of
  enum ordinals as the bits of a Java `short` (ordinals 0 to 14).
  `AbstractLongEnumSet` uses a `long` (ordinals 0 to 62). Both are one class,
  `FixedWidthEnumSet.BitmapEnumSet`, parameterised by `MAX_TOKENS` (15 or 63)
  and by the subclass's `getMaxOrdinal()`.
  - The field `bitmap` holds the scalar's bit pattern read unsigned.
  - The ghost function `Elements()` is the set of ordinals the bits stand for.
  - Covered: `add`, `remove` and `clear` with the freeze flag; `size`,
    `isEmpty` and `contains`; the in-place set algebra; `bitmapFullSet` and
    `complement`; `hashCode` and `equals`; the text form
    `asStringMap`/`fromStringMap` (module `StringMap`); `bitmapOf`; and the
    iterator that clears its copy's lowest bit on every `next`.
- **`AbstractStringEnumSet`** (module `StringEnumSet`) keeps one
  one-character token per element in a string.
  - `assign` is clear-then-add in a loop.
  - Its iterator walks the string and resolves each character by a linear
    search over the enum's values.
- **`Base64`**: the codec of section 6.8 of RFC 2045, without line breaks.
  - The static tables `CA`/`IA`.
  - `encodeToByte`, which appends to a growable buffer.
  - `decode` and `decodeFast`, which fill a preallocated array in nested loops.
  - Bytes and ints are `bv8`/`bv32`, so shifts, masks and casts are Java's.
  - The reference functions `Encode` and `DecodeRef` state what the loops
    compute. `RoundTrip` proves that `DecodeRef(Encode(x)) == x`.
- **`ApplicationException`**:
  - the classification arithmetic (`getClassification`, `isOk`, `isFuture`);
  - the range table (`registerRange`, `getRangeInfoForExceptionCode`);
  - the code table with its duplicate counter (`DuplicateCheckingMap.put`/`get`,
    `checkForDuplicates`, `codeToString`);
  - `getErrorDetails`.
  The three static maps are fields of the class `Registry`. A ghost history of
  accepted codes ties the counters to the codes put.

`Bits` defines bit patterns as natural numbers, with bitwise operations defined
bit by bit. `Wrappers` holds `Option`, `Result` (a Java exception is a
`Failure` naming its kind) and Java's truncating `/` and `%`.

## Model

| member | source | states |
|---|---|---|
| Wrappers.JavaDiv | jpaw-util/src/main/java/de/jpaw/util/ApplicationException.java:335 | Java's `/` truncates toward zero: the quotient has the dividend's sign (or is 0), and quotient times divisor lies between 0 and the dividend, less than one divisor away from it. |
| Wrappers.JavaRem | jpaw-util/src/main/java/de/jpaw/util/ApplicationException.java:147 | Java's `%`: quotient times divisor plus remainder is the dividend; the remainder has the dividend's sign and is smaller than the divisor in magnitude. |
| FixedWidthEnumSet.ShiftDistance | jpaw-enums/src/main/java/de/jpaw/enums/AbstractShortEnumSet.java:80 | The distance Java's `BIT << k` actually shifts by (the promoted `int` takes k mod 32, a `long` k mod 64) is below 64, and is k itself for every k below 32, and for the `long` set for every k below 64. |
| FixedWidthEnumSet.BitmapEnumSet.constructor | jpaw-enums/src/main/java/de/jpaw/enums/AbstractShortEnumSet.java:36-38 | A new set is unfrozen, has no elements and a clear sign bit. |
| FixedWidthEnumSet.BitmapEnumSet.FromBitmap | jpaw-enums/src/main/java/de/jpaw/enums/AbstractShortEnumSet.java:40-42 | The raw-bitmap constructor: any value of the scalar type is stored so that `getBitmap()` returns it. |
| FixedWidthEnumSet.BitmapEnumSet.Freeze | jpaw-enums/src/main/java/de/jpaw/enums/AbstractShortEnumSet.java:28-30 | After `freeze` the set is frozen. |
| FixedWidthEnumSet.BitmapEnumSet.VerifyNotFrozen | jpaw-enums/src/main/java/de/jpaw/enums/AbstractShortEnumSet.java:23-26 | Throws (FrozenInstance) exactly when the set is frozen. |
| FixedWidthEnumSet.BitmapEnumSet.GetBitmap | jpaw-enums/src/main/java/de/jpaw/enums/AbstractShortEnumSet.java:45-47 | The signed value of the scalar: in its type's range, negative exactly when the sign bit is set, and its bit pattern is the field. |
| FixedWidthEnumSet.BitmapEnumSet.Size | jpaw-enums/src/main/java/de/jpaw/enums/AbstractShortEnumSet.java:84-87 | `Long.bitCount` of the scalar widened to `long` is the number of elements, plus 64 - MAX_TOKENS when the scalar is negative (the sign bit and its copies). In AbstractLongEnumSet.java (lines 68-71): For `long`, a negative bitmap counts one more than its elements. |
| FixedWidthEnumSet.SizeCount | jpaw-enums/src/main/java/de/jpaw/enums/AbstractShortEnumSet.java:84-87 | The popcount of a sign-extended pattern is its members plus, when negative, every bit from the sign up to the new width. |
| FixedWidthEnumSet.BitmapEnumSet.IsEmpty | jpaw-enums/src/main/java/de/jpaw/enums/AbstractShortEnumSet.java:89-92 | `bitmap == 0` holds iff there are no elements and the sign bit is clear. In AbstractLongEnumSet.java (lines 73-76): The same for the `long` scalar. |
| FixedWidthEnumSet.ZeroIffNoMembers | jpaw-enums/src/main/java/de/jpaw/enums/AbstractShortEnumSet.java:89-92 | A pattern is zero iff it has no members below the sign bit and a clear sign bit. |
| FixedWidthEnumSet.BitmapEnumSet.Contains | jpaw-enums/src/main/java/de/jpaw/enums/AbstractShortEnumSet.java:94-100 | True iff the argument is an enum whose ordinal is an element; false for null, for non-enums and for every ordinal of MAX_TOKENS or more. |
| FixedWidthEnumSet.BitmapEnumSet.Add | jpaw-enums/src/main/java/de/jpaw/enums/AbstractShortEnumSet.java:102-113 | Ordinal too large (MAX_TOKENS or maxOrdinal): IllegalArgument, unchanged. Already present: false, unchanged, even when frozen. Absent and frozen: FrozenInstance, unchanged. Otherwise true, and exactly that ordinal is added, sign bit kept. In AbstractLongEnumSet.java (lines 86-97): The same four cases for the `long` scalar with MAX_TOKENS 63. |
| FixedWidthEnumSet.BitmapEnumSet.Remove | jpaw-enums/src/main/java/de/jpaw/enums/AbstractShortEnumSet.java:115-128 | Null or non-enum: false. Ordinal too large: IllegalArgument. Absent: false, even when frozen. Present and frozen: FrozenInstance. Otherwise true and exactly that ordinal is removed; the bitmap changes only in the last case. In AbstractLongEnumSet.java (lines 99-112): The same cases for the `long` scalar. |
| FixedWidthEnumSet.BitmapEnumSet.Clear | jpaw-enums/src/main/java/de/jpaw/enums/AbstractShortEnumSet.java:130-136 | An empty bitmap succeeds without the frozen check; a non-empty one throws when frozen and otherwise becomes 0; success leaves no elements. In AbstractLongEnumSet.java (lines 114-120): The same for the `long` scalar. |
| FixedWidthEnumSet.BitmapEnumSet.UnifyWith | jpaw-enums/src/main/java/de/jpaw/enums/AbstractShortEnumSet.java:150-154 | Frozen: throws before changing anything. Otherwise the bitmap is the OR, the elements are the union, and the sign is either sign. In AbstractLongEnumSet.java (lines 134-156): The four set-algebra methods of the `long` set: frozen check first, then OR/AND/AND NOT/XOR as above. |
| FixedWidthEnumSet.BitmapEnumSet.IntersectWith | jpaw-enums/src/main/java/de/jpaw/enums/AbstractShortEnumSet.java:156-160 | Frozen: throws, unchanged. Otherwise AND: the elements are the intersection and the sign is both signs. |
| FixedWidthEnumSet.BitmapEnumSet.Exclude | jpaw-enums/src/main/java/de/jpaw/enums/AbstractShortEnumSet.java:162-166 | Frozen: throws, unchanged. Otherwise AND NOT: the elements are the difference. |
| FixedWidthEnumSet.BitmapEnumSet.ExactlyOneOf | jpaw-enums/src/main/java/de/jpaw/enums/AbstractShortEnumSet.java:168-172 | Frozen: throws, unchanged. Otherwise XOR: the elements are the symmetric difference and the sign is the XOR of the signs. |
| FixedWidthEnumSet.BitmapEnumSet.BitmapFullSet | jpaw-enums/src/main/java/de/jpaw/enums/AbstractShortEnumSet.java:174-177 | The bits below the shift distance of maxOrdinal, narrowed to the scalar. For an enum that fits, exactly the ordinals below maxOrdinal, with the sign clear. |
| FixedWidthEnumSet.BitmapEnumSet.Complement | jpaw-enums/src/main/java/de/jpaw/enums/AbstractShortEnumSet.java:179-183 | Frozen: throws, unchanged. Otherwise the bitmap is `full & ~bitmap`; for an enum that fits, the elements are the ordinals below maxOrdinal that were absent, with the sign clear. In AbstractLongEnumSet.java (lines 158-167): The same for the `long` scalar. |
| FixedWidthEnumSet.BitmapEnumSet.ComplementTwice | jpaw-enums/src/main/java/de/jpaw/enums/AbstractShortEnumSet.java:175-183 | Complementing twice is the identity on every bitmap whose bits lie below maxOrdinal. |
| FixedWidthEnumSet.BitmapEnumSet.HashCode | jpaw-enums/src/main/java/de/jpaw/enums/AbstractShortEnumSet.java:138-141 | An `int`; for `short` it is the signed value of the bitmap. In AbstractLongEnumSet.java (lines 122-125): For `long` the hash folds the halves: bit i of the `int` is bit i XOR bit i + 32 of the bitmap. |
| FixedWidthEnumSet.BitmapEnumSet.Equals | jpaw-enums/src/main/java/de/jpaw/enums/AbstractShortEnumSet.java:143-148 | Equal sets are of the same class and have the same elements and the same sign bit; a null argument is never equal. |
| FixedWidthEnumSet.LongHash | jpaw-enums/src/main/java/de/jpaw/enums/AbstractLongEnumSet.java:124 | `(int)(bitmap ^ (bitmap >>> 32))` is an `int` whose bit i is bit i XOR bit i + 32. |
| FixedWidthEnumSet.LongHashBits | jpaw-enums/src/main/java/de/jpaw/enums/AbstractLongEnumSet.java:124 | The truncated XOR fits 32 bits, and its signed reading has the folded bits. |
| FixedWidthEnumSet.EqualsSpec | jpaw-enums/src/main/java/de/jpaw/enums/AbstractShortEnumSet.java:143-148 | Equal iff non-null, same class, same elements and same sign bit. Equality is symmetric, and equal sets have equal hash codes and sizes. In AbstractLongEnumSet.java (lines 127-132): The same for the `long` set. |
| FixedWidthEnumSet.BitmapEnumSet.AsStringMap | jpaw-enums/src/main/java/de/jpaw/enums/AbstractShortEnumSet.java:49-59 | The loop over the shifted copy yields one token per element and no more. fromStringMap accepts it and gives back the elements, and for a non-negative bitmap the bitmap itself. In AbstractLongEnumSet.java (lines 32-42): The same for the 63 bits of the `long` set. |
| FixedWidthEnumSet.AsStringMapFacts | jpaw-enums/src/main/java/de/jpaw/enums/AbstractShortEnumSet.java:49-59 | The text form has one character per member and parses back to the bits below the sign, which are the original bitmap when the sign is clear. |
| FixedWidthEnumSet.RotatedBits | jpaw-enums/src/main/java/de/jpaw/enums/AbstractShortEnumSet.java:52-57 | After i arithmetic shifts by one, bit j of the copy is bit i + j of the bitmap, up to the sign. |
| FixedWidthEnumSet.FromStringMap | jpaw-enums/src/main/java/de/jpaw/enums/AbstractShortEnumSet.java:61-74 | Succeeds iff every character's alphabet index exists and is below MAX_TOKENS; then the result's members are exactly those indices. Otherwise IllegalArgument. In AbstractLongEnumSet.java (lines 44-57): The same for the 63 bits of the `long` set. |
| FixedWidthEnumSet.BitmapOf | jpaw-enums/src/main/java/de/jpaw/enums/AbstractShortEnumSet.java:76-82 | The loop that ORs in `BIT << ordinal` sets exactly the shifted positions that fall inside the scalar; with every ordinal below MAX_TOKENS, exactly the ordinals given. In AbstractLongEnumSet.java (lines 59-66): the same for `long`, where the shift distance is taken mod 64. |
| FixedWidthEnumSet.ShiftedOrdinalsSmall | jpaw-enums/src/main/java/de/jpaw/enums/AbstractShortEnumSet.java:79-80 | With all ordinals below MAX_TOKENS, the shifted positions are the ordinals themselves. |
| FixedWidthEnumSet.BitmapOfSmall | jpaw-enums/src/main/java/de/jpaw/enums/AbstractShortEnumSet.java:76-82 | A bitmap with those shifted members holds exactly the ordinals, for ordinals below MAX_TOKENS. |
| FixedWidthEnumSet.SetOfEnumsIterator.constructor | jpaw-enums/src/main/java/de/jpaw/enums/AbstractShortEnumSet.java:190-194 | The iterator starts on a private copy of the bitmap, at index -1, having returned nothing. |
| FixedWidthEnumSet.SetOfEnumsIterator.HasNext | jpaw-enums/src/main/java/de/jpaw/enums/AbstractShortEnumSet.java:196-199 | Bits remain iff fewer members have been returned than the copy had. Once none remain, the members returned are all of them, in ascending order. In AbstractLongEnumSet.java (lines 180-183): The same for the `long` iterator. |
| FixedWidthEnumSet.SetOfEnumsIterator.Next | jpaw-enums/src/main/java/de/jpaw/enums/AbstractShortEnumSet.java:201-210 | Exhausted: the short iterator returns null and changes nothing. Otherwise index moves to the lowest remaining bit, that bit is cleared and appended to what has been returned, and `values[index]` is returned, or an array index error when that ordinal has no value. In AbstractLongEnumSet.java (lines 185-197): Exhausted: the long iterator throws NoSuchElementException. Otherwise the same step. |
| FixedWidthEnumSet.SetOfEnumsIterator.Seek | jpaw-enums/src/main/java/de/jpaw/enums/AbstractShortEnumSet.java:206-207 | The scan `while ((bitmap & (BIT << index)) == 0) ++index` stops at the lowest set bit. |
| FixedWidthEnumSet.SetOfEnumsIterator.Take | jpaw-enums/src/main/java/de/jpaw/enums/AbstractShortEnumSet.java:208 | Clearing the found bit keeps the iterator invariant: the copy is the original without its bits up to index, and the members returned are the original's up to index, ascending. |
| FixedWidthEnumSet.SetOfEnumsIterator.Remove | jpaw-enums/src/main/java/de/jpaw/enums/AbstractShortEnumSet.java:212-215 | Always UnsupportedOperation. |
| FixedWidthEnumSet.Remaining | jpaw-enums/src/main/java/de/jpaw/enums/AbstractShortEnumSet.java:196-199 | The members below k are a prefix of all members; nothing remains above k iff that prefix is all of them. |
| FixedWidthEnumSet.NextStep | jpaw-enums/src/main/java/de/jpaw/enums/AbstractShortEnumSet.java:205-208 | When bits remain above k, the lowest lies below the width. Clearing it moves the cleared prefix to just past it and appends it to the members returned. |
| FixedWidthEnumSet.Advance | jpaw-enums/src/main/java/de/jpaw/enums/AbstractShortEnumSet.java:205-208 | Clearing the lowest remaining bit p clears every bit up to p, and the ascending member list grows by p. |
| StringMap.IndexOf | jpaw-enums/src/main/java/de/jpaw/enums/AbstractShortEnumSet.java:66 | `String.indexOf`: -1 iff the character is absent; otherwise its first position. |
| StringMap.TokenStringShape | jpaw-enums/src/main/java/de/jpaw/enums/AbstractShortEnumSet.java:50-59 | The text form has one character per set bit: its k-th character is the token of the k-th set bit. |
| StringMap.TokenStringAscending | jpaw-enums/src/main/java/de/jpaw/enums/AbstractShortEnumSet.java:50-59 | The tokens of the text form appear in strictly ascending alphabet order. |
| StringMap.ParseTokensAccepts | jpaw-enums/src/main/java/de/jpaw/enums/AbstractShortEnumSet.java:62-74 | fromStringMap succeeds iff every character has an alphabet index below the width. |
| StringMap.ParseFailureIsIllegal | jpaw-enums/src/main/java/de/jpaw/enums/AbstractShortEnumSet.java:69-71 | Every rejection is an IllegalArgumentException. |
| StringMap.ParseFailureExtends | jpaw-enums/src/main/java/de/jpaw/enums/AbstractShortEnumSet.java:64-72 | A rejected prefix makes the whole string rejected. |
| StringMap.ParseTokensValue | jpaw-enums/src/main/java/de/jpaw/enums/AbstractShortEnumSet.java:62-74 | An accepted string gives a non-negative bitmap whose members are exactly the characters' alphabet positions. |
| StringMap.ParseTokenString | jpaw-enums/src/main/java/de/jpaw/enums/AbstractShortEnumSet.java:50-74 | Parsing the text form of any pattern gives back its bits below the width. |
| StringMap.ParseSnoc | jpaw-enums/src/main/java/de/jpaw/enums/AbstractShortEnumSet.java:68 | Appending an accepted character sets its position's bit. |
| StringMap.RoundTrip | jpaw-enums/src/main/java/de/jpaw/enums/AbstractShortEnumSet.java:50-74 | `fromStringMap(asStringMap())` is the identity on every non-negative bitmap. In AbstractLongEnumSet.java (lines 33-57): The same round trip for the `long` set. |
| StringEnumSet.TokenEnumSet.constructor | jpaw-enums/src/main/java/de/jpaw/enums/AbstractStringEnumSet.java:14-16 | A new set is the empty string, unfrozen. |
| StringEnumSet.TokenEnumSet.FromBitmap | jpaw-enums/src/main/java/de/jpaw/enums/AbstractStringEnumSet.java:18-20 | The string constructor stores the string as it is. |
| StringEnumSet.TokenEnumSet.Freeze | jpaw-enums/src/main/java/de/jpaw/enums/AbstractStringEnumSet.java:11 | The `freeze` inherited from the parent class: afterwards the set is frozen, and its string is left alone. |
| StringEnumSet.TokenEnumSet.Add | jpaw-enums/src/main/java/de/jpaw/enums/AbstractStringEnumSet.java:22-25 | `add` makes the step `addEnum` makes on the string and the frozen flag. |
| StringEnumSet.AddStepSpec | jpaw-enums/src/main/java/de/jpaw/enums/AbstractStringEnumSet.java:22-25 | A one-character token: true iff it was new, and it is present afterwards; nothing else changes; a duplicate-free string stays duplicate-free. A frozen set fails only when the token is new; a longer token is rejected. |
| StringEnumSet.TokenEnumSet.Clear | jpaw-enums/src/main/java/de/jpaw/enums/AbstractStringEnumSet.java:30 | `clear` makes the step of the parent's clear. |
| StringEnumSet.TokenEnumSet.Assign | jpaw-enums/src/main/java/de/jpaw/enums/AbstractStringEnumSet.java:27-36 | assign: a non-empty frozen set throws at clear and is unchanged. Otherwise a null collection leaves the set empty, and any other collection leaves what adding its elements in order to the empty set gives, stopping at the first exception. |
| StringEnumSet.AddAllSuccess | jpaw-enums/src/main/java/de/jpaw/enums/AbstractStringEnumSet.java:29-36 | A successful assign holds exactly the tokens of the collection, without duplicates. |
| StringEnumSet.AddAllKeeps | jpaw-enums/src/main/java/de/jpaw/enums/AbstractStringEnumSet.java:32-34 | Adding never removes a token. |
| StringEnumSet.AddAllPartial | jpaw-enums/src/main/java/de/jpaw/enums/AbstractStringEnumSet.java:29-36 | A failing assign is not atomic. Some element k failed; the set holds what the elements before k added; and adding element k to that set is what threw. |
| StringEnumSet.TokenIterator.constructor | jpaw-enums/src/main/java/de/jpaw/enums/AbstractStringEnumSet.java:43-48 | The iterator starts at index 0 over the set's string, having returned nothing. |
| StringEnumSet.TokenIterator.GetValue | jpaw-enums/src/main/java/de/jpaw/enums/AbstractStringEnumSet.java:50-57 | The linear search returns the lookup's answer. |
| StringEnumSet.LookupSpec | jpaw-enums/src/main/java/de/jpaw/enums/AbstractStringEnumSet.java:50-57 | The lookup finds nothing iff no value has the token; otherwise it finds the first value that has it. |
| StringEnumSet.LookupHit | jpaw-enums/src/main/java/de/jpaw/enums/AbstractStringEnumSet.java:50-57 | A one-character token some value has is found, with that token. |
| StringEnumSet.TokenIterator.HasNext | jpaw-enums/src/main/java/de/jpaw/enums/AbstractStringEnumSet.java:59-62 | Characters remain iff fewer have been consumed than the string has. At the end, everything the string's characters resolve to has been returned, in storage order. |
| StringEnumSet.TokenIterator.Next | jpaw-enums/src/main/java/de/jpaw/enums/AbstractStringEnumSet.java:64-76 | At the end: NoSuchElement, unchanged. Otherwise index advances by exactly one. The character passed is resolved, and its value is returned, or NoSuchElement when no value has it. |
| StringEnumSet.TokenIterator.Remove | jpaw-enums/src/main/java/de/jpaw/enums/AbstractStringEnumSet.java:78-81 | Always UnsupportedOperation. |
| StringEnumSet.ResolvedLength | jpaw-enums/src/main/java/de/jpaw/enums/AbstractStringEnumSet.java:64-76 | The iteration yields one answer per character. |
| StringEnumSet.ResolvedHits | jpaw-enums/src/main/java/de/jpaw/enums/AbstractStringEnumSet.java:64-76 | When every character has a value, step k yields a value whose token is character k. |
| Base64.Sym | jpaw-util/src/main/java/de/jpaw/util/Base64.java:80 | The 64 alphabet symbols of CA; none is '='. |
| Base64.IARange | jpaw-util/src/main/java/de/jpaw/util/Base64.java:81-87 | IA holds -1 or a six-bit value, and is non-negative exactly for the symbols and '='. |
| Base64.IAInvertsCA | jpaw-util/src/main/java/de/jpaw/util/Base64.java:80-87 | IA inverts CA on the 64 symbols and maps '=' to 0; a byte maps to -1 iff it is neither a symbol nor '='. |
| Base64.SymIndex | jpaw-util/src/main/java/de/jpaw/util/Base64.java:84-85 | Looking up symbol k in IA gives k. |
| Base64.AlphabetInverse | jpaw-util/src/main/java/de/jpaw/util/Base64.java:84-85 | A byte with an alphabet position is the symbol at that position. |
| Base64.BuildDecodeTable | jpaw-util/src/main/java/de/jpaw/util/Base64.java:82-87 | The static initialiser's loops build a 256-entry array equal to IA. |
| Base64.EncodeToByte | jpaw-util/src/main/java/de/jpaw/util/Base64.java:99-139 | The buffer's old contents are kept and followed by the encoding of the slice, which is `((length - 1) / 3 + 1) * 4` bytes, none when length is 0. |
| Base64.EncodeGroups | jpaw-util/src/main/java/de/jpaw/util/Base64.java:111-121 | The main loop appends four symbols for each full group of three bytes: the encoding of those bytes. |
| Base64.EncodeStep | jpaw-util/src/main/java/de/jpaw/util/Base64.java:114-120 | One pass appends the encoding of the three bytes at `offset`. |
| Base64.EncodeLast | jpaw-util/src/main/java/de/jpaw/util/Base64.java:123-138 | After the loop, the final group, if bytes are left over, completes the encoding of the whole slice in exactly dLen bytes. |
| Base64.EncodeTail | jpaw-util/src/main/java/de/jpaw/util/Base64.java:124-136 | The last four bytes computed from one or two leftover bytes are their encoding. |
| Base64.TailSymbols | jpaw-util/src/main/java/de/jpaw/util/Base64.java:126-135 | The symbols computed for a final group of one or two bytes are that group's padded encoding. |
| Base64.EncodeShape | jpaw-util/src/main/java/de/jpaw/util/Base64.java:105-136 | The encoding has `((n - 1) / 3 + 1) * 4` bytes. All are alphabet symbols except the last: two '=' for one leftover byte, one for two, none otherwise. |
| Base64.EncodeConcat | jpaw-util/src/main/java/de/jpaw/util/Base64.java:112-121 | Encoding distributes over a split after whole groups of three. |
| Base64.EncodeOneGroup | jpaw-util/src/main/java/de/jpaw/util/Base64.java:114-120 | Three bytes encode to the four six-bit digits of their 24-bit group. |
| Base64.QuadSymbols | jpaw-util/src/main/java/de/jpaw/util/Base64.java:117-120 | The four symbols of a group are alphabet symbols. |
| Base64.QuadValue | jpaw-util/src/main/java/de/jpaw/util/Base64.java:164-170 | Decoding the four symbols of a 24-bit group gives back the group. |
| Base64.BytesGroup | jpaw-util/src/main/java/de/jpaw/util/Base64.java:173-177 | Splitting a group's value into bytes gives back its three bytes. |
| Base64.GroupsOfEncode | jpaw-util/src/main/java/de/jpaw/util/Base64.java:99-182 | Decoding the groups of an encoding yields the encoded bytes, then a zero byte per '='. |
| Base64.RoundTrip | jpaw-util/src/main/java/de/jpaw/util/Base64.java:99-182 | Every encoding is well formed, and what it stands for is the input: decode(encode(x)) == x. |
| Base64.EncodedLengthFacts | jpaw-util/src/main/java/de/jpaw/util/Base64.java:105 | Encoded lengths are whole groups with at most two '='. Three bytes per group, less one per '=', is the input length again. |
| Base64.EncodeWellFormed | jpaw-util/src/main/java/de/jpaw/util/Base64.java:132-135 | An encoding's shape makes it well formed, its '=' being its trailing pads. |
| Base64.TrailingPads | jpaw-util/src/main/java/de/jpaw/util/Base64.java:152-155 | A well-formed encoding ends in at most two '='. |
| Base64.GroupsLength | jpaw-util/src/main/java/de/jpaw/util/Base64.java:157 | Three bytes come out of every four characters. |
| Base64.ScanPads | jpaw-util/src/main/java/de/jpaw/util/Base64.java:152-155 | The backward scan counts the trailing '=' of a well-formed slice; it counts nothing for slices of one byte or fewer; it fails only when the slice leaves the array. |
| Base64.TrailingPadsCounted | jpaw-util/src/main/java/de/jpaw/util/Base64.java:153-155 | Counting '=' from a byte of a well-formed encoding on finds its trailing pads, as long as the count does not start inside them. |
| Base64.Decode | jpaw-util/src/main/java/de/jpaw/util/Base64.java:146-182 | null iff `sLen % 4 != 0`, and an empty array for sLen 0. Otherwise at most three bytes per four characters, failing only with an index or negative-size error. A well-formed slice decodes to what it stands for. |
| Base64.DecodeBody | jpaw-util/src/main/java/de/jpaw/util/Base64.java:157-181 | Once the pads are counted, the array gets the decoded length and a well-formed slice's bytes. |
| Base64.DecodeGroups | jpaw-util/src/main/java/de/jpaw/util/Base64.java:161-179 | The nested loops fill exactly len bytes; for a well-formed slice they are the first len bytes of its groups. |
| Base64.AssembleGroup | jpaw-util/src/main/java/de/jpaw/util/Base64.java:163-170 | The inner loop skips bytes IA rejects and puts four six-bit values together. On four plain bytes it takes exactly them and returns their 24-bit value. |
| Base64.AddBytes | jpaw-util/src/main/java/de/jpaw/util/Base64.java:172-178 | The bytes of the group, as many as fit below len, are stored at d; nothing else in the array changes. |
| Base64.DecodeStep | jpaw-util/src/main/java/de/jpaw/util/Base64.java:161-179 | One pass of the outer loop keeps the array equal to the wanted bytes up to the new d. |
| Base64.DecodedLength | jpaw-util/src/main/java/de/jpaw/util/Base64.java:157 | For whole groups, three bytes per four characters less one per '='. |
| Base64.LengthAsWrittenAgrees | jpaw-util/src/main/java/de/jpaw/util/Base64.java:157 | The 32-bit length and the intended length agree while `sLen * 6` fits in an int. |
| Base64.LengthOverflowCounterexample | jpaw-util/src/main/java/de/jpaw/util/Base64.java:157 | A slice of 357913944 characters gets a negative length as written, instead of 268435458. |
| Base64.DecodedLengthAsWritten | jpaw-util/src/main/java/de/jpaw/util/Base64.java:157 | With `sLen * 6` wrapped to an int, the length as written can never reach 2^28 - pad, whatever sLen is; the intended length grows without bound. |
| Base64.Int32 | jpaw-util/src/main/java/de/jpaw/util/Base64.java:157 | Java int arithmetic: the result is an int congruent to the value mod 2^32, and equal to it when it fits. |
| Base64.AsWrittenAtOffsetZero | jpaw-util/src/main/java/de/jpaw/util/Base64.java:126 | As written, the final group is right when the offset is 0 or one byte is left over. |
| Base64.FinalQuadAsWritten | jpaw-util/src/main/java/de/jpaw/util/Base64.java:123-136 | The final group as written still has the right shape: four symbols ending in '=', with a second '=' exactly when one byte is left over; only the symbol values can be wrong. |
| Base64.AsWrittenCounterexample | jpaw-util/src/main/java/de/jpaw/util/Base64.java:126 | Encoding "AB" at offset 3 gives "QQA=" as written instead of "QUI=". |
| Base64.DecodeFast | jpaw-util/src/main/java/de/jpaw/util/Base64.java:194-247 | Empty input gives an empty array; failures are index or negative-size errors. A well-formed encoding with only rejected bytes around it and no line separators decodes to the same bytes as decode. |
| Base64.TrimFront | jpaw-util/src/main/java/de/jpaw/util/Base64.java:202-204 | The start index passes exactly the leading bytes IA rejects, stopping at the last index. |
| Base64.TrimBack | jpaw-util/src/main/java/de/jpaw/util/Base64.java:206-208 | The end index passes back over exactly the trailing bytes IA rejects, stopping at 0. |
| Base64.TrimsFindFrame | jpaw-util/src/main/java/de/jpaw/util/Base64.java:200-208 | Around a framed encoding the trims stop at its first and last byte. |
| Base64.DecodeTrimmed | jpaw-util/src/main/java/de/jpaw/util/Base64.java:210-246 | The pad count, the separator count and the length, then the fill: a framed run decodes to what it stands for. |
| Base64.FastFill | jpaw-util/src/main/java/de/jpaw/util/Base64.java:215-246 | The array has the computed length; without separators, over a readable run, it holds the run's groups up to that length. |
| Base64.FastGroups | jpaw-util/src/main/java/de/jpaw/util/Base64.java:218-234 | The main loop fills eLen bytes and fails only on an index error. Without separators, over readable bytes, those bytes are the groups'. |
| Base64.FastStep | jpaw-util/src/main/java/de/jpaw/util/Base64.java:222-227 | One pass stores the three bytes of the group at sIx. |
| Base64.AddThreeBytes | jpaw-util/src/main/java/de/jpaw/util/Base64.java:225-227 | The three bytes of the group go to d to d + 2, nothing else changes. |
| Base64.FastLast | jpaw-util/src/main/java/de/jpaw/util/Base64.java:236-244 | When bytes are still missing after the loop, the last group's characters up to the pad fill them. |
| Base64.FastTail | jpaw-util/src/main/java/de/jpaw/util/Base64.java:238-240 | On readable bytes, the tail loop computes the partial value of the characters before the pad. |
| Base64.AddTail | jpaw-util/src/main/java/de/jpaw/util/Base64.java:242-243 | The loop `(byte) (i >> r)` fills the array's end with the group's first bytes. |
| Base64.FinishTail | jpaw-util/src/main/java/de/jpaw/util/Base64.java:236-244 | The tail's value and its first bytes stored at the array's end. |
| ApplicationException.Classification | jpaw-util/src/main/java/de/jpaw/util/ApplicationException.java:334-336 | `errorCode / CLASSIFICATION_FACTOR` is the classification part of the code. A non-negative code lies in its classification's block of 10^8, and an int code has a classification between -21 and 21. |
| ApplicationException.AppException.GetClassification | jpaw-util/src/main/java/de/jpaw/util/ApplicationException.java:334-336 | The code is its classification times the factor plus its detail. |
| ApplicationException.IsOk | jpaw-util/src/main/java/de/jpaw/util/ApplicationException.java:339-341 | An OK code has classification CL_SUCCESS and is its own detail. |
| ApplicationException.IsOkClassification | jpaw-util/src/main/java/de/jpaw/util/ApplicationException.java:339-341 | A code is OK iff it is non-negative and its classification is CL_SUCCESS. |
| ApplicationException.IsFutureAsWritten | jpaw-util/src/main/java/de/jpaw/util/ApplicationException.java:344-346 | The test as written holds for every code the corrected test accepts, so it only errs by accepting too much. |
| ApplicationException.IsFuture | jpaw-util/src/main/java/de/jpaw/util/ApplicationException.java:344-346 | The corrected test: a future code is positive and never an OK code. |
| ApplicationException.IsFutureAsWrittenCounterexample | jpaw-util/src/main/java/de/jpaw/util/ApplicationException.java:344-346 | As written, the OK code 100 of classification 0 counts as a future. |
| ApplicationException.IsFutureSpec | jpaw-util/src/main/java/de/jpaw/util/ApplicationException.java:344-346 | The corrected isFuture holds iff the code is at least CL_FUTURE * CLASSIFICATION_FACTOR; no future code is OK. |
| ApplicationException.WithRange | jpaw-util/src/main/java/de/jpaw/util/ApplicationException.java:144-158 | registerRange's effect keeps the table well formed: every entry under its own offset, a detail on a boundary of its size, 1000 or 10000. |
| ApplicationException.BaseOnBoundary | jpaw-util/src/main/java/de/jpaw/util/ApplicationException.java:147-152 | An offset on a range boundary has a detail on that boundary too. |
| ApplicationException.Registry.constructor | jpaw-util/src/main/java/de/jpaw/util/ApplicationException.java:136 | The class's initial static state: no ranges registered (line 136), and no descriptions, no counters and no code put yet (lines 184-185); the registry is valid from the start. |
| ApplicationException.Registry.RegisterRange | jpaw-util/src/main/java/de/jpaw/util/ApplicationException.java:144-158 | An offset off the boundary of its size changes nothing. Otherwise the entry is stored under `offset % CLASSIFICATION_FACTOR` with its range size, replacing an older one. The registry stays valid. |
| ApplicationException.RangeStartDetail | jpaw-util/src/main/java/de/jpaw/util/ApplicationException.java:175 | For a non-negative code, `(code - code % size) % CLASSIFICATION_FACTOR` is its detail rounded down to a multiple of the size. |
| ApplicationException.RoundDownTo | jpaw-util/src/main/java/de/jpaw/util/ApplicationException.java:175-180 | A detail inside a range of the size whose base is on a boundary rounds down to that base. |
| ApplicationException.RangeInfoAsWritten | jpaw-util/src/main/java/de/jpaw/util/ApplicationException.java:174-182 | The lookup as written returns only registered entries, and returns null exactly when neither the small nor the big range start is registered. |
| ApplicationException.RangeInfoAsWrittenCounterexample | jpaw-util/src/main/java/de/jpaw/util/ApplicationException.java:180-181 | After registering the small range 20000-20999, the lookup as written reports it for the code 25000, which it does not hold. |
| ApplicationException.RangeInfoForExceptionCode | jpaw-util/src/main/java/de/jpaw/util/ApplicationException.java:174-182 | The corrected lookup returns only registered entries, and in a well-formed table, for a non-negative code, only a range that holds the code. |
| ApplicationException.RangeInfoCorrection | jpaw-util/src/main/java/de/jpaw/util/ApplicationException.java:174-182 | The two lookups differ only when the code as written reports a range that does not hold the code. |
| ApplicationException.SmallRangeFound | jpaw-util/src/main/java/de/jpaw/util/ApplicationException.java:174-179 | After a small range is registered, every code inside it, under any classification, finds it. |
| ApplicationException.BigRangeFound | jpaw-util/src/main/java/de/jpaw/util/ApplicationException.java:174-182 | After a big range is registered, every code inside it finds it, unless a small range at another offset covers the code. |
| ApplicationException.SmallRangePreferred | jpaw-util/src/main/java/de/jpaw/util/ApplicationException.java:175-179 | A small range inside a big one wins for its own codes, in either order of registration. |
| ApplicationException.Counted | jpaw-util/src/main/java/de/jpaw/util/ApplicationException.java:213 | `merge(key, 1, Integer::sum)`: the key's counter goes up by exactly one, from 0 when absent, and every other counter is kept. |
| ApplicationException.PutKeepsConsistent | jpaw-util/src/main/java/de/jpaw/util/ApplicationException.java:207-213 | Storing an accepted code and counting its detail keeps every counter equal to the number of accepted puts with that detail. |
| ApplicationException.Registry.Put | jpaw-util/src/main/java/de/jpaw/util/ApplicationException.java:197-214 | Fails with IllegalArgument iff the code is negative, above 10 * CLASSIFICATION_FACTOR or a multiple of 10000, and then changes nothing. Otherwise the description is stored, overwriting an old one, and the detail's counter goes up by one; codeToString then returns the new description. In ApplicationException.java (lines 227-229): registerCode is put. |
| ApplicationException.RejectedCodeUnknown | jpaw-util/src/main/java/de/jpaw/util/ApplicationException.java:349-352 | A code put rejects gets no description, so get returns null and codeToString "unknown code". |
| ApplicationException.Registry.Get | jpaw-util/src/main/java/de/jpaw/util/ApplicationException.java:216-218 | In a valid registry a code has a description iff some put of it succeeded, and then the code is one put accepts. |
| ApplicationException.Registry.CodeToString | jpaw-util/src/main/java/de/jpaw/util/ApplicationException.java:349-352 | The registered description when there is one; a code never put successfully gives "unknown code". |
| ApplicationException.Registry.CheckForDuplicates | jpaw-util/src/main/java/de/jpaw/util/ApplicationException.java:245-262 | The loop over the counters returns true iff some counter exceeds 1. |
| ApplicationException.DuplicatesSpec | jpaw-util/src/main/java/de/jpaw/util/ApplicationException.java:245-262 | Some counter exceeds 1 iff two accepted puts carried the same detail: the same code twice, or one detail under two classifications. |
| ApplicationException.OccursTwice | jpaw-util/src/main/java/de/jpaw/util/ApplicationException.java:213 | A detail is counted more than once iff two positions of the history carry it. |
| ApplicationException.OccursOnce | jpaw-util/src/main/java/de/jpaw/util/ApplicationException.java:213 | A detail is counted at all iff some position of the history carries it. |
| ApplicationException.OccurrencesSnoc | jpaw-util/src/main/java/de/jpaw/util/ApplicationException.java:213 | One more put adds one occurrence of its own detail and none of any other. |
| ApplicationException.AppException.GetErrorDetails | jpaw-util/src/main/java/de/jpaw/util/ApplicationException.java:323-331 | The detailed message when there is one. Otherwise null iff field, class and index are all null. Otherwise the text is the class name (or "null"), ".", the field name (or "null"), and then, only when there is an index, ": " and the index's decimal rendering. |
| ApplicationException.ErrorDetailsIndex | jpaw-util/src/main/java/de/jpaw/util/ApplicationException.java:330 | Without a detailed message, the text after the class, the dot, the field and ": " reads back as the index. |
| ApplicationException.IntValueRoundTrip | jpaw-util/src/main/java/de/jpaw/util/ApplicationException.java:330 | `Integer.parseInt` of the rendered index gives the index back. |
| ApplicationException.Digits | jpaw-util/src/main/java/de/jpaw/util/ApplicationException.java:330 | The decimal rendering of a non-negative number is a non-empty string of digits. |
| ApplicationException.DigitsRoundTrip | jpaw-util/src/main/java/de/jpaw/util/ApplicationException.java:330 | Reading the rendered digits back gives the number. |
| ApplicationException.IntToStringRoundTrip | jpaw-util/src/main/java/de/jpaw/util/ApplicationException.java:330 | A rendered int starts with '-' iff it is negative, and its digits give back its magnitude. |
| ApplicationException.WithField | jpaw-util/src/main/java/de/jpaw/util/ApplicationException.java:276-283 | The field constructor keeps the code and has no detailed message; its details are null iff field, class and index are all null. |
| ApplicationException.WithMessage | jpaw-util/src/main/java/de/jpaw/util/ApplicationException.java:286-293 | The message constructor keeps the code, and its details are the message. |
| ApplicationException.OfCode | jpaw-util/src/main/java/de/jpaw/util/ApplicationException.java:296-303 | The code-only constructor keeps the code and has no details. |

## Left out

- Logging is not modelled: the SLF4J calls in ApplicationException and the debug `System.out.println` of Base64 lines 127-128. That includes the listing loop inside `checkForDuplicates` (lines 252-258), which only logs, and the duplicate-range log of `registerRange`.
- Concurrency is not modelled. The `ConcurrentHashMap`s are plain sequential maps, fields of one `Registry` object.
- `ByteBuilder` is modelled by its contents only. Its capacity, `ensureCapacity` and `getCurrentBuffer` are not modelled.
- Base64.EncodeToByte requires the slice to lie inside `sArr`, with non-negative `offset` and `length`; the other inputs are not modelled. For a slice that leaves `sArr`, Java throws an index error while reading `sArr` (line 114 or 126). That happens before `target.setLength(dLen)` at line 138, so the builder's contents stay unchanged; only its capacity may have grown.
- Base64.EncodeToByte does not model a negative `length`, which Java accepts without throwing. For -1, `cCnt` is 4, neither the loop nor the final group runs, and `setLength` grows the target by four bytes that were never written. For -2 to -4, `cCnt` is 0 and nothing changes. From -5 down, `cCnt` is negative and the outcome depends on `ByteBuilder.setLength`, which is not part of this model.
- Base64.EncodeToByte, Base64.EncodeLast and Base64.EncodeTail compute the final group as intended: they read the second leftover byte at `offset + length - 1`, where Java reads `sArr[length - 1]` (line 126). The behaviour as written is `FinalQuadAsWritten` (see Findings).
- Base64.EncodeToByte does not model the 32-bit overflow of `cCnt` and `dLen`, because its lengths are unbounded integers. In Java, `cCnt = ((length - 1) / 3 + 1) << 2` wraps negative once length reaches 1610612734, and `dLen = d + cCnt` wraps once it reaches 2^31. For such inputs the Java code does not append the encoding the contract states.
- Base64.Decode and Base64.DecodeBody give only the error kinds and a length bound for input that is not a well-formed encoding. They do not give the bytes produced from malformed input.
- Base64.DecodeFast is characterised only for a framed encoding without line separators. With separators, only the error kinds are stated.
- Base64.Decode and Base64.DecodeFast use the intended decoded length. The 32-bit overflow of `sLen * 6` is shown separately (see Findings).
- AbstractFreezableEnumSet and AbstractStringAnyEnumSet are not part of this model. The freeze flag of the long set is modelled like the short set's. `addEnum` and `clear` of the string set are the steps `AddStep`/`ClearStep`. By the rule the bitmap sets follow, a frozen set refuses only calls that would change it.
- StringEnumSet.AddStep and StringEnumSet.ClearStep are assumptions, not taken from code in this model, because `addEnum` and `clear` live in AbstractStringAnyEnumSet. Assumed: a token that is not exactly one character is rejected with IllegalArgumentException (only the class comment of AbstractStringEnumSet.java, line 10, says tokens are single characters). A token already present returns false and changes nothing, even when the set is frozen. `clear` of an empty frozen set succeeds. AddStepSpec, AddAllSuccess and AddAllPartial prove properties of exactly this assumed behaviour. The position of a new token is assumed too: it is appended at the end, so the iterator returns tokens in order of insertion. The ascending token order that the comment at AbstractStringEnumSet.java line 38 claims for the iterator is neither modelled nor proved.
- StringEnumSet.TokenEnumSet has no invariant that its string is free of duplicates, because the string constructor stores any string it is given. AddStepSpec and AddAllSuccess prove that `add` and `assign` keep a duplicate-free string duplicate-free.
- StringEnumSet.TokenEnumSet.Assign takes its collection as a value, a snapshot of the elements. So the aliasing call `s.assign(s)` is not modelled: Java clears `s` first and then finds nothing to add, which leaves the set empty.
- The enum values of the bitmap sets are their ordinals. The null dereference of `add(null)` is not modelled. `getCanonicalName` and the message strings are not modelled either.
- FixedWidthEnumSet.BitmapEnumSet.UnifyWith, IntersectWith, Exclude and ExactlyOneOf take a non-null `that`. A null argument is not modelled: Java runs the frozen check first (so a frozen set throws FrozenInstance) and otherwise throws a null dereference at `that.bitmap` (AbstractShortEnumSet.java lines 150-172, AbstractLongEnumSet.java lines 134-156), leaving the set unchanged.
- A null element of the array passed to `bitmapOf` is not modelled: Java throws a null dereference there, while the model's ordinals cannot be null.
- ApplicationException.Registry.Put takes a non-null description. `put(code, null)` is not modelled: the `ConcurrentHashMap` rejects a null value with a null dereference.
- `EnumSetMarker.STANDARD_TOKENS` is a parameter: any duplicate-free string of at least 63 characters.
- The exception class of a range entry is represented by its name.
- ApplicationException.RangeInfoForExceptionCode is the corrected lookup, which returns the entry at the big start only when it is a big range. The lookup as written is `RangeInfoAsWritten` (see Findings).
- ApplicationException.IsFuture is the corrected test on the classification. The test as written, `returnCode >= CL_FUTURE`, is `IsFutureAsWritten` (see Findings).
- ApplicationException.Registry.Put does not model the 32-bit wrap-around of the counter sum in `merge`; a counter needs 2^31 puts to wrap.
- ApplicationException.Classification and the range arithmetic use unbounded integers. They are stated for int inputs where that matters (the classification bound).
- `forEachRange`, `forEachCode`, `entrySet`, `getNumberOfRanges` and `getNumberOfErrorCodes` are not modelled: they call back into client code or only report map sizes.
- The plain getters (`getErrorCode`, `getIndex`, which fails on a null index when unboxing, `getFieldName`, `getClassName`, `getDetailedMessage`) are not modelled.
- `getStandardDescription`, `getLocalizedStandardDescription`, `toString`, the exception's message text and `logTraceAndThrow` are not modelled.
- Java serialization (`serialVersionUID`) is not modelled.

## Findings

| source | as written | input that shows it | evidently intended | confidence | as-written member | corrected member |
|---|---|---|---|---|---|---|
| jpaw-util/src/main/java/de/jpaw/util/Base64.java:126 | the second leftover byte is read at `sArr[length - 1]`, leaving out `offset` | `encodeToByte(target, {0,0,0,'A','B'}, 3, 2)` appends "QQA=" | `sArr[offset + length - 1]`, giving "QUI=" | not executed; high | Base64.AsWrittenCounterexample | Base64.EncodeToByte |
| jpaw-util/src/main/java/de/jpaw/util/Base64.java:157 | `(sLen * 6 >> 3) - pad` multiplies in 32-bit int arithmetic | `sLen` = 357913944 (also line 215 for `cCnt`) gives a negative length, so a NegativeArraySizeException instead of 268435458 bytes | the length `sLen / 4 * 3 - pad` without overflow | not executed; medium (the input needs a 341 MiB slice) | Base64.LengthOverflowCounterexample | Base64.Decode |
| jpaw-util/src/main/java/de/jpaw/util/ApplicationException.java:345 | `isFuture` compares the whole code with CL_FUTURE (20), a classification | `isFuture(100)` is true though 100 is an OK code of classification 0 | `getClassification`-style comparison: `returnCode / CLASSIFICATION_FACTOR >= CL_FUTURE` | not executed; low (the name and the constant's comment suggest it) | ApplicationException.IsFutureAsWrittenCounterexample | ApplicationException.IsFutureSpec |
| jpaw-util/src/main/java/de/jpaw/util/ApplicationException.java:180-181 | the big-range lookup returns whatever entry sits at the big start, even a small range | after `registerRange(20000, false, ...)`, code 25000 is reported in the range 20000-20999 | return the entry at the big start only when it is a big range | not executed; medium | ApplicationException.RangeInfoAsWrittenCounterexample | ApplicationException.RangeInfoCorrection |
