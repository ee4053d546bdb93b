/**
 * The exception-code registry of ApplicationException: error codes whose
 * digit at 10^8 is a classification, ranges of codes registered per
 * module, descriptions registered per code with a counter of how often
 * each detail (the code without its classification) was registered, and
 * the details an exception reports about itself.
 */
module ApplicationException {
  import opened Wrappers

  /** The classification of success codes. */
  const CL_SUCCESS: int := 0

  /** The classification saying that a future, not a result, was returned. */
  const CL_FUTURE: int := 20

  /** The factor the classification is multiplied by. */
  const CLASSIFICATION_FACTOR: int := 100000000

  /** The sizes of the ranges that large modules and small core libraries register. */
  const BIG_RANGE: int := 10000
  const SMALL_RANGE: int := 1000

  /** A value of Java's `int`. */
  predicate IsInt(x: int)
  {
    -0x8000_0000 <= x < 0x8000_0000
  }

  // ---------------------------------------------------------------------
  // Classification
  // ---------------------------------------------------------------------

  /**
   * `errorCode / CLASSIFICATION_FACTOR` (Java's truncating division): the
   * code is its classification times the factor plus a detail that has the
   * sign of the code.
   */
  function Classification(errorCode: int): (r: int)
    ensures errorCode == r * CLASSIFICATION_FACTOR + JavaRem(errorCode, CLASSIFICATION_FACTOR)
    ensures 0 <= errorCode ==> r * CLASSIFICATION_FACTOR <= errorCode < (r + 1) * CLASSIFICATION_FACTOR
    ensures IsInt(errorCode) ==> -21 <= r <= 21
  {
    JavaDiv(errorCode, CLASSIFICATION_FACTOR)
  }

  /** `isOk`: the code lies in [0, CLASSIFICATION_FACTOR). */
  predicate IsOk(returnCode: int)
    ensures IsOk(returnCode) ==>
      Classification(returnCode) == CL_SUCCESS && JavaRem(returnCode, CLASSIFICATION_FACTOR) == returnCode
  {
    returnCode >= 0 && returnCode < CLASSIFICATION_FACTOR
  }

  /** A code is OK exactly when it is non-negative and of the success classification. */
  lemma IsOkClassification(returnCode: int)
    ensures IsOk(returnCode) <==> 0 <= returnCode && Classification(returnCode) == CL_SUCCESS
  {
    if returnCode < 0 {
      assert Classification(returnCode) <= 0;
    }
  }

  /** `isFuture` as written: the whole return code is compared with the classification CL_FUTURE. */
  predicate IsFutureAsWritten(returnCode: int)
    ensures IsFuture(returnCode) ==> IsFutureAsWritten(returnCode)
  {
    returnCode >= CL_FUTURE
  }

  /** A success code of classification 0 counts as a future for the code as written. */
  lemma IsFutureAsWrittenCounterexample()
    ensures IsOk(100) && Classification(100) == CL_SUCCESS && IsFutureAsWritten(100)
  {
  }

  /** `isFuture` as intended: the code's classification is CL_FUTURE or above. */
  predicate IsFuture(returnCode: int)
    ensures IsFuture(returnCode) ==> 0 < returnCode && !IsOk(returnCode)
  {
    Classification(returnCode) >= CL_FUTURE
  }

  /**
   * The future codes are exactly those from CL_FUTURE * CLASSIFICATION_FACTOR
   * up, and no future code is an OK code.
   */
  lemma IsFutureSpec(returnCode: int)
    ensures IsFuture(returnCode) <==> returnCode >= CL_FUTURE * CLASSIFICATION_FACTOR
    ensures IsFuture(returnCode) ==> !IsOk(returnCode)
  {
    var c := Classification(returnCode);
    if returnCode < 0 {
      assert c <= 0;
    } else if returnCode >= CL_FUTURE * CLASSIFICATION_FACTOR {
      assert c * CLASSIFICATION_FACTOR > (CL_FUTURE - 1) * CLASSIFICATION_FACTOR;
    } else {
      assert c * CLASSIFICATION_FACTOR < CL_FUTURE * CLASSIFICATION_FACTOR;
    }
  }

  // ---------------------------------------------------------------------
  // Code ranges
  // ---------------------------------------------------------------------

  /** Which layer defines an exception code range. */
  datatype ApplicationLevelType = CoreLibrary | Framework | Application | Customization

  /** `ExceptionRangeDescription`; the exception class is represented by its name. */
  datatype ExceptionRangeDescription = ExceptionRangeDescription(
    errorCodeOffset: int, range: int, exceptionClass: string, layer: ApplicationLevelType, description: string)

  /**
   * A table registerRange can build: every entry sits under its own offset,
   * which is a detail (below the classification factor in magnitude) on a
   * boundary of the entry's range size, 1000 or 10000.
   */
  predicate RangesValid(ranges: map<int, ExceptionRangeDescription>)
  {
    forall k :: k in ranges ==>
      ranges[k].errorCodeOffset == k
      && (ranges[k].range == SMALL_RANGE || ranges[k].range == BIG_RANGE)
      && JavaRem(k, ranges[k].range) == 0
      && -CLASSIFICATION_FACTOR < k < CLASSIFICATION_FACTOR
  }

  /** A range of the given size holds a non-negative code when its offset is the code's detail rounded down. */
  predicate InRange(code: int, offset: int, size: int)
  {
    offset <= JavaRem(code, CLASSIFICATION_FACTOR) < offset + size
  }

  /** `(code - code % size) % CLASSIFICATION_FACTOR`: the offset of the range of this size around the code. */
  function RangeStart(code: int, size: int): int
    requires size > 0
  {
    JavaRem(code - JavaRem(code, size), CLASSIFICATION_FACTOR)
  }

  /** For a non-negative code the range start is its detail rounded down to a multiple of the size. */
  lemma RangeStartDetail(code: int, size: int)
    requires size == SMALL_RANGE || size == BIG_RANGE
    ensures 0 <= code ==> var d := code % CLASSIFICATION_FACTOR; RangeStart(code, size) == d - d % size
  {
    if 0 <= code {
      if size == SMALL_RANGE { RoundDownSmall(code); } else { RoundDownBig(code); }
    }
  }

  lemma RoundDownSmall(code: int)
    requires 0 <= code
    ensures (code - code % 1000) % CLASSIFICATION_FACTOR == code % CLASSIFICATION_FACTOR - (code % CLASSIFICATION_FACTOR) % 1000
  {
    var q, d := code / CLASSIFICATION_FACTOR, code % CLASSIFICATION_FACTOR;
    var e, r := d / 1000, d % 1000;
    assert code == (q * 100000 + e) * 1000 + r;
    ModUnique(code, 1000, q * 100000 + e, r);
    assert code - code % 1000 == q * CLASSIFICATION_FACTOR + e * 1000;
    ModUnique(code - code % 1000, CLASSIFICATION_FACTOR, q, e * 1000);
  }

  lemma RoundDownBig(code: int)
    requires 0 <= code
    ensures (code - code % 10000) % CLASSIFICATION_FACTOR == code % CLASSIFICATION_FACTOR - (code % CLASSIFICATION_FACTOR) % 10000
  {
    var q, d := code / CLASSIFICATION_FACTOR, code % CLASSIFICATION_FACTOR;
    var e, r := d / 10000, d % 10000;
    assert code == (q * 10000 + e) * 10000 + r;
    ModUnique(code, 10000, q * 10000 + e, r);
    assert code - code % 10000 == q * CLASSIFICATION_FACTOR + e * 10000;
    ModUnique(code - code % 10000, CLASSIFICATION_FACTOR, q, e * 10000);
  }

  lemma MulAtLeast(k: int, n: int)
    requires k >= 1 && n > 0
    ensures k * n >= n
  {
    assert k * n == (k - 1) * n + n;
  }

  /** `a == m * n + r` with `0 <= r < n` fixes `a / n` and `a % n`. */
  lemma ModUnique(a: int, n: int, m: int, r: int)
    requires 0 < n && a == m * n + r && 0 <= r < n
    ensures a % n == r && a / n == m
  {
    var q, s := a / n, a % n;
    assert (q - m) * n == r - s by {
      assert a == q * n + s;
      assert (q - m) * n == q * n - m * n;
    }
    if q > m {
      MulAtLeast(q - m, n);
    } else if q < m {
      MulAtLeast(m - q, n);
    }
  }

  /** A detail lying in [base, base + size) with base on a boundary of the size rounds down to base. */
  lemma RoundDownTo(d: int, base: int, size: int)
    requires size == SMALL_RANGE || size == BIG_RANGE
    requires base % size == 0 && base <= d < base + size
    ensures d - d % size == base
  {
    if size == SMALL_RANGE {
      assert base % 1000 == 0 && base <= d < base + 1000;
      assert d - d % 1000 == base;
    } else {
      assert base % 10000 == 0 && base <= d < base + 10000;
      assert d - d % 10000 == base;
    }
  }

  /**
   * What `registerRange` does to the table: an offset off the boundary of
   * its range size changes nothing; otherwise the entry is stored under
   * the offset's detail, replacing any entry stored there before.
   */
  function WithRange(ranges: map<int, ExceptionRangeDescription>, errorCodeOffset: int, bigRange: bool,
                     exceptionClass: string, layer: ApplicationLevelType, description: string): (r: map<int, ExceptionRangeDescription>)
    ensures RangesValid(ranges) ==> RangesValid(r)
  {
    var rangeSize := if bigRange then BIG_RANGE else SMALL_RANGE;
    if JavaRem(errorCodeOffset, rangeSize) != 0 then ranges
    else
      var base := JavaRem(errorCodeOffset, CLASSIFICATION_FACTOR);
      BaseOnBoundary(errorCodeOffset, rangeSize);
      ranges[base := ExceptionRangeDescription(base, rangeSize, exceptionClass, layer, description)]
  }

  /** The detail of an offset on a range boundary is on that boundary too. */
  lemma BaseOnBoundary(offset: int, size: int)
    requires (size == SMALL_RANGE || size == BIG_RANGE) && JavaRem(offset, size) == 0
    ensures JavaRem(JavaRem(offset, CLASSIFICATION_FACTOR), size) == 0
  {
    var a := if offset >= 0 then offset else -offset;
    assert a % size == 0;
    if size == SMALL_RANGE { BoundarySmall(a); } else { BoundaryBig(a); }
    assert JavaRem(offset, CLASSIFICATION_FACTOR) == (if offset >= 0 then a % CLASSIFICATION_FACTOR else -(a % CLASSIFICATION_FACTOR));
  }

  lemma BoundarySmall(a: int)
    requires 0 <= a && a % 1000 == 0
    ensures (a % CLASSIFICATION_FACTOR) % 1000 == 0
  {
  }

  lemma BoundaryBig(a: int)
    requires 0 <= a && a % 10000 == 0
    ensures (a % CLASSIFICATION_FACTOR) % 10000 == 0
  {
  }

  /**
   * `getRangeInfoForExceptionCode` as written: the entry at the small range
   * start, else whatever entry sits at the big range start, even a small
   * range that does not hold the code.
   */
  function RangeInfoAsWritten(ranges: map<int, ExceptionRangeDescription>, exceptionCode: int): (r: Option<ExceptionRangeDescription>)
    ensures r.Some? ==> r.value in ranges.Values
    ensures r.None? <==> RangeStart(exceptionCode, SMALL_RANGE) !in ranges && RangeStart(exceptionCode, BIG_RANGE) !in ranges
  {
    var smallRangeStart := RangeStart(exceptionCode, SMALL_RANGE);
    if smallRangeStart in ranges then Some(ranges[smallRangeStart])
    else
      var bigRangeStart := RangeStart(exceptionCode, BIG_RANGE);
      if bigRangeStart in ranges then Some(ranges[bigRangeStart]) else None
  }

  /** After registering the small range 20000-20999, code 25000 is reported as lying in it. */
  lemma RangeInfoAsWrittenCounterexample(cls: string, layer: ApplicationLevelType, description: string)
    ensures var ranges := WithRange(map[], 20000, false, cls, layer, description);
      RangeInfoAsWritten(ranges, 25000) == Some(ExceptionRangeDescription(20000, SMALL_RANGE, cls, layer, description))
      && !InRange(25000, 20000, SMALL_RANGE)
  {
    RangeStartDetail(25000, SMALL_RANGE);
    RangeStartDetail(25000, BIG_RANGE);
  }

  /**
   * `getRangeInfoForExceptionCode` as intended: the entry at the small
   * range start if there is one, else the big range at the big range
   * start, else none.
   */
  function RangeInfoForExceptionCode(ranges: map<int, ExceptionRangeDescription>, exceptionCode: int): (r: Option<ExceptionRangeDescription>)
    ensures r.Some? ==> r.value in ranges.Values
    ensures RangesValid(ranges) && 0 <= exceptionCode && r.Some? ==>
      InRange(exceptionCode, r.value.errorCodeOffset, r.value.range)
  {
    RangeStartDetail(exceptionCode, SMALL_RANGE);
    RangeStartDetail(exceptionCode, BIG_RANGE);
    var smallRangeStart := RangeStart(exceptionCode, SMALL_RANGE);
    if smallRangeStart in ranges then Some(ranges[smallRangeStart])
    else
      var bigRangeStart := RangeStart(exceptionCode, BIG_RANGE);
      if bigRangeStart in ranges && ranges[bigRangeStart].range == BIG_RANGE then Some(ranges[bigRangeStart]) else None
  }

  /** The two lookups differ only where the code as written reports a range that does not hold the code. */
  lemma RangeInfoCorrection(ranges: map<int, ExceptionRangeDescription>, exceptionCode: int)
    requires RangesValid(ranges) && 0 <= exceptionCode
    ensures RangeInfoAsWritten(ranges, exceptionCode) != RangeInfoForExceptionCode(ranges, exceptionCode) ==>
      RangeInfoAsWritten(ranges, exceptionCode).Some? && RangeInfoForExceptionCode(ranges, exceptionCode).None?
      && !InRange(exceptionCode, RangeInfoAsWritten(ranges, exceptionCode).value.errorCodeOffset, RangeInfoAsWritten(ranges, exceptionCode).value.range)
  {
    var small, big := RangeStart(exceptionCode, SMALL_RANGE), RangeStart(exceptionCode, BIG_RANGE);
    if small !in ranges && big in ranges && ranges[big].range != BIG_RANGE {
      // the entry at the big start is a small range, so it would be the small start if it held the code
      var d := exceptionCode % CLASSIFICATION_FACTOR;
      RangeStartDetail(exceptionCode, SMALL_RANGE);
      RangeStartDetail(exceptionCode, BIG_RANGE);
      assert ranges[big].range == SMALL_RANGE && ranges[big].errorCodeOffset == big;
      if InRange(exceptionCode, big, SMALL_RANGE) {
        RoundDownTo(d, big, SMALL_RANGE);
        assert false;
      }
    }
  }

  /** Every code inside a registered small range, under any classification, finds that range. */
  lemma SmallRangeFound(ranges: map<int, ExceptionRangeDescription>, errorCodeOffset: int,
                        exceptionClass: string, layer: ApplicationLevelType, description: string, code: int)
    requires 0 <= errorCodeOffset && errorCodeOffset % SMALL_RANGE == 0 && 0 <= code
    requires InRange(code, errorCodeOffset % CLASSIFICATION_FACTOR, SMALL_RANGE)
    ensures RangeInfoForExceptionCode(WithRange(ranges, errorCodeOffset, false, exceptionClass, layer, description), code)
      == Some(ExceptionRangeDescription(errorCodeOffset % CLASSIFICATION_FACTOR, SMALL_RANGE, exceptionClass, layer, description))
  {
    var base := errorCodeOffset % CLASSIFICATION_FACTOR;
    BaseOnBoundary(errorCodeOffset, SMALL_RANGE);
    RangeStartDetail(code, SMALL_RANGE);
    RoundDownTo(code % CLASSIFICATION_FACTOR, base, SMALL_RANGE);
  }

  /**
   * Every code inside a registered big range finds it, unless a small range
   * registered at another offset covers the code.
   */
  lemma BigRangeFound(ranges: map<int, ExceptionRangeDescription>, errorCodeOffset: int,
                      exceptionClass: string, layer: ApplicationLevelType, description: string, code: int)
    requires 0 <= errorCodeOffset && errorCodeOffset % BIG_RANGE == 0 && 0 <= code
    requires InRange(code, errorCodeOffset % CLASSIFICATION_FACTOR, BIG_RANGE)
    requires RangeStart(code, SMALL_RANGE) == errorCodeOffset % CLASSIFICATION_FACTOR || RangeStart(code, SMALL_RANGE) !in ranges
    ensures RangeInfoForExceptionCode(WithRange(ranges, errorCodeOffset, true, exceptionClass, layer, description), code)
      == Some(ExceptionRangeDescription(errorCodeOffset % CLASSIFICATION_FACTOR, BIG_RANGE, exceptionClass, layer, description))
  {
    var base := errorCodeOffset % CLASSIFICATION_FACTOR;
    BaseOnBoundary(errorCodeOffset, BIG_RANGE);
    RangeStartDetail(code, BIG_RANGE);
    RoundDownTo(code % CLASSIFICATION_FACTOR, base, BIG_RANGE);
  }

  /**
   * A small range inside a big one wins for its own codes, whichever of the
   * two was registered first.
   */
  lemma SmallRangePreferred(ranges: map<int, ExceptionRangeDescription>, bigOffset: int, smallOffset: int,
                            bigEntry: (string, ApplicationLevelType, string), smallEntry: (string, ApplicationLevelType, string), code: int)
    requires 0 <= bigOffset && bigOffset % BIG_RANGE == 0 && 0 <= smallOffset && smallOffset % SMALL_RANGE == 0
    requires bigOffset % CLASSIFICATION_FACTOR != smallOffset % CLASSIFICATION_FACTOR
    requires 0 <= code && InRange(code, smallOffset % CLASSIFICATION_FACTOR, SMALL_RANGE)
    ensures var small := Some(ExceptionRangeDescription(smallOffset % CLASSIFICATION_FACTOR, SMALL_RANGE, smallEntry.0, smallEntry.1, smallEntry.2));
      && RangeInfoForExceptionCode(WithRange(WithRange(ranges, bigOffset, true, bigEntry.0, bigEntry.1, bigEntry.2),
                                             smallOffset, false, smallEntry.0, smallEntry.1, smallEntry.2), code) == small
      && RangeInfoForExceptionCode(WithRange(WithRange(ranges, smallOffset, false, smallEntry.0, smallEntry.1, smallEntry.2),
                                             bigOffset, true, bigEntry.0, bigEntry.1, bigEntry.2), code) == small
  {
    var withBig := WithRange(ranges, bigOffset, true, bigEntry.0, bigEntry.1, bigEntry.2);
    SmallRangeFound(withBig, smallOffset, smallEntry.0, smallEntry.1, smallEntry.2, code);
    var withSmall := WithRange(ranges, smallOffset, false, smallEntry.0, smallEntry.1, smallEntry.2);
    var start := smallOffset % CLASSIFICATION_FACTOR;
    SmallRangeFound(ranges, smallOffset, smallEntry.0, smallEntry.1, smallEntry.2, code);
    RangeStartDetail(code, SMALL_RANGE);
    BaseOnBoundary(bigOffset, BIG_RANGE);
    assert WithRange(withSmall, bigOffset, true, bigEntry.0, bigEntry.1, bigEntry.2)[start] == withSmall[start];
  }

  // ---------------------------------------------------------------------
  // Code descriptions and the duplicate counter
  // ---------------------------------------------------------------------

  /** The codes `DuplicateCheckingMap.put` accepts: within [0, 10 * CLASSIFICATION_FACTOR] and off a module boundary. */
  predicate Accepted(errorCode: int)
  {
    0 <= errorCode <= 10 * CLASSIFICATION_FACTOR && JavaRem(errorCode, 10000) != 0
  }

  /** The key of the duplicate counter: the code without its classification. */
  function Detail(errorCode: int): int
  {
    JavaRem(errorCode, CLASSIFICATION_FACTOR)
  }

  /** The number of codes in h with detail k. */
  function Occurrences(h: seq<int>, k: int): nat
  {
    if h == [] then 0 else Occurrences(h[..|h| - 1], k) + (if Detail(h[|h| - 1]) == k then 1 else 0)
  }

  /** A detail occurs more than once exactly when two positions of h carry it. */
  lemma OccursTwice(h: seq<int>, k: int)
    ensures Occurrences(h, k) > 1 <==> exists i, j :: 0 <= i < j < |h| && Detail(h[i]) == k && Detail(h[j]) == k
  {
    if Occurrences(h, k) > 1 {
      TwiceHasPositions(h, k);
    }
    if exists i, j :: 0 <= i < j < |h| && Detail(h[i]) == k && Detail(h[j]) == k {
      var i, j :| 0 <= i < j < |h| && Detail(h[i]) == k && Detail(h[j]) == k;
      PositionsCountTwice(h, k, i, j);
    }
  }

  lemma {:induction false} TwiceHasPositions(h: seq<int>, k: int)
    requires Occurrences(h, k) > 1
    ensures exists i, j :: 0 <= i < j < |h| && Detail(h[i]) == k && Detail(h[j]) == k
  {
    var p := h[..|h| - 1];
    if Detail(h[|h| - 1]) == k && Occurrences(p, k) == 1 {
      OccursOnce(p, k);
      var i :| 0 <= i < |p| && Detail(p[i]) == k;
      assert Detail(h[i]) == k && Detail(h[|h| - 1]) == k;
    } else {
      TwiceHasPositions(p, k);
      var i, j :| 0 <= i < j < |p| && Detail(p[i]) == k && Detail(p[j]) == k;
      assert Detail(h[i]) == k && Detail(h[j]) == k;
    }
  }

  lemma {:induction false} PositionsCountTwice(h: seq<int>, k: int, i: int, j: int)
    requires 0 <= i < j < |h| && Detail(h[i]) == k && Detail(h[j]) == k
    ensures Occurrences(h, k) > 1
  {
    var p := h[..|h| - 1];
    if j < |p| {
      assert Detail(p[i]) == k && Detail(p[j]) == k;
      PositionsCountTwice(p, k, i, j);
    } else {
      assert Detail(p[i]) == k;
      OccursOnce(p, k);
    }
  }

  /** A detail occurs at all exactly when some position of h carries it. */
  lemma {:induction false} OccursOnce(h: seq<int>, k: int)
    ensures Occurrences(h, k) > 0 <==> exists i :: 0 <= i < |h| && Detail(h[i]) == k
  {
    if h != [] {
      var p := h[..|h| - 1];
      OccursOnce(p, k);
      if exists i :: 0 <= i < |p| && Detail(p[i]) == k {
        var i :| 0 <= i < |p| && Detail(p[i]) == k;
        assert Detail(h[i]) == k;
      }
      if exists i :: 0 <= i < |h| && Detail(h[i]) == k {
        var i :| 0 <= i < |h| && Detail(h[i]) == k;
        if i < |p| { assert Detail(p[i]) == k; }
      }
    }
  }

  /** Appending a code adds one occurrence of its own detail and none of any other. */
  lemma OccurrencesSnoc(h: seq<int>, c: int, k: int)
    ensures Occurrences(h + [c], k) == Occurrences(h, k) + (if Detail(c) == k then 1 else 0)
  {
    assert (h + [c])[..|h|] == h;
  }

  /**
   * The described codes are the codes put, all of them accepted; the
   * counter of a detail is the number of puts of a code with that detail.
   */
  ghost predicate Consistent(descriptions: map<int, string>, counters: map<int, int>, history: seq<int>)
  {
    (forall i :: 0 <= i < |history| ==> Accepted(history[i]))
    && (forall c :: c in descriptions <==> c in history)
    && (forall k :: k in counters ==> counters[k] == Occurrences(history, k))
    && (forall k :: k !in counters ==> Occurrences(history, k) == 0)
  }

  /** `DUPLICATE_CODE_COUNTER.merge(key, 1, Integer::sum)`. */
  function Counted(counters: map<int, int>, key: int): (r: map<int, int>)
    ensures r.Keys == counters.Keys + {key}
    ensures r[key] == (if key in counters then counters[key] else 0) + 1
    ensures forall k :: k in counters && k != key ==> r[k] == counters[k]
  {
    counters[key := if key in counters then counters[key] + 1 else 1]
  }

  /** Storing an accepted code and counting its detail keeps descriptions, counters and history consistent. */
  lemma PutKeepsConsistent(descriptions: map<int, string>, counters: map<int, int>, history: seq<int>,
                           errorCode: int, description: string)
    requires Consistent(descriptions, counters, history) && Accepted(errorCode)
    ensures Consistent(descriptions[errorCode := description], Counted(counters, Detail(errorCode)), history + [errorCode])
  {
    var h := history + [errorCode];
    forall k ensures Occurrences(h, k) == Occurrences(history, k) + (if Detail(errorCode) == k then 1 else 0) {
      OccurrencesSnoc(history, errorCode, k);
    }
    forall c ensures c in h <==> c in history || c == errorCode {
      assert c in h <==> c in history || c == errorCode;
    }
  }

  /** Some detail was counted more than once. */
  predicate HasDuplicates(counters: map<int, int>)
  {
    exists k :: k in counters && counters[k] > 1
  }

  /**
   * The static maps of ApplicationException: EXCEPTION_RANGES,
   * CODE_TO_DESCRIPTION and DUPLICATE_CODE_COUNTER.  `history` is the
   * sequence of codes put so far.
   */
  class Registry {
    var ranges: map<int, ExceptionRangeDescription>
    var descriptions: map<int, string>
    var counters: map<int, int>
    ghost var history: seq<int>

    /**
     * The ranges are a table registerRange builds; the described codes are
     * the codes put, all of them accepted; the counter of a detail is the
     * number of puts of a code with that detail.
     */
    ghost predicate Valid()
      reads this
    {
      RangesValid(ranges) && Consistent(descriptions, counters, history)
    }

    constructor ()
      ensures Valid() && ranges == map[] && descriptions == map[] && counters == map[] && history == []
    {
      ranges := map[];
      descriptions := map[];
      counters := map[];
      history := [];
    }

    /** `registerRange`; the error logs are left out. */
    method RegisterRange(errorCodeOffset: int, bigRange: bool, exceptionClass: string,
                         layer: ApplicationLevelType, description: string)
      requires Valid()
      modifies this`ranges
      ensures ranges == WithRange(old(ranges), errorCodeOffset, bigRange, exceptionClass, layer, description)
      ensures Valid()
    {
      var rangeSize := if bigRange then BIG_RANGE else SMALL_RANGE;
      if JavaRem(errorCodeOffset, rangeSize) != 0 {
        return;
      }
      var base := JavaRem(errorCodeOffset, CLASSIFICATION_FACTOR);
      var newEntry := ExceptionRangeDescription(base, rangeSize, exceptionClass, layer, description);
      ranges := ranges[base := newEntry];
    }

    /** `DuplicateCheckingMap.get`: the description registered for the code, or null. */
    function Get(errorCode: int): (r: Option<string>)
      reads this
      ensures Valid() ==> (r.Some? <==> errorCode in history)
      ensures Valid() && r.Some? ==> Accepted(errorCode)
    {
      if errorCode in descriptions then Some(descriptions[errorCode]) else None
    }

    /** `codeToString`: the registered description, or "unknown code". */
    function CodeToString(code: int): (s: string)
      reads this
      ensures code in descriptions ==> s == descriptions[code]
      ensures Valid() && code !in history ==> s == "unknown code"
    {
      match Get(code)
      case Some(msg) => msg
      case None => "unknown code"
    }

    /**
     * `DuplicateCheckingMap.put` (also reached through `registerCode`):
     * rejects a code out of range or on a module boundary; otherwise stores
     * the description, overwriting an old one, and counts the code's detail.
     */
    method Put(errorCode: int, description: string) returns (r: Result<()>)
      requires Valid()
      modifies this`descriptions, this`counters, this`history
      ensures r.Failure? <==> !Accepted(errorCode)
      ensures r.Failure? ==>
        r.error == IllegalArgument && descriptions == old(descriptions) && counters == old(counters) && history == old(history)
      ensures r.Success? ==>
        descriptions == old(descriptions)[errorCode := description] && history == old(history) + [errorCode]
        && counters == Counted(old(counters), Detail(errorCode))
      ensures Valid()
      ensures r.Success? ==> CodeToString(errorCode) == description
    {
      if errorCode < 0 || errorCode > 10 * CLASSIFICATION_FACTOR {
        return Failure(IllegalArgument);    // "out of range"
      }
      if JavaRem(errorCode, 10000) == 0 {
        return Failure(IllegalArgument);    // "module offset"
      }
      PutKeepsConsistent(descriptions, counters, history, errorCode, description);
      descriptions := descriptions[errorCode := description];
      var key := JavaRem(errorCode, CLASSIFICATION_FACTOR);
      counters := Counted(counters, key);
      history := history + [errorCode];
      return Success(());
    }

    /**
     * `checkForDuplicates`: visits every counter and reports whether one
     * exceeds 1; listing the clashing descriptions only logs and is left out.
     */
    method CheckForDuplicates() returns (foundDuplicates: bool)
      ensures foundDuplicates <==> HasDuplicates(counters)
    {
      foundDuplicates := false;
      var todo := counters.Keys;
      while todo != {}
        invariant todo <= counters.Keys
        invariant foundDuplicates <==> exists k :: k in counters.Keys - todo && counters[k] > 1
        decreases |todo|
      {
        HasElement(todo);
        var k :| k in todo;
        if counters[k] > 1 {
          foundDuplicates := true;
        }
        todo := todo - {k};
      }
    }
  }

  /** A non-empty set of codes has a member, so a code can be picked from it. */
  lemma HasElement(s: set<int>)
    requires s != {}
    ensures exists x :: x in s
  {
    if forall y :: y !in s {
      assert false;
    }
  }

  /**
   * A counter exceeds 1 exactly when two puts carried the same detail: the
   * same code registered twice, or one detail under two classifications.
   */
  lemma DuplicatesSpec(reg: Registry)
    requires reg.Valid()
    ensures HasDuplicates(reg.counters) <==>
      exists i, j :: 0 <= i < j < |reg.history| && Detail(reg.history[i]) == Detail(reg.history[j])
  {
    var h := reg.history;
    if HasDuplicates(reg.counters) {
      var k :| k in reg.counters && reg.counters[k] > 1;
      OccursTwice(h, k);
    }
    if exists i, j :: 0 <= i < j < |h| && Detail(h[i]) == Detail(h[j]) {
      var i, j :| 0 <= i < j < |h| && Detail(h[i]) == Detail(h[j]);
      var k := Detail(h[i]);
      OccursTwice(h, k);
      assert k in reg.counters;
    }
  }

  /** A code that put rejects never gets a description. */
  lemma RejectedCodeUnknown(reg: Registry, code: int)
    requires reg.Valid() && !Accepted(code)
    ensures reg.Get(code) == None && reg.CodeToString(code) == "unknown code"
  {
  }

  // ---------------------------------------------------------------------
  // The exception object
  // ---------------------------------------------------------------------

  /** Java's decimal rendering of a non-negative int. */
  function Digits(n: nat): (s: string)
    ensures |s| > 0 && forall i :: 0 <= i < |s| ==> '0' <= s[i] <= '9'
  {
    var d := [(n % 10) as char + '0'];
    if n < 10 then d else Digits(n / 10) + d
  }

  /** The value of a string of decimal digits. */
  function DigitsValue(s: string): int
  {
    if s == [] then 0 else 10 * DigitsValue(s[..|s| - 1]) + (s[|s| - 1] as int - '0' as int)
  }

  /** `Integer.toString`: an optional minus sign, then the digits of the magnitude. */
  function IntToString(n: int): string
  {
    if n < 0 then "-" + Digits(-n) else Digits(n)
  }

  /** Reading the digits back gives the number. */
  lemma {:induction false} DigitsRoundTrip(n: nat)
    ensures DigitsValue(Digits(n)) == n
  {
    var d := [(n % 10) as char + '0'];
    if n >= 10 {
      DigitsRoundTrip(n / 10);
      assert (Digits(n / 10) + d)[..|Digits(n / 10) + d| - 1] == Digits(n / 10);
    }
  }

  /** A rendered int starts with a minus sign exactly when it is negative, and its digits give back its magnitude. */
  lemma IntToStringRoundTrip(n: int)
    ensures var s := IntToString(n);
      (s[0] == '-' <==> n < 0) && DigitsValue(if n < 0 then s[1..] else s) == (if n < 0 then -n else n)
  {
    if n < 0 {
      DigitsRoundTrip(-n);
      assert IntToString(n)[1..] == Digits(-n);
    } else {
      DigitsRoundTrip(n);
    }
  }

  /** `Integer.parseInt` of a rendered int: an optional minus sign, then decimal digits. */
  function IntValue(s: string): int
  {
    if |s| > 0 && s[0] == '-' then -DigitsValue(s[1..]) else DigitsValue(s)
  }

  /** Reading a rendered int back gives the int. */
  lemma IntValueRoundTrip(n: int)
    ensures IntValue(IntToString(n)) == n
  {
    IntToStringRoundTrip(n);
  }

  /** Java string concatenation renders a null string as "null". */
  function JavaString(s: Option<string>): string
  {
    match s
    case None => "null"
    case Some(v) => v
  }

  /** The fields of an ApplicationException. */
  datatype AppException = AppException(
    errorCode: int, detailedMessage: Option<string>, fieldName: Option<string>, className: Option<string>, index: Option<int>)
  {
    /** `getClassification`. */
    function GetClassification(): (r: int)
      ensures errorCode == r * CLASSIFICATION_FACTOR + JavaRem(errorCode, CLASSIFICATION_FACTOR)
    {
      Classification(errorCode)
    }

    /**
     * `getErrorDetails`: the detailed message if there is one; null when
     * there is no field, class or index either; otherwise
     * `className + "." + fieldName`, then `": " + index` when there is an index.
     */
    function GetErrorDetails(): (r: Option<string>)
      ensures detailedMessage.Some? ==> r == detailedMessage
      ensures r.None? <==> detailedMessage.None? && fieldName.None? && className.None? && index.None?
      ensures detailedMessage.None? && r.Some? ==>
        |r.value| >= |JavaString(className)| + 1 && r.value[..|JavaString(className)| + 1] == JavaString(className) + "."
      ensures detailedMessage.None? && r.Some? ==>
        var p := |JavaString(className)| + 1 + |JavaString(fieldName)|;
        p <= |r.value| && r.value[|JavaString(className)| + 1..p] == JavaString(fieldName) &&
        (index.None? ==> |r.value| == p) &&
        (index.Some? ==> r.value[p..] == ": " + IntToString(index.value))
    {
      if detailedMessage.Some? then detailedMessage
      else if fieldName.None? && className.None? && index.None? then None
      else
        var s := JavaString(className) + "." + JavaString(fieldName) + (if index.None? then "" else ": " + IntToString(index.value));
        var p := |JavaString(className)| + 1 + |JavaString(fieldName)|;
        assert s[..|JavaString(className)| + 1] == JavaString(className) + ".";
        assert s[|JavaString(className)| + 1..p] == JavaString(fieldName);
        Some(s)
    }
  }

  /**
   * Without a detailed message, the index can be read back from the end of
   * the details: the text after the class, the dot, the field and ": " is
   * the index's decimal rendering.
   */
  lemma ErrorDetailsIndex(e: AppException)
    requires e.detailedMessage.None? && e.index.Some?
    ensures var s := e.GetErrorDetails().value;
      var p := |JavaString(e.className)| + 1 + |JavaString(e.fieldName)| + 2;
      p <= |s| && s[p - 2..p] == ": " && IntValue(s[p..]) == e.index.value
  {
    var s := e.GetErrorDetails().value;
    var q := |JavaString(e.className)| + 1 + |JavaString(e.fieldName)|;
    var t := IntToString(e.index.value);
    assert s[q..] == ": " + t;
    assert s[q + 2..] == (": " + t)[2..] == t;
    assert s[q..q + 2] == (": " + t)[..2] == ": ";
    IntValueRoundTrip(e.index.value);
  }

  /** `ApplicationException(errorCode, fieldName, className, index)`. */
  function WithField(errorCode: int, fieldName: Option<string>, className: Option<string>, index: Option<int>): (e: AppException)
    ensures e.detailedMessage.None? && e.errorCode == errorCode
    ensures e.GetErrorDetails().None? <==> fieldName.None? && className.None? && index.None?
  {
    AppException(errorCode, None, fieldName, className, index)
  }

  /** `ApplicationException(errorCode, detailedMessage)`. */
  function WithMessage(errorCode: int, detailedMessage: Option<string>): (e: AppException)
    ensures e.errorCode == errorCode && e.GetErrorDetails() == detailedMessage
  {
    AppException(errorCode, detailedMessage, None, None, None)
  }

  /** `ApplicationException(errorCode)`. */
  function OfCode(errorCode: int): (e: AppException)
    ensures e.errorCode == errorCode && e.GetErrorDetails() == None
  {
    AppException(errorCode, None, None, None, None)
  }
}
