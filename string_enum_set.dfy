/**
 * AbstractStringEnumSet: a set of enum values kept as a string of their
 * one-character tokens.  `assign` replaces the contents by clearing and
 * adding element by element; the iterator walks the token string left to
 * right and resolves each character by a linear search over the enum's
 * values.
 *
 * The parent class AbstractStringAnyEnumSet (which owns `addEnum`, `clear`
 * and the freeze flag) is not part of this model.  AddStep and ClearStep
 * below stand in for it: a token is appended when absent, and a frozen set
 * refuses only calls that would change it, as the bitmap sets do.
 */
module StringEnumSet {
  import opened Wrappers

  // ---------------------------------------------------------------------
  // The token string
  // ---------------------------------------------------------------------

  /** No token character occurs twice. */
  predicate NoDuplicates(s: string)
  {
    forall i, j :: 0 <= i < j < |s| ==> s[i] != s[j]
  }

  /** The characters of a token string. */
  function Chars(s: string): set<char>
  {
    set i | 0 <= i < |s| :: s[i]
  }

  /**
   * `addEnum` of a value with token t: t must be one character; a token
   * already present changes nothing and yields false; otherwise a frozen
   * set throws, and an unfrozen one gets the character appended.
   */
  function AddStep(contents: string, frozen: bool, token: string): (string, Result<bool>)
  {
    if |token| != 1 then (contents, Failure(IllegalArgument))
    else if token[0] in contents then (contents, Success(false))
    else if frozen then (contents, Failure(FrozenInstance))
    else (contents + token, Success(true))
  }

  /** `clear`: the empty string; a frozen set throws only when it is not already empty. */
  function ClearStep(contents: string, frozen: bool): (string, Result<()>)
  {
    if contents != [] && frozen then (contents, Failure(FrozenInstance)) else ([], Success(()))
  }

  /**
   * The loop of `assign`: `add` of each element in iteration order, stopping
   * at the first exception with every earlier addition kept.
   */
  function AddAll<E>(contents: string, frozen: bool, tokenOf: E -> string, elems: seq<E>): (string, Result<()>)
    decreases |elems|
  {
    if elems == [] then (contents, Success(()))
    else
      var (c, r) := AddStep(contents, frozen, tokenOf(elems[0]));
      if r.Failure? then (c, Failure(r.error))
      else AddAll(c, frozen, tokenOf, elems[1..])
  }

  // ---------------------------------------------------------------------
  // The set
  // ---------------------------------------------------------------------

  class TokenEnumSet<E> {
    /** `getToken()` of each enum value. */
    const tokenOf: E -> string
    /** The token string: the Java field `bitmap`. */
    var bitmap: string
    var wasFrozen: bool

    /** The no-argument constructor: the empty set. */
    constructor (tokenOf: E -> string)
      ensures this.tokenOf == tokenOf && bitmap == [] && !wasFrozen
    {
      this.tokenOf := tokenOf;
      bitmap := [];
      wasFrozen := false;
    }

    /** The constructor taking a token string as it is. */
    constructor FromBitmap(tokenOf: E -> string, bitmap: string)
      ensures this.tokenOf == tokenOf && this.bitmap == bitmap && !wasFrozen
    {
      this.tokenOf := tokenOf;
      this.bitmap := bitmap;
      wasFrozen := false;
    }

    method Freeze()
      modifies this`wasFrozen
      ensures wasFrozen
    {
      wasFrozen := true;
    }

    /** `add(e)`, which delegates to `addEnum(e)`. */
    method Add(e: E) returns (r: Result<bool>)
      modifies this`bitmap
      ensures (bitmap, r) == AddStep(old(bitmap), wasFrozen, tokenOf(e))
    {
      var t := tokenOf(e);
      if |t| != 1 {
        return Failure(IllegalArgument);
      }
      if t[0] in bitmap {
        return Success(false);
      }
      if wasFrozen {
        return Failure(FrozenInstance);
      }
      bitmap := bitmap + t;
      return Success(true);
    }

    method Clear() returns (r: Result<()>)
      modifies this`bitmap
      ensures (bitmap, r) == ClearStep(old(bitmap), wasFrozen)
    {
      if bitmap != [] {
        if wasFrozen {
          return Failure(FrozenInstance);
        }
        bitmap := [];
      }
      return Success(());
    }

    /**
     * `assign(that)`: clear, then add the elements of `that` (None is a
     * `null` collection) in order; an exception part-way leaves the
     * earlier additions in place.
     */
    method Assign(that: Option<seq<E>>) returns (r: Result<()>)
      modifies this`bitmap
      ensures old(bitmap) != [] && wasFrozen ==> r == Failure(FrozenInstance) && bitmap == old(bitmap)
      ensures (old(bitmap) == [] || !wasFrozen) && that.None? ==> r == Success(()) && bitmap == []
      ensures (old(bitmap) == [] || !wasFrozen) && that.Some? ==>
        (bitmap, r) == AddAll([], wasFrozen, tokenOf, that.value)
    {
      var c := Clear();
      if c.Failure? {
        return c;
      }
      if that.Some? {
        var elems := that.value;
        var i := 0;
        while i < |elems|
          modifies this`bitmap
          invariant 0 <= i <= |elems|
          invariant AddAll([], wasFrozen, tokenOf, elems) == AddAll(bitmap, wasFrozen, tokenOf, elems[i..])
        {
          assert elems[i..][1..] == elems[i + 1..];
          var a := Add(elems[i]);
          if a.Failure? {
            return Failure(a.error);
          }
          i := i + 1;
        }
      }
      return Success(());
    }
  }

  // ---------------------------------------------------------------------
  // Properties of add and assign
  // ---------------------------------------------------------------------

  /**
   * What `add` promises: true iff the token was new, the token's character
   * is present afterwards, nothing else changes, and the string stays
   * duplicate-free.
   */
  lemma AddStepSpec(contents: string, frozen: bool, token: string)
    ensures var (c, r) := AddStep(contents, frozen, token);
      (r == Success(true) ==> |token| == 1 && token[0] !in contents && Chars(c) == Chars(contents) + {token[0]})
      && (r == Success(false) <==> |token| == 1 && token[0] in contents)
      && (r.Success? ==> token[0] in c)
      && (r.Failure? ==> c == contents)
      && (r == Failure(FrozenInstance) <==> frozen && |token| == 1 && token[0] !in contents)
      && (NoDuplicates(contents) ==> NoDuplicates(c))
  {
    var (c, r) := AddStep(contents, frozen, token);
    if r == Success(true) {
      assert c == contents + token;
      assert c[|contents|] == token[0];
      forall x | x in Chars(c) ensures x in Chars(contents) + {token[0]} {
        var i :| 0 <= i < |c| && c[i] == x;
        if i < |contents| { assert contents[i] == x; }
      }
      forall x | x in Chars(contents) ensures x in Chars(c) {
        var i :| 0 <= i < |contents| && contents[i] == x;
        assert c[i] == x;
      }
    }
    if r.Success? && r.value == false {
      assert token[0] in contents;
    }
  }

  /** A successful assign holds exactly the tokens of the collection, without duplicates. */
  lemma {:induction false} AddAllSuccess<E>(contents: string, frozen: bool, tokenOf: E -> string, elems: seq<E>)
    requires NoDuplicates(contents)
    ensures var (c, r) := AddAll(contents, frozen, tokenOf, elems);
      r.Success? ==> (NoDuplicates(c)
        && (forall k :: 0 <= k < |elems| ==> |tokenOf(elems[k])| == 1 && tokenOf(elems[k])[0] in c)
        && (forall x :: x in Chars(c) ==> x in Chars(contents) || exists k :: 0 <= k < |elems| && tokenOf(elems[k]) == [x]))
    decreases |elems|
  {
    if elems != [] {
      var (c0, r0) := AddStep(contents, frozen, tokenOf(elems[0]));
      AddStepSpec(contents, frozen, tokenOf(elems[0]));
      if r0.Success? {
        AddAllSuccess(c0, frozen, tokenOf, elems[1..]);
        AddAllKeeps(c0, frozen, tokenOf, elems[1..], tokenOf(elems[0])[0]);
        var (c, r) := AddAll(c0, frozen, tokenOf, elems[1..]);
        if r.Success? {
          forall k | 0 <= k < |elems| ensures |tokenOf(elems[k])| == 1 && tokenOf(elems[k])[0] in c {
            if k > 0 { assert elems[k] == elems[1..][k - 1]; }
          }
          forall x | x in Chars(c) ensures x in Chars(contents) || exists k :: 0 <= k < |elems| && tokenOf(elems[k]) == [x] {
            if x !in Chars(c0) {
              var k :| 0 <= k < |elems[1..]| && tokenOf(elems[1..][k]) == [x];
              assert tokenOf(elems[k + 1]) == [x];
            } else if x !in Chars(contents) {
              assert tokenOf(elems[0]) == [x];
            }
          }
        }
      }
    }
  }

  /** Adding never removes a character. */
  lemma {:induction false} AddAllKeeps<E>(contents: string, frozen: bool, tokenOf: E -> string, elems: seq<E>, x: char)
    requires x in contents
    ensures x in AddAll(contents, frozen, tokenOf, elems).0
    decreases |elems|
  {
    if elems != [] {
      var (c0, r0) := AddStep(contents, frozen, tokenOf(elems[0]));
      if r0.Success? {
        if c0 != contents {
          assert c0 == contents + tokenOf(elems[0]);
          var i :| 0 <= i < |contents| && contents[i] == x;
          assert c0[i] == x;
        }
        AddAllKeeps(c0, frozen, tokenOf, elems[1..], x);
      }
    }
  }

  /**
   * `assign` is not atomic: when it fails, the set holds what the elements
   * before the failing one added, and adding the failing one is what threw.
   */
  lemma {:induction false} AddAllPartial<E>(contents: string, frozen: bool, tokenOf: E -> string, elems: seq<E>)
    requires AddAll(contents, frozen, tokenOf, elems).1.Failure?
    ensures exists k :: (0 <= k < |elems|
      && AddAll(contents, frozen, tokenOf, elems[..k]).1.Success?
      && AddAll(contents, frozen, tokenOf, elems[..k]).0 == AddAll(contents, frozen, tokenOf, elems).0
      && AddStep(AddAll(contents, frozen, tokenOf, elems[..k]).0, frozen, tokenOf(elems[k])).1.Failure?)
    decreases |elems|
  {
    var (c0, r0) := AddStep(contents, frozen, tokenOf(elems[0]));
    if r0.Failure? {
      assert elems[..0] == [];
    } else {
      var rest := elems[1..];
      AddAllPartial(c0, frozen, tokenOf, rest);
      var k :| 0 <= k < |rest|
        && AddAll(c0, frozen, tokenOf, rest[..k]).1.Success?
        && AddAll(c0, frozen, tokenOf, rest[..k]).0 == AddAll(c0, frozen, tokenOf, rest).0
        && AddStep(AddAll(c0, frozen, tokenOf, rest[..k]).0, frozen, tokenOf(rest[k])).1.Failure?;
      assert elems[..k + 1][1..] == rest[..k];
      assert elems[..k + 1][0] == elems[0];
      assert rest[k] == elems[k + 1];
    }
  }

  // ---------------------------------------------------------------------
  // SetOfEnumsIterator
  // ---------------------------------------------------------------------

  /** getValue's answer: the first value whose token equals `token`, or None. */
  function Lookup<E>(values: seq<E>, tokenOf: E -> string, token: string): Option<E>
  {
    if values == [] then None
    else if token == tokenOf(values[0]) then Some(values[0])
    else Lookup(values[1..], tokenOf, token)
  }

  /** Lookup finds the first matching value, and finds nothing exactly when no value matches. */
  lemma {:induction false} LookupSpec<E>(values: seq<E>, tokenOf: E -> string, token: string)
    ensures Lookup(values, tokenOf, token).None? <==> forall i :: 0 <= i < |values| ==> tokenOf(values[i]) != token
    ensures Lookup(values, tokenOf, token).Some? ==> exists i :: (0 <= i < |values|
      && values[i] == Lookup(values, tokenOf, token).value && tokenOf(values[i]) == token
      && forall j :: 0 <= j < i ==> tokenOf(values[j]) != token)
  {
    if values != [] && token != tokenOf(values[0]) {
      var rest := values[1..];
      LookupSpec(rest, tokenOf, token);
      assert forall i :: 0 < i < |values| ==> values[i] == rest[i - 1];
      if Lookup(rest, tokenOf, token).Some? {
        var i :| 0 <= i < |rest| && rest[i] == Lookup(rest, tokenOf, token).value && tokenOf(rest[i]) == token
          && forall j :: 0 <= j < i ==> tokenOf(rest[j]) != token;
        assert values[i + 1] == rest[i];
      }
    }
  }

  /** The values the iterator resolves the characters of s to, in storage order. */
  function Resolved<E>(values: seq<E>, tokenOf: E -> string, s: string): seq<Option<E>>
  {
    if s == [] then [] else Resolved(values, tokenOf, s[..|s| - 1]) + [Lookup(values, tokenOf, [s[|s| - 1]])]
  }

  /**
   * The iterator over the live token string: `index` counts the characters
   * already consumed; `yielded` is what they resolved to.
   */
  class TokenIterator<E> {
    const values: seq<E>
    const tokenOf: E -> string
    const bitmap: string
    var index: nat
    ghost var yielded: seq<Option<E>>

    ghost predicate Valid()
      reads this
    {
      index <= |bitmap| && yielded == Resolved(values, tokenOf, bitmap[..index])
    }

    constructor (values: seq<E>, tokenOf: E -> string, bitmap: string)
      ensures Valid() && this.values == values && this.tokenOf == tokenOf && this.bitmap == bitmap
      ensures index == 0 && yielded == []
    {
      this.values := values;
      this.tokenOf := tokenOf;
      this.bitmap := bitmap;
      index := 0;
      yielded := [];
      new;
      assert bitmap[..0] == [];
    }

    /** `getValue`: a linear search over `values` for the first entry with this token. */
    method GetValue(token: string) returns (r: Option<E>)
      ensures r == Lookup(values, tokenOf, token)
    {
      var i := 0;
      while i < |values|
        invariant 0 <= i <= |values|
        invariant Lookup(values, tokenOf, token) == Lookup(values[i..], tokenOf, token)
      {
        assert values[i..][1..] == values[i + 1..];
        if token == tokenOf(values[i]) {
          return Some(values[i]);
        }
        i := i + 1;
      }
      return None;
    }

    /** `hasNext`: characters remain; when it fails, the whole string has been resolved. */
    function HasNext(): (r: bool)
      reads this
      requires Valid()
      ensures r <==> |yielded| < |bitmap|
      ensures !r ==> yielded == Resolved(values, tokenOf, bitmap)
    {
      ResolvedLength(values, tokenOf, bitmap[..index]);
      assert index == |bitmap| ==> bitmap[..index] == bitmap;
      index < |bitmap|
    }

    /**
     * `next`: NoSuchElementException at the end of the string; otherwise the
     * index moves on by one and the value of the character it passed is
     * returned, or NoSuchElementException when no value has that token.
     */
    method Next() returns (r: Result<E>)
      requires Valid()
      modifies this`index, this`yielded
      ensures Valid()
      ensures old(index) == |bitmap| ==>
        r == Failure(NoSuchElement) && index == old(index) && yielded == old(yielded)
      ensures old(index) < |bitmap| ==>
        index == old(index) + 1
        && yielded == old(yielded) + [Lookup(values, tokenOf, [bitmap[old(index)]])]
        && r == (match Lookup(values, tokenOf, [bitmap[old(index)]])
                 case Some(e) => Success(e)
                 case None => Failure(NoSuchElement))
    {
      if |bitmap| <= index {
        return Failure(NoSuchElement);
      }
      index := index + 1;
      var next := GetValue(bitmap[index - 1..index]);
      assert bitmap[index - 1..index] == [bitmap[index - 1]];
      assert bitmap[..index][..index - 1] == bitmap[..index - 1];
      yielded := yielded + [next];
      if next.None? {
        return Failure(NoSuchElement);
      }
      return Success(next.value);
    }

    method Remove() returns (r: Result<()>)
      ensures r == Failure(UnsupportedOperation)
    {
      return Failure(UnsupportedOperation);
    }
  }

  lemma {:induction false} ResolvedLength<E>(values: seq<E>, tokenOf: E -> string, s: string)
    ensures |Resolved(values, tokenOf, s)| == |s|
  {
    if s != [] { ResolvedLength(values, tokenOf, s[..|s| - 1]); }
  }

  /** Some value has the one-character token c. */
  predicate HasValue<E>(values: seq<E>, tokenOf: E -> string, c: char)
  {
    exists i :: 0 <= i < |values| && tokenOf(values[i]) == [c]
  }

  /** When every character of the string has a value, every step of the iteration yields one with that token. */
  lemma {:induction false} ResolvedHits<E>(values: seq<E>, tokenOf: E -> string, s: string)
    requires forall k :: 0 <= k < |s| ==> HasValue(values, tokenOf, s[k])
    ensures |Resolved(values, tokenOf, s)| == |s|
    ensures forall k :: 0 <= k < |s| ==>
      Resolved(values, tokenOf, s)[k].Some? && tokenOf(Resolved(values, tokenOf, s)[k].value) == [s[k]]
  {
    if s != [] {
      var p := s[..|s| - 1];
      var last := s[|s| - 1];
      assert forall k :: 0 <= k < |p| ==> p[k] == s[k];
      ResolvedHits(values, tokenOf, p);
      LookupHit(values, tokenOf, last);
      var r := Resolved(values, tokenOf, p);
      var v := Lookup(values, tokenOf, [last]);
      assert Resolved(values, tokenOf, s) == r + [v];
      forall k | 0 <= k < |s|
        ensures Resolved(values, tokenOf, s)[k].Some? && tokenOf(Resolved(values, tokenOf, s)[k].value) == [s[k]]
      {
        if k < |p| { assert Resolved(values, tokenOf, s)[k] == r[k]; }
      }
    }
  }

  /** A character that some value has as its token is found by lookup. */
  lemma LookupHit<E>(values: seq<E>, tokenOf: E -> string, c: char)
    requires HasValue(values, tokenOf, c)
    ensures Lookup(values, tokenOf, [c]).Some? && tokenOf(Lookup(values, tokenOf, [c]).value) == [c]
  {
    LookupSpec(values, tokenOf, [c]);
  }
}
