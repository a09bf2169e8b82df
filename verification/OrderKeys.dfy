/** Sibling order keys: big-endian u16 digits and the allocation of a key between two others. */
module OrderKeys {
  import opened Basics

  const DIGIT_MAX: nat := 65535
  const DEFAULT_BOUNDARY: nat := 10

  type Digit = d: nat | d <= 65535

  // ----- digits and bytes -----

  function Encoded(ds: seq<Digit>): Bytes {
    if ds == [] then [] else [ds[0] / 256, ds[0] % 256] + Encoded(ds[1..])
  }

  function Decoded(bs: Bytes): seq<Digit>
    requires |bs| % 2 == 0
  {
    if bs == [] then [] else
      var high: nat := bs[0];
      [high * 256 + bs[1]] + Decoded(bs[2..])
  }

  lemma {:induction false} DecodeEncode(ds: seq<Digit>)
    ensures |Encoded(ds)| == 2 * |ds| && Decoded(Encoded(ds)) == ds
  {
    if ds != [] {
      DecodeEncode(ds[1..]);
      assert Encoded(ds)[2..] == Encoded(ds[1..]);
    }
  }

  lemma {:induction false} EncodeDecode(bs: Bytes)
    requires |bs| % 2 == 0
    ensures Encoded(Decoded(bs)) == bs && 2 * |Decoded(bs)| == |bs|
  {
    if bs != [] {
      EncodeDecode(bs[2..]);
      assert Decoded(bs)[1..] == Decoded(bs[2..]);
      assert bs == [bs[0], bs[1]] + bs[2..];
    }
  }

  /** Keys compare as bytes the way they compare as digits. */
  lemma {:induction false} EncodeOrder(a: seq<Digit>, b: seq<Digit>)
    ensures LexLess(Encoded(a), Encoded(b)) <==> LexLess(a, b)
  {
    if a != [] && b != [] {
      EncodeOrder(a[1..], b[1..]);
      var x: seq<nat>, y: seq<nat> := [a[0] / 256, a[0] % 256], [b[0] / 256, b[0] % 256];
      assert Encoded(a) == x + Encoded(a[1..]) && Encoded(b) == y + Encoded(b[1..]);
      if a[0] == b[0] {
        LexPrefix(x, Encoded(a[1..]), Encoded(b[1..]));
      } else {
        assert Encoded(a)[1..][0] == a[0] % 256 && Encoded(b)[1..][0] == b[0] % 256;
        assert LexLess(Encoded(a), Encoded(b)) <==>
               a[0] / 256 < b[0] / 256 || (a[0] / 256 == b[0] / 256 && a[0] % 256 < b[0] % 256) by {
          assert a[0] / 256 != b[0] / 256 || a[0] % 256 != b[0] % 256;
        }
      }
    }
  }

  method EncodeDigits(digits: seq<Digit>) returns (out: Bytes)
    ensures out == Encoded(digits)
  {
    out := [];
    for i := 0 to |digits|
      invariant out + Encoded(digits[i..]) == Encoded(digits)
    {
      out := out + [digits[i] / 256, digits[i] % 256];
      assert digits[i..][1..] == digits[i + 1..];
    }
  }

  // ----- allocation -----

  datatype Allocation = Allocated(key: Bytes) | OddLength | RightBelowLeft | DigitOverflow

  /** The left bound continues with zeros, the right one with the largest digit. */
  function LeftDigit(l: seq<Digit>, i: nat): Digit {
    if i < |l| then l[i] else 0
  }

  function RightDigit(r: seq<Digit>, i: nat): Digit {
    if i < |r| then r[i] else 65535
  }

  /** No digit fits between the bounds at this depth, and the walk goes one digit deeper. */
  predicate Tight(l: seq<Digit>, r: seq<Digit>, i: nat) {
    LeftDigit(l, i) <= RightDigit(r, i) <= LeftDigit(l, i) + 1 && LeftDigit(l, i) != DIGIT_MAX
  }

  function Longest(l: seq<Digit>, r: seq<Digit>): nat {
    if |l| < |r| then |r| else |l|
  }

  function StopFrom(l: seq<Digit>, r: seq<Digit>, i: nat): (d: nat)
    requires i <= Longest(l, r)
    ensures i <= d <= Longest(l, r) && !Tight(l, r, d) && forall e :: i <= e < d ==> Tight(l, r, e)
    decreases Longest(l, r) - i
  {
    if Tight(l, r, i) then StopFrom(l, r, i + 1) else i
  }

  /** The first depth that is not tight; padding makes one exist within the longer key's length. */
  function StopDepth(l: seq<Digit>, r: seq<Digit>): (d: nat)
    ensures d <= Longest(l, r) && !Tight(l, r, d) && forall e :: 0 <= e < d ==> Tight(l, r, e)
  {
    StopFrom(l, r, 0)
  }

  function PaddedLeft(l: seq<Digit>, d: nat): seq<Digit> {
    seq(d, i requires 0 <= i < d => LeftDigit(l, i))
  }

  function Digits(bound: Option<Bytes>): seq<Digit>
    requires bound.Some? ==> |bound.value| % 2 == 0
  {
    if bound.Some? then Decoded(bound.value) else []
  }

  method ChooseInRange(sample: nat, lo: Digit, hi: Digit) returns (digit: Digit)
    requires lo <= hi
    ensures lo <= digit <= hi
  {
    if lo == hi { return lo; }
    var n := sample % (hi - lo + 1);
    digit := lo + n;
  }

  /** The bounds alone decide whether an allocation fails. */
  predicate CannotAllocate(left: Option<Bytes>, right: Option<Bytes>) {
    if (left.Some? && |left.value| % 2 == 1) || (right.Some? && |right.value| % 2 == 1) then true
    else
      var l, r := Digits(left), Digits(right);
      var d := StopDepth(l, r);
      RightDigit(r, d) < LeftDigit(l, d) || LeftDigit(l, d) == DIGIT_MAX
  }

  /** `samples(depth)` stands for the seeded hash. The outcome is exact on all inputs; a digit
      addition that leaves u16 is reported as DigitOverflow. */
  method AllocateBetween(left: Option<Bytes>, right: Option<Bytes>, samples: nat -> nat) returns (a: Allocation)
    ensures a == OddLength <==> (left.Some? && |left.value| % 2 == 1) || (right.Some? && |right.value| % 2 == 1)
    ensures !a.Allocated? <==> CannotAllocate(left, right)
    ensures a != OddLength ==>
      var l, r := Digits(left), Digits(right);
      var d := StopDepth(l, r);
      && (a == RightBelowLeft <==> RightDigit(r, d) < LeftDigit(l, d))
      && (a == DigitOverflow <==> LeftDigit(l, d) == RightDigit(r, d) == DIGIT_MAX)
      && (a.Allocated? ==> exists x: Digit ::
            && LeftDigit(l, d) < x < RightDigit(r, d) && a.key == Encoded(PaddedLeft(l, d) + [x])
            && if samples(d) % 2 == 0 then x <= LeftDigit(l, d) + DEFAULT_BOUNDARY
               else RightDigit(r, d) <= x + DEFAULT_BOUNDARY)
  {
    if (left.Some? && |left.value| % 2 == 1) || (right.Some? && |right.value| % 2 == 1) { return OddLength; }
    var l, r := Digits(left), Digits(right);
    var out: seq<Digit> := [];
    var depth := 0;
    while true
      invariant depth <= Longest(l, r)
      invariant forall e :: 0 <= e < depth ==> Tight(l, r, e)
      invariant out == PaddedLeft(l, depth)
      decreases Longest(l, r) - depth
    {
      var ld, rd := LeftDigit(l, depth), RightDigit(r, depth);
      StopUnique(l, r, depth);
      if rd < ld { return RightBelowLeft; }
      if ld == DIGIT_MAX { return DigitOverflow; }
      if rd > ld + 1 {
        var gap := rd - ld - 1;
        var boundary := if gap < DEFAULT_BOUNDARY then gap else DEFAULT_BOUNDARY;
        var lo, hi := ld + 1, rd - 1;
        if gap > boundary {
          if samples(depth) % 2 == 0 { hi := ld + boundary; } else { lo := rd - boundary; }
        }
        var digit := ChooseInRange(samples(depth), lo, hi);
        var key := EncodeDigits(out + [digit]);
        return Allocated(key);
      }
      out := out + [ld];
      depth := depth + 1;
    }
  }

  lemma StopUnique(l: seq<Digit>, r: seq<Digit>, d: nat)
    requires forall e :: 0 <= e < d ==> Tight(l, r, e)
    ensures !Tight(l, r, d) ==> d == StopDepth(l, r)
  {
    var s := StopDepth(l, r);
    if d < s { assert Tight(l, r, d); }
  }

  // ----- well-formed keys -----

  predicate WellFormedDigits(ds: seq<Digit>) {
    ds != [] && ds[|ds| - 1] != 0 && forall i :: 0 <= i < |ds| ==> ds[i] != DIGIT_MAX
  }

  predicate WellFormedKey(key: Bytes) {
    |key| % 2 == 0 && WellFormedDigits(Decoded(key))
  }

  predicate WellFormedBound(b: Option<Bytes>) {
    b.Some? ==> WellFormedKey(b.value)
  }

  /** left < right, where an absent bound is no constraint. */
  predicate BoundsOrdered(left: Option<Bytes>, right: Option<Bytes>) {
    left.Some? && right.Some? ==> LexLess(left.value, right.value)
  }

  /** What AllocateBetween may return as a key. */
  ghost predicate AllocatedFrom(left: Option<Bytes>, right: Option<Bytes>, key: Bytes)
    requires WellFormedBound(left) && WellFormedBound(right)
  {
    var l, r := Digits(left), Digits(right);
    var d := StopDepth(l, r);
    exists x: Digit :: LeftDigit(l, d) < x < RightDigit(r, d) && key == Encoded(PaddedLeft(l, d) + [x])
  }

  lemma AboveLeft(l: seq<Digit>, d: nat, x: Digit)
    requires LeftDigit(l, d) < x
    ensures LexLess(l, PaddedLeft(l, d) + [x])
  {
    var out := PaddedLeft(l, d) + [x];
    if |l| <= d {
      assert out == l + out[|l|..];
      assert l == l + [];
      LexPrefix(l, [], out[|l|..]);
    } else {
      assert out == l[..d] + [x] && l == l[..d] + l[d..];
      LexPrefix(l[..d], l[d..], [x]);
    }
  }

  /** A bound that agrees with the padded left one over its whole length is no upper bound. */
  lemma PrefixNotAbove(l: seq<Digit>, r: seq<Digit>)
    requires WellFormedDigits(r) && forall i :: 0 <= i < |r| ==> r[i] == LeftDigit(l, i)
    ensures !LexLess(l, r)
  {
    assert r[|r| - 1] == LeftDigit(l, |r| - 1);
    assert l == r + l[|r|..];
    if LexLess(l, r) {
      assert r == r + [];
      LexPrefix(r, l[|r|..], []);
    }
  }

  lemma DiffersAt(a: seq<Digit>, b: seq<Digit>, e: nat)
    requires e < |a| && e < |b| && a[..e] == b[..e] && a[e] < b[e]
    ensures LexLess(a, b)
  {
    assert a == a[..e] + a[e..] && b == a[..e] + b[e..];
    LexPrefix(a[..e], a[e..], b[e..]);
  }

  /** The first depth before d where the bounds differ, or d. */
  lemma FirstDifference(l: seq<Digit>, r: seq<Digit>, d: nat) returns (e: nat)
    ensures e <= d && (forall i :: 0 <= i < e ==> RightDigit(r, i) == LeftDigit(l, i))
    ensures e < d ==> RightDigit(r, e) != LeftDigit(l, e)
  {
    e := 0;
    while e < d && RightDigit(r, e) == LeftDigit(l, e)
      invariant e <= d && forall i :: 0 <= i < e ==> RightDigit(r, i) == LeftDigit(l, i)
    {
      e := e + 1;
    }
  }

  lemma BelowRight(l: seq<Digit>, r: seq<Digit>, x: Digit)
    requires WellFormedDigits(r) && LexLess(l, r)
    requires x < RightDigit(r, StopDepth(l, r))
    ensures LexLess(PaddedLeft(l, StopDepth(l, r)) + [x], r)
  {
    var d := StopDepth(l, r);
    var out := PaddedLeft(l, d) + [x];
    var e := FirstDifference(l, r, d);
    if e >= |r| {
      forall i | 0 <= i < |r| ensures r[i] == LeftDigit(l, i) { assert RightDigit(r, i) == LeftDigit(l, i); }
      PrefixNotAbove(l, r);
      assert false;
    } else {
      forall i | 0 <= i < e ensures out[i] == r[i] { assert RightDigit(r, i) == LeftDigit(l, i); }
      assert out[..e] == r[..e];
      if e < d { assert Tight(l, r, e); }
      DiffersAt(out, r, e);
    }
  }

  /** Every allocated key lies strictly between its bounds as bytes, is well formed again, and has
      at most one digit more than the longer bound. */
  lemma AllocatedIsBetween(left: Option<Bytes>, right: Option<Bytes>, key: Bytes)
    requires WellFormedBound(left) && WellFormedBound(right) && BoundsOrdered(left, right)
    requires AllocatedFrom(left, right, key)
    ensures left.Some? ==> LexLess(left.value, key)
    ensures right.Some? ==> LexLess(key, right.value)
    ensures WellFormedKey(key)
    ensures |key| <= 2 * (Longest(Digits(left), Digits(right)) + 1)
  {
    var l, r := Digits(left), Digits(right);
    var d := StopDepth(l, r);
    var x: Digit :| LeftDigit(l, d) < x < RightDigit(r, d) && key == Encoded(PaddedLeft(l, d) + [x]);
    var out := PaddedLeft(l, d) + [x];
    OutIsWellFormed(l, r, x);
    if left.Some? {
      AboveLeft(l, d, x);
      BytesOrder(left.value, out);
    }
    if right.Some? {
      EmptyBelow(r);
      if left.Some? { EncodeDecode(left.value); BytesOrder(right.value, l); }
      BelowRight(l, r, x);
      BytesOrder(right.value, out);
    }
  }

  lemma OutIsWellFormed(l: seq<Digit>, r: seq<Digit>, x: Digit)
    requires LeftDigit(l, StopDepth(l, r)) < x < RightDigit(r, StopDepth(l, r))
    ensures
      var out := PaddedLeft(l, StopDepth(l, r)) + [x];
      WellFormedKey(Encoded(out)) && |Encoded(out)| <= 2 * (Longest(l, r) + 1)
  {
    var d := StopDepth(l, r);
    var out := PaddedLeft(l, d) + [x];
    DecodeEncode(out);
    forall i | 0 <= i < |out| ensures out[i] != DIGIT_MAX {
      if i < d { assert Tight(l, r, i); }
    }
  }

  lemma EmptyBelow(r: seq<Digit>)
    requires r != []
    ensures LexLess([], r)
  {
  }

  lemma BytesOrder(key: Bytes, ds: seq<Digit>)
    requires |key| % 2 == 0
    ensures LexLess(key, Encoded(ds)) <==> LexLess(Decoded(key), ds)
    ensures LexLess(Encoded(ds), key) <==> LexLess(ds, Decoded(key))
  {
    EncodeDecode(key);
    EncodeOrder(Decoded(key), ds);
    EncodeOrder(ds, Decoded(key));
  }

  /** Up to depth e every padded gap is 0 or 1. */
  predicate GapsTight(l: seq<Digit>, r: seq<Digit>, e: nat) {
    forall i :: 0 <= i < e ==> 0 <= RightDigit(r, i) - LeftDigit(l, i) <= 1
  }

  /** Well-formed bounds never overflow a digit, and the only failure is a right digit below the
      left one after a run of gaps of 0 or 1; so an absent bound never fails. */
  lemma WhenAllocationFails(left: Option<Bytes>, right: Option<Bytes>)
    requires WellFormedBound(left) && WellFormedBound(right)
    ensures
      var l, r := Digits(left), Digits(right);
      var d := StopDepth(l, r);
      && !(LeftDigit(l, d) == RightDigit(r, d) == DIGIT_MAX)
      && (left.None? || right.None? ==> RightDigit(r, d) > LeftDigit(l, d) + 1)
      && (RightDigit(r, d) < LeftDigit(l, d) <==>
          exists e: nat :: RightDigit(r, e) < LeftDigit(l, e) && GapsTight(l, r, e))
  {
    var l, r := Digits(left), Digits(right);
    var d := StopDepth(l, r);
    assert forall i: nat :: LeftDigit(l, i) != DIGIT_MAX;
    if e: nat :| RightDigit(r, e) < LeftDigit(l, e) && GapsTight(l, r, e) {
      forall i | 0 <= i < e ensures Tight(l, r, i) { assert 0 <= RightDigit(r, i) - LeftDigit(l, i) <= 1; }
      StopUnique(l, r, e);
    }
    if RightDigit(r, d) < LeftDigit(l, d) {
      forall i | 0 <= i < d ensures 0 <= RightDigit(r, i) - LeftDigit(l, i) <= 1 { assert Tight(l, r, i); }
    }
  }

  /** Allocation can fail although a key between the bounds exists. */
  lemma OrderedBoundsCanFail()
    ensures
      var l: seq<Digit>, r: seq<Digit> := [5, 9], [6, 3];
      && WellFormedKey(Encoded(l)) && WellFormedKey(Encoded(r))
      && LexLess(Encoded(l), Encoded([5, 10])) && LexLess(Encoded([5, 10]), Encoded(r))
      && StopDepth(l, r) == 1 && RightDigit(r, 1) < LeftDigit(l, 1)
  {
    var l: seq<Digit>, r: seq<Digit>, m: seq<Digit> := [5, 9], [6, 3], [5, 10];
    DecodeEncode(l); DecodeEncode(r);
    DiffersAt(l, m, 1); DiffersAt(m, r, 0);
    EncodeOrder(l, m); EncodeOrder(m, r);
    assert Tight(l, r, 0);
    StopUnique(l, r, 1);
  }
}
