/**
 Server sequences (apps/web/src/gateway/server-sequence.ts): canonical decimals of the
 positive int64 numbers, compared as integers.
 */
module ServerSequence {
  import opened Wrappers
  import opened Text

  const MAX_SERVER_SEQUENCE: nat := 9223372036854775807
  const MAX_SEQUENCE_LENGTH: nat := 19

  type Sequence = n: int | 1 <= n <= MAX_SERVER_SEQUENCE witness 1

  datatype Error = UnconfirmedOrder

  function ParseServerSequence(value: string, allowZero: bool): Option<string> {
    if |value| > MAX_SEQUENCE_LENGTH || !IsCanonicalDecimal(value) then None
    else if Number(value) > MAX_SERVER_SEQUENCE || (!allowZero && Number(value) == 0) then None
    else Some(value)
  }

  function RequireServerSequence(value: string, allowZero: bool): Result<string, Error> {
    match ParseServerSequence(value, allowZero)
    case Some(sequence) => Ok(sequence)
    case None => Err(UnconfirmedOrder)
  }

  function CompareServerSequences(left: string, right: string): Result<int, Error> {
    match (RequireServerSequence(left, true), RequireServerSequence(right, true))
    case (Ok(l), Ok(r)) =>
      assert l == left && r == right;
      Ok(if Number(l) < Number(r) then -1 else if Number(l) > Number(r) then 1 else 0)
    case _ => Err(UnconfirmedOrder)
  }

  /** Every number of the range is accepted in exactly one spelling, its canonical print. */
  lemma AcceptsExactlyThePrints(value: string, allowZero: bool)
    ensures ParseServerSequence(value, allowZero).Some? <==>
            exists n: nat :: (allowZero || n > 0) && n <= 0x7FFF_FFFF_FFFF_FFFF && value == Digits(n)
    ensures ParseServerSequence(value, allowZero).Some? ==> ParseServerSequence(value, allowZero).value == value
  {
    if ParseServerSequence(value, allowZero).Some? {
      DigitsOfNumber(value);
      assert value == Digits(Number(value));
    }
    if n: nat :| (allowZero || n > 0) && n <= MAX_SERVER_SEQUENCE && value == Digits(n) {
      NumberOfDigits(n);
      LengthCutLosesNothing(value);
    }
  }

  /** The 19-character cut, made before the digits are read, excludes no value of the range. */
  lemma LengthCutLosesNothing(value: string)
    requires IsCanonicalDecimal(value) && Number(value) <= MAX_SERVER_SEQUENCE
    ensures |value| <= MAX_SEQUENCE_LENGTH
  {
    if |value| > MAX_SEQUENCE_LENGTH {
      NumberAtLeastPower(value);
      PowerMonotone(MAX_SEQUENCE_LENGTH, |value| - 1);
      PowerOf19();
    }
  }

  lemma PowerOf19()
    ensures Power10(19) == 10000000000000000000
  {
    assert Power10(5) == 100000;
    assert Power10(10) == 10000000000;
    assert Power10(15) == 1000000000000000;
  }

  /** The printed form and the number determine each other: a bijection onto 1..2^63-1. */
  lemma PrintParseRoundTrip(n: Sequence)
    ensures ParseServerSequence(Digits(n), false) == Some(Digits(n))
    ensures Number(Digits(n)) == n
  {
    NumberOfDigits(n);
    LengthCutLosesNothing(Digits(n));
  }

  lemma DistinctSpellingsDistinctSequences(a: string, b: string)
    requires ParseServerSequence(a, true).Some? && ParseServerSequence(b, true).Some?
    ensures a == b <==> Number(a) == Number(b)
  {
    DigitsOfNumber(a);
    DigitsOfNumber(b);
  }

  /** Integer order of two accepted sequences is length first, then string order. */
  lemma ComparisonIsLengthThenText(a: string, b: string)
    requires ParseServerSequence(a, true).Some? && ParseServerSequence(b, true).Some?
    ensures CompareServerSequences(a, b) ==
            Ok(if a == b then 0 else if |a| < |b| || (|a| == |b| && Before(a, b)) then -1 else 1)
  {
    DistinctSpellingsDistinctSequences(a, b);
    if |a| == |b| {
      FixedWidthOrder(a, b);
    } else if |a| < |b| {
      ShorterIsSmaller(a, b);
    } else {
      ShorterIsSmaller(b, a);
    }
  }

  lemma ShorterIsSmaller(a: string, b: string)
    requires IsCanonicalDecimal(a) && IsCanonicalDecimal(b) && |a| < |b|
    ensures Number(a) < Number(b)
  {
    NumberBelowPower(a);
    NumberAtLeastPower(b);
    PowerMonotone(|a|, |b| - 1);
  }
}
