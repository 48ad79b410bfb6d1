/**
  Sample ranges: a half-open window [from, to) of sample offsets, and the two
  orders defined on it. The constructor stores both ends without checking that
  from <= to, so length() is the size_t difference, which wraps modulo 2^64.
*/
module Ranges {
  import opened Types

  datatype SampleRange = SampleRange(from: uint64, to: uint64)

  /** length(): to - from in size_t arithmetic. */
  function Length(r: SampleRange): (n: uint64)
    ensures r.from <= r.to ==> n == r.to - r.from
    ensures r.to < r.from ==> n == TWO_64 - (r.from - r.to)
  {
    (r.to - r.from) % TWO_64
  }

  /** Offset k lies inside the window of r. */
  predicate Contains(r: SampleRange, k: int) {
    r.from <= k < r.to
  }

  /** Range::operator<: compares the start offsets only. */
  predicate FromLess(a: SampleRange, b: SampleRange) {
    a.from < b.from
  }

  /** SampleRange::operator<: by length, and by start offset between equal lengths. */
  predicate Less(a: SampleRange, b: SampleRange) {
    if Length(a) == Length(b) then a.from < b.from else Length(a) < Length(b)
  }

  /** A range is determined by its start and its length, even when its length wrapped. */
  lemma LengthDeterminesEnd(a: SampleRange, b: SampleRange)
    requires a.from == b.from && Length(a) == Length(b)
    ensures a == b
  {
  }

  /** A shorter range is smaller; at equal length the one starting earlier is smaller. */
  lemma LessIsLexicographic(a: SampleRange, b: SampleRange)
    ensures Length(a) < Length(b) ==> Less(a, b)
    ensures Length(a) == Length(b) ==> (Less(a, b) <==> a.from < b.from)
    ensures Length(b) < Length(a) ==> !Less(a, b)
    ensures Less(a, b) <==> Length(a) * TWO_64 + a.from < Length(b) * TWO_64 + b.from
  {
  }

  lemma LessIrreflexive(a: SampleRange)
    ensures !Less(a, a)
  {
  }

  lemma LessAsymmetric(a: SampleRange, b: SampleRange)
    ensures Less(a, b) ==> !Less(b, a)
  {
  }

  lemma LessTransitive(a: SampleRange, b: SampleRange, c: SampleRange)
    ensures Less(a, b) && Less(b, c) ==> Less(a, c)
  {
  }

  /** Not-less is transitive too: the order is total, so "not less" means "greater or equal". */
  lemma NotLessTransitive(a: SampleRange, b: SampleRange, c: SampleRange)
    ensures !Less(a, b) && !Less(b, c) ==> !Less(a, c)
  {
  }

  /** Two ranges are incomparable exactly when they are the same range. */
  lemma IncomparableIffEqual(a: SampleRange, b: SampleRange)
    ensures !Less(a, b) && !Less(b, a) <==> a == b
  {
    if !Less(a, b) && !Less(b, a) {
      LengthDeterminesEnd(a, b);
    }
  }

  /** Between ranges of equal length the two orders agree. */
  lemma LessRefinesFromLess(a: SampleRange, b: SampleRange)
    requires Length(a) == Length(b)
    ensures Less(a, b) <==> FromLess(a, b)
  {
  }

  /** The base order alone is not total: ranges with one start and two ends are incomparable. */
  lemma FromLessIgnoresEnd(a: SampleRange, b: SampleRange)
    requires a.from == b.from
    ensures !FromLess(a, b) && !FromLess(b, a)
  {
  }
}
