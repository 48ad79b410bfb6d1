/**
  Sample buffers. The Sample class itself is not part of this model; a sample is
  its byte buffer, an array whose length is the sample size, and the two
  operations the core uses on it are modelled here.
*/
module Samples {
  import opened Types

  /** The bytes of s with the window [p, p + |d|) replaced by d. */
  function Overwrite(s: seq<byte>, p: nat, d: seq<byte>): (r: seq<byte>)
    requires p + |d| <= |s|
    ensures |r| == |s|
    ensures forall i | 0 <= i < |s| :: r[i] == if p <= i < p + |d| then d[i - p] else s[i]
  {
    s[..p] + d + s[p + |d|..]
  }

  /** Sample::Replace(from, to, data) with |data| == to - from: an equal-length overwrite. */
  method Replace(sample: array<byte>, from: nat, to: nat, data: seq<byte>)
    requires from <= to <= sample.Length && |data| == to - from
    modifies sample
    ensures sample[..] == Overwrite(old(sample[..]), from, data)
  {
    forall i | from <= i < to {
      sample[i] := data[i - from];
    }
  }

  /**
    Sample::Randomize(from, to): the random bytes come from a generator that is
    not part of this model, so every byte of [from, to) is overwritten with an
    arbitrary value and no other byte changes.
  */
  method Randomize(sample: array<byte>, from: nat, to: nat)
    requires from <= to <= sample.Length
    modifies sample
    ensures forall i | 0 <= i < sample.Length && !(from <= i < to) :: sample[i] == old(sample[i])
  {
    var i := from;
    while i < to
      invariant from <= i <= to
      invariant forall k | 0 <= k < sample.Length && !(from <= k < i) :: sample[k] == old(sample[k])
    {
      var noise: byte := *;
      sample[i] := noise;
      i := i + 1;
    }
  }
}
