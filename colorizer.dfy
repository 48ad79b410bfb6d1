/**
  Colorization: the bisection that finds which byte ranges of a sample matter
  to the target's control flow. A context holds a max-queue of ranges still to
  try. Each step randomizes the greatest queued range; the caller re-runs the
  target and reports success (the trace did not change, so the range stays
  randomized and leaves the queue) or failure (the range is replaced by its
  two halves).

  The ghost field `resolved` records the ranges removed by ReportSuccess, and
  `size` the sample size the context was created for: together with the queue
  they tile [0, size), which Valid() states.
*/
module Colorizers {
  import opened Types
  import opened Ranges
  import opened RangeQueue
  import Samples

  /** Number of ranges in rs (with repetition) whose window holds offset k. */
  function Cover(rs: seq<SampleRange>, k: int): nat {
    if rs == [] then 0
    else Cover(rs[..|rs| - 1], k) + (if Contains(rs[|rs| - 1], k) then 1 else 0)
  }

  /** rs lies inside [0, n) and holds every offset of [0, n) exactly once: no gap, no overlap. */
  ghost predicate Tiles(rs: seq<SampleRange>, n: nat) {
    && (forall r | r in rs :: r.from <= r.to <= n)
    && (forall k | 0 <= k < n :: Cover(rs, k) == 1)
  }

  /** A range of length L >= 1 costs 2L - 1 more step/report rounds at most; an empty one costs none. */
  function Weight(r: SampleRange): nat {
    if Length(r) == 0 then 0 else 2 * Length(r) - 1
  }

  /** Sum of the weights of rs: the colorizer's termination measure. */
  function Potential(rs: seq<SampleRange>): nat {
    if rs == [] then 0 else Potential(rs[..|rs| - 1]) + Weight(rs[|rs| - 1])
  }

  lemma {:induction false} CoverAppend(a: seq<SampleRange>, b: seq<SampleRange>, k: int)
    ensures Cover(a + b, k) == Cover(a, k) + Cover(b, k)
    decreases |b|
  {
    if b == [] {
      assert a + b == a;
    } else {
      var b' := b[..|b| - 1];
      assert (a + b)[..|a + b| - 1] == a + b';
      CoverAppend(a, b', k);
    }
  }

  /** Pushing x onto the queue adds exactly x's window to the coverage count. */
  lemma {:induction false} CoverPush(q: seq<SampleRange>, x: SampleRange, k: int)
    requires Sorted(q)
    ensures Cover(Push(q, x), k) == Cover(q, k) + (if Contains(x, k) then 1 else 0)
    decreases |q|
  {
    if q == [] || !Less(x, q[|q| - 1]) {
      assert (q + [x])[..|q|] == q;
    } else {
      var rest := q[..|q| - 1];
      CoverPush(rest, x, k);
      var r := Push(rest, x) + [q[|q| - 1]];
      assert r[..|r| - 1] == Push(rest, x);
    }
  }

  /** Pushing x onto the queue adds exactly x's weight to the potential. */
  lemma {:induction false} PotentialPush(q: seq<SampleRange>, x: SampleRange)
    requires Sorted(q)
    ensures Potential(Push(q, x)) == Potential(q) + Weight(x)
    decreases |q|
  {
    if q == [] || !Less(x, q[|q| - 1]) {
      assert (q + [x])[..|q|] == q;
    } else {
      var rest := q[..|q| - 1];
      PotentialPush(rest, x);
      var r := Push(rest, x) + [q[|q| - 1]];
      assert r[..|r| - 1] == Push(rest, x);
    }
  }

  /**
    The split of ReportFail: [from, mid) and [mid, to) with
    mid = from + (to - from) / 2 in size_t arithmetic.
  */
  function Halves(r: SampleRange): (h: (SampleRange, SampleRange))
    ensures h.0.from == r.from && h.0.to == h.1.from && h.1.to == r.to
    ensures r.from <= r.to ==>
      && r.from <= h.0.to <= r.to
      && Length(h.0) == Length(r) / 2
      && Length(h.0) + Length(h.1) == Length(r)
    ensures r.from <= r.to && Length(r) >= 2 ==>
      && 0 < Length(h.0) < Length(r)
      && 0 < Length(h.1) < Length(r)
  {
    var mid := (r.from + Length(r) / 2) % TWO_64;
    (SampleRange(r.from, mid), SampleRange(mid, r.to))
  }

  /** Splitting a range never raises the potential, and lowers it once the range has two bytes or more. */
  lemma HalvesWeight(r: SampleRange)
    requires r.from <= r.to
    ensures Weight(Halves(r).0) + Weight(Halves(r).1) <= Weight(r)
    ensures Length(r) >= 2 ==> Weight(Halves(r).0) + Weight(Halves(r).1) < Weight(r)
  {
  }

  /** The base class's context: it holds nothing. */
  class ColorizerContext {
  }

  /** The context of SimpleColorizer. */
  class SimpleColorizerContext {
    /** The priority queue of ranges still to try (see RangeQueue). */
    var ranges: seq<SampleRange>
    /** Ranges removed by ReportSuccess: randomized for good. */
    ghost var resolved: seq<SampleRange>
    /** Size of the sample the context was created for. */
    ghost var size: nat

    ghost predicate Valid()
      reads this
    {
      Sorted(ranges) && Tiles(ranges + resolved, size)
    }

    /** A fresh context holds an empty queue. */
    constructor()
      ensures Valid()
      ensures ranges == [] && resolved == [] && size == 0
    {
      ranges := [];
      resolved := [];
      size := 0;
    }
  }

  /** The base colorizer: no context, and every step reports that colorizing is done. */
  class Colorizer {
    method CreateContext(sample: array<byte>) returns (context: ColorizerContext?)
      ensures context == null
    {
      context := null;
    }

    /** 0 means that colorizing is done. */
    method ColorizeStep(sample: array<byte>, context: ColorizerContext?) returns (result: int)
      ensures result == 0
    {
      result := 0;
    }

    /** Does nothing: neither the sample nor the context changes. */
    method ReportSuccess(sample: array<byte>, context: ColorizerContext?)
      ensures sample[..] == old(sample[..])
    {
    }

    /** Does nothing: neither the sample nor the context changes. */
    method ReportFail(sample: array<byte>, context: ColorizerContext?)
      ensures sample[..] == old(sample[..])
    {
    }
  }

  class SimpleColorizer {
    /** A context whose queue holds the whole sample, [0, size). */
    method CreateContext(sample: array<byte>) returns (context: SimpleColorizerContext)
      requires sample.Length < TWO_64
      ensures fresh(context) && context.Valid() && context.size == sample.Length
      ensures context.ranges == [SampleRange(0, sample.Length)] && context.resolved == []
    {
      context := new SimpleColorizerContext();
      context.ranges := Push(context.ranges, SampleRange(0, sample.Length));
      context.size := sample.Length;
      assert context.ranges + context.resolved == [SampleRange(0, sample.Length)];
      forall k | 0 <= k < sample.Length
        ensures Cover(context.ranges + context.resolved, k) == 1
      {
        assert [SampleRange(0, sample.Length)][..0] == [];
      }
    }

    /**
      Done (0) when the queue is empty or its greatest range has at most one
      byte; otherwise randomizes the bytes of that range, leaves the queue as it
      is, and returns 1.
    */
    method ColorizeStep(sample: array<byte>, context: SimpleColorizerContext) returns (result: int)
      requires context.Valid() && context.size <= sample.Length
      modifies sample
      ensures result == 0 || result == 1
      ensures result == 0 <==> context.ranges == [] || Length(Top(context.ranges)) <= 1
      ensures result == 0 ==> sample[..] == old(sample[..])
      ensures result == 1 ==> forall i | 0 <= i < sample.Length && !Contains(Top(context.ranges), i) ::
        sample[i] == old(sample[i])
    {
      if |context.ranges| == 0 {
        return 0;
      }
      var longest := Top(context.ranges);
      if Length(longest) <= 1 {
        return 0;
      }
      assert longest in context.ranges + context.resolved;
      Samples.Randomize(sample, longest.from, longest.to);
      return 1;
    }

    /** The randomized range does not matter: it leaves the queue for good. */
    method ReportSuccess(sample: array<byte>, context: SimpleColorizerContext)
      requires context.Valid() && context.ranges != []
      modifies context
      ensures context.Valid() && context.size == old(context.size)
      ensures multiset(context.ranges) == old(multiset(context.ranges) - multiset{Top(context.ranges)})
      ensures context.resolved == old(context.resolved + [Top(context.ranges)])
      ensures Potential(context.ranges) + old(Weight(Top(context.ranges))) == old(Potential(context.ranges))
    {
      var longest := Top(context.ranges);
      SuccessKeepsTiling(context.ranges, context.resolved, context.size);
      context.ranges := Pop(context.ranges);
      context.resolved := context.resolved + [longest];
    }

    /** The randomized range matters: it is replaced by its two halves. */
    method ReportFail(sample: array<byte>, context: SimpleColorizerContext)
      requires context.Valid() && context.ranges != []
      modifies context
      ensures context.Valid() && context.size == old(context.size)
      ensures context.resolved == old(context.resolved)
      ensures multiset(context.ranges) == old(multiset(context.ranges) - multiset{Top(context.ranges)})
        + multiset{old(Halves(Top(context.ranges))).0, old(Halves(Top(context.ranges))).1}
      ensures Potential(context.ranges) <= old(Potential(context.ranges))
      ensures old(Length(Top(context.ranges))) >= 2 ==> Potential(context.ranges) < old(Potential(context.ranges))
    {
      var longest := Top(context.ranges);
      assert longest in context.ranges + context.resolved;
      var mid := longest.from + Length(longest) / 2;
      assert Halves(longest) == (SampleRange(longest.from, mid), SampleRange(mid, longest.to));
      FailKeepsTiling(context.ranges, context.resolved, context.size);
      FailLowersPotential(context.ranges);
      var popped := Pop(context.ranges);
      var once := Push(popped, SampleRange(longest.from, mid));
      context.ranges := Push(once, SampleRange(mid, longest.to));
      assert context.ranges == SplitTop(old(context.ranges));
    }
  }

  /** Moving the last queued range to the end of the resolved ranges leaves every offset's coverage as it was. */
  lemma CoverMoveLast(p: seq<SampleRange>, t: SampleRange, done: seq<SampleRange>, k: int)
    ensures Cover(p + (done + [t]), k) == Cover((p + [t]) + done, k)
  {
    CoverAppend(p, done + [t], k);
    CoverAppend(done, [t], k);
    CoverAppend(p + [t], done, k);
    CoverAppend(p, [t], k);
  }

  /** What ReportSuccess does to the queue keeps the tiling and lowers the potential by the top's weight. */
  lemma SuccessKeepsTiling(q: seq<SampleRange>, done: seq<SampleRange>, n: nat)
    requires Sorted(q) && q != [] && Tiles(q + done, n)
    ensures Tiles(Pop(q) + (done + [Top(q)]), n)
    ensures Potential(Pop(q)) + Weight(Top(q)) == Potential(q)
  {
    var t, p := Top(q), Pop(q);
    assert q == p + [t];
    forall k | 0 <= k < n
      ensures Cover(p + (done + [t]), k) == 1
    {
      CoverMoveLast(p, t, done, k);
    }
    assert forall r | r in p + (done + [t]) :: r in q + done;
  }

  /** The queue after ReportFail: the top replaced by its two halves. */
  function SplitTop(q: seq<SampleRange>): (r: seq<SampleRange>)
    requires Sorted(q) && q != []
    ensures Sorted(r)
    ensures multiset(r) == multiset(q) - multiset{Top(q)} + multiset{Halves(Top(q)).0, Halves(Top(q)).1}
  {
    var h := Halves(Top(q));
    Push(Push(Pop(q), h.0), h.1)
  }

  /** Replacing a range by its two halves leaves every offset's coverage as it was. */
  lemma CoverSplitTop(q: seq<SampleRange>, k: int)
    requires Sorted(q) && q != [] && Top(q).from <= Top(q).to
    ensures Cover(SplitTop(q), k) == Cover(q, k)
  {
    var t, p := Top(q), Pop(q);
    var h := Halves(t);
    CoverPush(Push(p, h.0), h.1, k);
    CoverPush(p, h.0, k);
    CoverAppend(p, [t], k);
    assert q == p + [t];
  }

  /** Every range queued after ReportFail was queued before or is a half of the old top. */
  lemma SplitTopMembers(q: seq<SampleRange>)
    requires Sorted(q) && q != []
    ensures forall x | x in SplitTop(q) :: x in q || x == Halves(Top(q)).0 || x == Halves(Top(q)).1
  {
    var r := SplitTop(q);
    assert forall x | x in r :: x in multiset(r);
  }

  /** What ReportFail does to the queue keeps the tiling. */
  lemma FailKeepsTiling(q: seq<SampleRange>, done: seq<SampleRange>, n: nat)
    requires Sorted(q) && q != [] && Tiles(q + done, n)
    ensures Tiles(SplitTop(q) + done, n)
  {
    var t := Top(q);
    assert t in q + done;
    var h := Halves(t);
    var r := SplitTop(q);
    forall k | 0 <= k < n
      ensures Cover(r + done, k) == 1
    {
      CoverSplitTop(q, k);
      CoverAppend(r, done, k);
      CoverAppend(q, done, k);
    }
    SplitTopMembers(q);
    forall x | x in r + done
      ensures x.from <= x.to <= n
    {
      if x in r && x != h.0 && x != h.1 {
        assert x in q + done;
      }
    }
  }

  /** ReportFail never raises the potential, and lowers it when the top has two bytes or more. */
  lemma FailLowersPotential(q: seq<SampleRange>)
    requires Sorted(q) && q != [] && Top(q).from <= Top(q).to
    ensures Potential(SplitTop(q)) <= Potential(q)
    ensures Length(Top(q)) >= 2 ==> Potential(SplitTop(q)) < Potential(q)
  {
    var t, p := Top(q), Pop(q);
    var h := Halves(t);
    assert q[..|q| - 1] == p;
    assert Potential(q) == Potential(p) + Weight(t);
    PotentialPush(Push(p, h.0), h.1);
    PotentialPush(p, h.0);
    assert Potential(SplitTop(q)) == Potential(p) + Weight(h.0) + Weight(h.1);
    HalvesWeight(t);
  }

  /**
    A caller that colorizes a sample to the end: it steps until the colorizer
    reports that it is done, and after each step that returned 1 reports
    success or failure as `sameTrace` says of the randomized bytes (standing for
    re-running the target and comparing its trace). Every round lowers the
    potential, so there are at most 2 * size rounds.
  */
  method Colorize(sample: array<byte>, sameTrace: seq<byte> -> bool) returns (context: SimpleColorizerContext, rounds: nat)
    requires sample.Length < TWO_64
    modifies sample
    ensures context.Valid() && context.size == sample.Length
    ensures context.ranges == [] || Length(Top(context.ranges)) <= 1
    ensures rounds <= 2 * sample.Length
  {
    var colorizer := new SimpleColorizer;
    context := colorizer.CreateContext(sample);
    rounds := 0;
    assert [SampleRange(0, sample.Length)][..0] == [];
    while true
      invariant fresh(context)
      invariant context.Valid() && context.size == sample.Length
      invariant rounds + Potential(context.ranges) <= 2 * sample.Length
      decreases Potential(context.ranges)
    {
      var more := colorizer.ColorizeStep(sample, context);
      if more == 0 {
        break;
      }
      if sameTrace(sample[..]) {
        colorizer.ReportSuccess(sample, context);
      } else {
        colorizer.ReportFail(sample, context);
      }
      rounds := rounds + 1;
    }
  }
}
