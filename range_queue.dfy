/**
  The std::priority_queue<SampleRange> the colorizer keeps. It is a max-queue
  under SampleRange::operator<, so top() is the greatest range: a longest one,
  and among the longest the one that starts last. The binary-heap layout is not
  modelled: the queue is a sequence kept in ascending order, whose last element
  is the top. Only its multiset of ranges and its top are observable.
*/
module RangeQueue {
  import opened Ranges

  /** Ascending under Less; equal ranges may repeat. */
  predicate Sorted(q: seq<SampleRange>) {
    forall i, j | 0 <= i < j < |q| :: !Less(q[j], q[i])
  }

  lemma LastIsGreatest(q: seq<SampleRange>, i: nat)
    requires Sorted(q) && i < |q|
    ensures q[i] == q[|q| - 1] || Less(q[i], q[|q| - 1])
  {
    IncomparableIffEqual(q[i], q[|q| - 1]);
  }

  /** top(): a longest range, and among the longest the one with the greatest start. */
  function Top(q: seq<SampleRange>): (t: SampleRange)
    requires Sorted(q) && |q| > 0
    ensures t in q
    ensures forall r | r in q :: r == t || Less(r, t)
    ensures forall r | r in q :: Length(r) < Length(t) || (Length(r) == Length(t) && r.from <= t.from)
  {
    var t := q[|q| - 1];
    assert forall i | 0 <= i < |q| :: q[i] == t || Less(q[i], t) by {
      forall i | 0 <= i < |q| ensures q[i] == t || Less(q[i], t) {
        LastIsGreatest(q, i);
      }
    }
    t
  }

  /** pop(): removes exactly one occurrence of the top. */
  function Pop(q: seq<SampleRange>): (r: seq<SampleRange>)
    requires Sorted(q) && |q| > 0
    ensures Sorted(r)
    ensures multiset(r) == multiset(q) - multiset{Top(q)}
    ensures |r| == |q| - 1
  {
    assert q == q[..|q| - 1] + [q[|q| - 1]];
    q[..|q| - 1]
  }

  /** push(x): adds one occurrence of x, whatever is already queued. */
  function Push(q: seq<SampleRange>, x: SampleRange): (r: seq<SampleRange>)
    requires Sorted(q)
    ensures Sorted(r)
    ensures multiset(r) == multiset(q) + multiset{x}
    ensures |r| == |q| + 1
    decreases |q|
  {
    if q == [] || !Less(x, q[|q| - 1]) then
      PushAfterLast(q, x);
      q + [x]
    else
      var rest, last := q[..|q| - 1], q[|q| - 1];
      assert q == rest + [last];
      var r := Push(rest, x);
      PushBeforeLast(rest, last, x, r);
      r + [last]
  }

  lemma PushAfterLast(q: seq<SampleRange>, x: SampleRange)
    requires Sorted(q) && (q == [] || !Less(x, q[|q| - 1]))
    ensures Sorted(q + [x])
  {
    forall i | 0 <= i < |q| ensures !Less(x, q[i]) {
      NotLessTransitive(x, q[|q| - 1], q[i]);
    }
  }

  lemma PushBeforeLast(rest: seq<SampleRange>, last: SampleRange, x: SampleRange, r: seq<SampleRange>)
    requires Sorted(rest + [last]) && Less(x, last)
    requires Sorted(r) && multiset(r) == multiset(rest) + multiset{x}
    ensures Sorted(r + [last])
  {
    forall i | 0 <= i < |r| ensures !Less(last, r[i]) {
      assert r[i] in multiset(r);
      if r[i] != x {
        assert r[i] in multiset(rest);
        var j :| 0 <= j < |rest| && rest[j] == r[i];
        var q := rest + [last];
        assert q[j] == r[i] && q[|rest|] == last;
      } else {
        LessAsymmetric(x, last);
      }
    }
  }
}
