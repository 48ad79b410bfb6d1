/**
  Input-to-state mutation. The mutator gets the comparison traces of a run on
  the working sample and of a run on its colorized copy (running the target is
  not part of this model: the traces are inputs). It aligns the two traces by
  a key packed from each comparison's location, keeps the colorized records
  whose operands changed and whose first operand can be found in the
  colorized sample, and for each of them writes the encoded second operand
  into the working sample wherever the encoded first operand occurs in the
  colorized sample.
*/
module InputToState {
  import opened Types
  import opened Records
  import opened Encoders
  import Samples

  const TWO_24: int := 0x100_0000

  // ---------------------------------------------------------------------------
  // Alignment key

  lemma MulAtLeast(x: int, m: int)
    requires x >= 1 && m > 0
    ensures x * m >= m
  {
  }

  /** Euclidean division is unique: a = q * m + r with 0 <= r < m fixes both q and r. */
  lemma DivModUnique(a: int, q: int, m: int, r: int)
    requires m > 0 && 0 <= r < m && a == q * m + r
    ensures a % m == r && a / m == q
  {
    var q', r' := a / m, a % m;
    assert (q' - q) * m == r - r';
    if q' > q {
      MulAtLeast(q' - q, m);
    } else if q' < q {
      MulAtLeast(q - q', m);
    }
  }

  /**
    GetI2SCode, in 64-bit arithmetic: the basic-block offset shifted into the
    high 32 bits, plus the comparison offset shifted left by 8 and masked to
    32 bits. So the high half of the key is the low 32 bits of the basic-block
    offset, the low half is the low 24 bits of the comparison offset times 256,
    and the addition never carries.
  */
  function I2SCode(record: I2SRecord): (code: uint64)
    ensures code == (record.bbOffset % TWO_32) * TWO_32 + (record.cmpOffset % TWO_24) * 256
  {
    var bb, cmp := record.bbOffset, record.cmpOffset;
    var high := (bb * TWO_32) % TWO_64;
    var shifted := (cmp * 256) % TWO_64;
    var low := shifted % TWO_32;
    DivModUnique(bb * TWO_32, bb / TWO_32, TWO_64, (bb % TWO_32) * TWO_32);
    DivModUnique(cmp * 256, cmp / TWO_24, TWO_32, (cmp % TWO_24) * 256);
    DivModUnique(cmp * 256, (cmp * 256 / TWO_64) * TWO_32 + shifted / TWO_32, TWO_32, low);
    (high + low) % TWO_64
  }

  /**
    Two records share a key exactly when their basic-block offsets agree in
    the low 32 bits and their comparison offsets agree in the low 24 bits.
  */
  lemma I2SCodeCollision(a: I2SRecord, b: I2SRecord)
    ensures I2SCode(a) == I2SCode(b) <==>
      a.bbOffset % TWO_32 == b.bbOffset % TWO_32 && a.cmpOffset % TWO_24 == b.cmpOffset % TWO_24
  {
    if I2SCode(a) == I2SCode(b) {
      var code := I2SCode(a);
      DivModUnique(code, a.bbOffset % TWO_32, TWO_32, (a.cmpOffset % TWO_24) * 256);
      DivModUnique(code, b.bbOffset % TWO_32, TWO_32, (b.cmpOffset % TWO_24) * 256);
    }
  }

  // ---------------------------------------------------------------------------
  // Pattern search

  /** pattern occurs in s at offset i. */
  predicate MatchesAt(s: seq<byte>, pattern: seq<byte>, i: int) {
    0 <= i && i + |pattern| <= |s| && s[i..i + |pattern|] == pattern
  }

  /** An occurrence, byte by byte. */
  lemma MatchesAtPointwise(s: seq<byte>, pattern: seq<byte>, i: nat)
    requires i + |pattern| <= |s|
    ensures MatchesAt(s, pattern, i) <==> forall k | 0 <= k < |pattern| :: s[i + k] == pattern[k]
  {
    if forall k | 0 <= k < |pattern| :: s[i + k] == pattern[k] {
      assert s[i..i + |pattern|] == pattern;
    }
  }

  /** The offsets below n where pattern occurs in s, in ascending order. */
  function PositionsBelow(s: seq<byte>, pattern: seq<byte>, n: nat): (ps: seq<nat>)
    ensures forall j | 0 <= j < |ps| :: ps[j] < n && MatchesAt(s, pattern, ps[j])
    ensures forall j, k | 0 <= j < k < |ps| :: ps[j] < ps[k]
    ensures forall i | 0 <= i < n && MatchesAt(s, pattern, i) :: i in ps
  {
    if n == 0 then []
    else PositionsBelow(s, pattern, n - 1) + (if MatchesAt(s, pattern, n - 1) then [n - 1] else [])
  }

  /** The offsets the search loop tries: every offset where pattern fits in s, in ascending order. */
  function MatchPositions(s: seq<byte>, pattern: seq<byte>): (ps: seq<nat>)
    ensures forall j | 0 <= j < |ps| :: ps[j] + |pattern| <= |s|
    ensures |pattern| > |s| ==> ps == []
  {
    if |pattern| > |s| then [] else PositionsBelow(s, pattern, |s| - |pattern| + 1)
  }

  /** MatchPositions lists exactly the offsets where pattern occurs in s, each once, in ascending order. */
  lemma MatchPositionsExact(s: seq<byte>, pattern: seq<byte>)
    ensures forall i: nat :: i in MatchPositions(s, pattern) <==> MatchesAt(s, pattern, i)
    ensures var ps := MatchPositions(s, pattern); forall j, k | 0 <= j < k < |ps| :: ps[j] < ps[k]
  {
  }

  /** The zero-extended encoding of op at width w occurs somewhere in s. */
  predicate Hits(s: seq<byte>, op: seq<byte>, w: nat) {
    MatchPositions(s, Zext(op, w)) != []
  }

  /**
    The first width, in the order given, whose zero-extended encoding of op
    occurs in s; None when there is none.
  */
  function FirstMatchingWidth(s: seq<byte>, op: seq<byte>, widths: seq<nat>): Option<nat>
  {
    if widths == [] then None
    else if Hits(s, op, widths[0]) then Some(widths[0])
    else FirstMatchingWidth(s, op, widths[1..])
  }

  /** FirstMatchingWidth is None exactly when no width hits. */
  lemma {:induction false} FirstMatchingWidthNone(s: seq<byte>, op: seq<byte>, widths: seq<nat>)
    ensures FirstMatchingWidth(s, op, widths).None? <==> forall i | 0 <= i < |widths| :: !Hits(s, op, widths[i])
  {
    if widths != [] && !Hits(s, op, widths[0]) {
      FirstMatchingWidthNone(s, op, widths[1..]);
      assert forall i | 1 <= i < |widths| :: widths[i] == widths[1..][i - 1];
    }
  }

  /** When FirstMatchingWidth finds a width, it is the width at the least index that hits. */
  lemma {:induction false} FirstMatchingWidthIsFirst(s: seq<byte>, op: seq<byte>, widths: seq<nat>)
    requires FirstMatchingWidth(s, op, widths).Some?
    ensures exists i | 0 <= i < |widths| ::
      && widths[i] == FirstMatchingWidth(s, op, widths).value
      && Hits(s, op, widths[i])
      && forall j | 0 <= j < i :: !Hits(s, op, widths[j])
  {
    if !Hits(s, op, widths[0]) {
      var rest := widths[1..];
      FirstMatchingWidthIsFirst(s, op, rest);
      var i :| 0 <= i < |rest| && rest[i] == FirstMatchingWidth(s, op, rest).value
        && Hits(s, op, rest[i]) && forall j | 0 <= j < i :: !Hits(s, op, rest[j]);
      assert widths[i + 1] == rest[i];
      assert forall j | 1 <= j < i + 1 :: widths[j] == rest[j - 1];
    } else {
      assert widths[0] == FirstMatchingWidth(s, op, widths).value;
    }
  }

  /** Trying the widths from index e on: the search loop's step. */
  lemma FirstMatchingWidthFrom(s: seq<byte>, op: seq<byte>, widths: seq<nat>, e: nat)
    requires e <= |widths|
    ensures e == |widths| ==> FirstMatchingWidth(s, op, widths[e..]) == None
    ensures e < |widths| && Hits(s, op, widths[e]) ==>
      FirstMatchingWidth(s, op, widths[e..]) == Some(widths[e])
    ensures e < |widths| && !Hits(s, op, widths[e]) ==>
      FirstMatchingWidth(s, op, widths[e..]) == FirstMatchingWidth(s, op, widths[e + 1..])
  {
    if e < |widths| {
      assert widths[e..][1..] == widths[e + 1..];
    }
  }

  // ---------------------------------------------------------------------------
  // Candidate records

  /** The key-to-record map built from a trace: the last record with a key wins. */
  function CodeMap(trace: seq<I2SRecord>): (m: map<uint64, I2SRecord>)
    ensures forall code | code in m :: I2SCode(m[code]) == code
  {
    if trace == [] then map[]
    else CodeMap(trace[..|trace| - 1])[I2SCode(trace[|trace| - 1]) := trace[|trace| - 1]]
  }

  /** The index of the last record of the trace with the given key, or -1 when none has it. */
  function LastWithCode(trace: seq<I2SRecord>, code: uint64): (i: int)
    ensures -1 <= i < |trace|
    ensures i >= 0 ==> I2SCode(trace[i]) == code
    ensures forall j | i < j < |trace| :: I2SCode(trace[j]) != code
  {
    if trace == [] then -1
    else if I2SCode(trace[|trace| - 1]) == code then |trace| - 1
    else LastWithCode(trace[..|trace| - 1], code)
  }

  /**
    A key is in the map exactly when some record of the trace has it, and then
    it maps to the last such record.
  */
  lemma {:induction false} CodeMapLastWins(trace: seq<I2SRecord>, code: uint64)
    ensures code in CodeMap(trace) <==> LastWithCode(trace, code) >= 0
    ensures code in CodeMap(trace) ==> CodeMap(trace)[code] == trace[LastWithCode(trace, code)]
  {
    if trace != [] && I2SCode(trace[|trace| - 1]) != code {
      CodeMapLastWins(trace[..|trace| - 1], code);
    }
  }

  /** A colorized record whose second operand changed has its operands swapped. */
  function Prepare(partner: I2SRecord, colorized: I2SRecord): I2SRecord
  {
    if partner.op1 != colorized.op1 then Swapped(colorized) else colorized
  }

  /**
    What the swap is for: the location, so the key, and the pair of operands
    are kept, and for a record that changed at all the first operand is then
    one whose value changed under colorization, the value the patch loop
    searches for.
  */
  lemma PrepareKeepsKeyAndOperands(partner: I2SRecord, colorized: I2SRecord)
    requires !(partner.op0 == colorized.op0 && partner.op1 == colorized.op1)
    ensures var r := Prepare(partner, colorized);
      && r.bbOffset == colorized.bbOffset && r.cmpOffset == colorized.cmpOffset
      && I2SCode(r) == I2SCode(colorized)
      && multiset{r.op0, r.op1} == multiset{colorized.op0, colorized.op1}
      && ((r.op0 == colorized.op1 && partner.op1 != colorized.op1)
          || (r.op0 == colorized.op0 && partner.op0 != colorized.op0))
  {
  }

  /** Some width's zero-extended encoding of op occurs in s. */
  function Occurs(s: seq<byte>, widths: seq<nat>): (found: seq<byte> -> bool)
  {
    op => FirstMatchingWidth(s, op, widths).Some?
  }

  /**
    A colorized record is kept when the original trace has a record with its
    key, the two records' operands are not both equal, and its (possibly
    swapped) first operand is found.
  */
  predicate Keeps(m: map<uint64, I2SRecord>, colorized: I2SRecord, found: seq<byte> -> bool) {
    var code := I2SCode(colorized);
    && code in m
    && !(m[code].op0 == colorized.op0 && m[code].op1 == colorized.op1)
    && found(Prepare(m[code], colorized).op0)
  }

  /** The kept records of the colorized trace, prepared, in trace order. */
  function Candidates(m: map<uint64, I2SRecord>, trace: seq<I2SRecord>, found: seq<byte> -> bool): seq<I2SRecord>
  {
    if trace == [] then []
    else
      var c := trace[|trace| - 1];
      Candidates(m, trace[..|trace| - 1], found)
        + (if Keeps(m, c, found) then [Prepare(m[I2SCode(c)], c)] else [])
  }

  /** The indices of the kept records of the colorized trace, in ascending order. */
  function KeptIndices(m: map<uint64, I2SRecord>, trace: seq<I2SRecord>, found: seq<byte> -> bool): seq<nat>
  {
    if trace == [] then []
    else
      KeptIndices(m, trace[..|trace| - 1], found)
        + (if Keeps(m, trace[|trace| - 1], found) then [|trace| - 1] else [])
  }

  /** What GetCandidateRecords returns. */
  function CandidateRecords(original: seq<I2SRecord>, colorized: seq<I2SRecord>, s: seq<byte>, widths: seq<nat>): seq<I2SRecord>
  {
    Candidates(CodeMap(original), colorized, Occurs(s, widths))
  }

  /** The kept indices are exactly the indices of the kept records, in ascending order. */
  lemma {:induction false} KeptIndicesAreKept(m: map<uint64, I2SRecord>, trace: seq<I2SRecord>, found: seq<byte> -> bool)
    ensures forall j | 0 <= j < |KeptIndices(m, trace, found)| ::
      KeptIndices(m, trace, found)[j] < |trace| && Keeps(m, trace[KeptIndices(m, trace, found)[j]], found)
    ensures forall j, k | 0 <= j < k < |KeptIndices(m, trace, found)| ::
      KeptIndices(m, trace, found)[j] < KeptIndices(m, trace, found)[k]
    ensures forall i | 0 <= i < |trace| && Keeps(m, trace[i], found) :: i in KeptIndices(m, trace, found)
  {
    if trace != [] {
      var n := |trace| - 1;
      var front := trace[..n];
      KeptIndicesAreKept(m, front, found);
      var ks0, ks := KeptIndices(m, front, found), KeptIndices(m, trace, found);
      assert ks == ks0 + (if Keeps(m, trace[n], found) then [n] else []);
      assert forall i | 0 <= i < n :: front[i] == trace[i];
      forall j | 0 <= j < |ks0|
        ensures ks[j] < |trace| && Keeps(m, trace[ks[j]], found)
      {
        assert ks[j] == ks0[j] && front[ks0[j]] == trace[ks0[j]];
      }
    }
  }

  /**
    The candidates are the kept colorized records, each prepared against its
    partner, in trace order: the j-th candidate comes from the j-th kept index.
  */
  lemma {:induction false} CandidatesAreKeptRecordsInOrder(m: map<uint64, I2SRecord>, trace: seq<I2SRecord>, found: seq<byte> -> bool)
    ensures var cs, ks := Candidates(m, trace, found), KeptIndices(m, trace, found);
      && |cs| == |ks|
      && (forall j | 0 <= j < |ks| ::
            && ks[j] < |trace|
            && I2SCode(trace[ks[j]]) in m
            && cs[j] == Prepare(m[I2SCode(trace[ks[j]])], trace[ks[j]]))
  {
    if trace != [] {
      var n := |trace| - 1;
      var front := trace[..n];
      CandidatesAreKeptRecordsInOrder(m, front, found);
      var cs0, ks0 := Candidates(m, front, found), KeptIndices(m, front, found);
      var c := trace[n];
      var kept := Keeps(m, c, found);
      var cs, ks := Candidates(m, trace, found), KeptIndices(m, trace, found);
      assert cs == cs0 + (if kept then [Prepare(m[I2SCode(c)], c)] else []);
      assert ks == ks0 + (if kept then [n] else []);
      forall j | 0 <= j < |ks0|
        ensures ks[j] < |trace| && I2SCode(trace[ks[j]]) in m && cs[j] == Prepare(m[I2SCode(trace[ks[j]])], trace[ks[j]])
      {
        assert ks[j] == ks0[j] && cs[j] == cs0[j] && front[ks0[j]] == trace[ks0[j]];
      }
    }
  }

  /**
    Every candidate has a partner in the original trace with the same key, and
    some width's encoding of its first operand occurs in s.
  */
  lemma CandidatesAreMatched(original: seq<I2SRecord>, colorized: seq<I2SRecord>, s: seq<byte>, widths: seq<nat>)
    ensures forall c | c in CandidateRecords(original, colorized, s, widths) ::
      && (exists i | 0 <= i < |original| :: I2SCode(original[i]) == I2SCode(c))
      && (exists i | 0 <= i < |widths| :: Hits(s, c.op0, widths[i]))
  {
    var m, found := CodeMap(original), Occurs(s, widths);
    var cs, ks := Candidates(m, colorized, found), KeptIndices(m, colorized, found);
    CandidatesAreKeptRecordsInOrder(m, colorized, found);
    KeptIndicesAreKept(m, colorized, found);
    forall c | c in cs
      ensures exists i | 0 <= i < |original| :: I2SCode(original[i]) == I2SCode(c)
      ensures exists i | 0 <= i < |widths| :: Hits(s, c.op0, widths[i])
    {
      var j :| 0 <= j < |cs| && cs[j] == c;
      var r := colorized[ks[j]];
      assert Keeps(m, r, found);
      assert c == Prepare(m[I2SCode(r)], r);
      PrepareKeepsKeyAndOperands(m[I2SCode(r)], r);
      CodeMapLastWins(original, I2SCode(r));
      var last := LastWithCode(original, I2SCode(r));
      assert I2SCode(original[last]) == I2SCode(c);
      assert FirstMatchingWidth(s, c.op0, widths).Some?;
      FirstMatchingWidthIsFirst(s, c.op0, widths);
    }
  }

  // ---------------------------------------------------------------------------
  // Patching

  /** The bytes of s after writing d at each offset of ps in turn. */
  function WriteAll(s: seq<byte>, ps: seq<nat>, d: seq<byte>): (r: seq<byte>)
    requires forall j | 0 <= j < |ps| :: ps[j] + |d| <= |s|
    ensures |r| == |s|
  {
    if ps == [] then s else Samples.Overwrite(WriteAll(s, ps[..|ps| - 1], d), ps[|ps| - 1], d)
  }

  /** The index of the last window [ps[j], ps[j] + n) that holds offset k, or -1. */
  function LastWindow(ps: seq<nat>, n: nat, k: int): (j: int)
    ensures -1 <= j < |ps|
    ensures j >= 0 ==> ps[j] <= k < ps[j] + n
    ensures forall i | j < i < |ps| :: !(ps[i] <= k < ps[i] + n)
  {
    if ps == [] then -1
    else if ps[|ps| - 1] <= k < ps[|ps| - 1] + n then |ps| - 1
    else LastWindow(ps[..|ps| - 1], n, k)
  }

  /** Each byte ends up as written by the last window holding it, or as it was when no window holds it. */
  lemma {:induction false} WriteAllLastWins(s: seq<byte>, ps: seq<nat>, d: seq<byte>, k: nat)
    requires forall j | 0 <= j < |ps| :: ps[j] + |d| <= |s|
    requires k < |s|
    ensures var j := LastWindow(ps, |d|, k);
      WriteAll(s, ps, d)[k] == if j < 0 then s[k] else d[k - ps[j]]
  {
    if ps != [] {
      var front := ps[..|ps| - 1];
      WriteAllLastWins(s, front, d, k);
      assert WriteAll(s, ps, d) == Samples.Overwrite(WriteAll(s, front, d), ps[|ps| - 1], d);
    }
  }

  /** The width whose encoding the patch loop uses for record c, and the window of offset k it writes. */
  predicate InPatchedWindow(col: seq<byte>, c: I2SRecord, widths: seq<nat>, k: int) {
    match FirstMatchingWidth(col, c.op0, widths)
    case None => false
    case Some(w) => exists p | k - w < p <= k :: MatchesAt(col, Zext(c.op0, w), p)
  }

  /** One candidate: at the first width that matches, write its second operand over every match of its first. */
  function PatchOne(s: seq<byte>, col: seq<byte>, c: I2SRecord, widths: seq<nat>): (r: seq<byte>)
    requires |col| <= |s|
    ensures |r| == |s|
  {
    match FirstMatchingWidth(col, c.op0, widths)
    case None => s
    case Some(w) => WriteAll(s, MatchPositions(col, Zext(c.op0, w)), Zext(c.op1, w))
  }

  /** The patch loop's encoder search at index e, given that no earlier width matched. */
  lemma PatchOneFrom(s: seq<byte>, col: seq<byte>, c: I2SRecord, widths: seq<nat>, e: nat)
    requires |col| <= |s| && e <= |widths|
    requires FirstMatchingWidth(col, c.op0, widths) == FirstMatchingWidth(col, c.op0, widths[e..])
    ensures e == |widths| ==> PatchOne(s, col, c, widths) == s
    ensures e < |widths| && Hits(col, c.op0, widths[e]) ==>
      PatchOne(s, col, c, widths) == WriteAll(s, MatchPositions(col, Zext(c.op0, widths[e])), Zext(c.op1, widths[e]))
    ensures e < |widths| && !Hits(col, c.op0, widths[e]) ==>
      FirstMatchingWidth(col, c.op0, widths) == FirstMatchingWidth(col, c.op0, widths[e + 1..])
  {
    FirstMatchingWidthFrom(col, c.op0, widths, e);
  }

  /** The working sample after the patch loop has run over the candidates cs. */
  function PatchAll(s: seq<byte>, col: seq<byte>, cs: seq<I2SRecord>, widths: seq<nat>): (r: seq<byte>)
    requires |col| <= |s|
    ensures |r| == |s|
  {
    if cs == [] then s else PatchOne(PatchAll(s, col, cs[..|cs| - 1], widths), col, cs[|cs| - 1], widths)
  }

  /** A byte that no candidate's patched window covers keeps its value. */
  lemma {:induction false} PatchAllOnlyTouchesWindows(s: seq<byte>, col: seq<byte>, cs: seq<I2SRecord>, widths: seq<nat>, k: nat)
    requires |col| <= |s| && k < |s|
    requires forall i | 0 <= i < |cs| :: !InPatchedWindow(col, cs[i], widths, k)
    ensures PatchAll(s, col, cs, widths)[k] == s[k]
  {
    if cs != [] {
      var front := cs[..|cs| - 1];
      var c := cs[|cs| - 1];
      PatchAllOnlyTouchesWindows(s, col, front, widths, k);
      var before := PatchAll(s, col, front, widths);
      match FirstMatchingWidth(col, c.op0, widths)
      case None =>
      case Some(w) =>
        var ps := MatchPositions(col, Zext(c.op0, w));
        WriteAllLastWins(before, ps, Zext(c.op1, w), k);
        var j := LastWindow(ps, w, k);
        if j >= 0 {
          assert false;
        }
    }
  }

  // ---------------------------------------------------------------------------
  // The mutator

  class InputToStateMutator {
    /** The encoders, tried in this order. */
    const encoders: seq<ZextEncoder>

    /**
      The encoders' widths, in the order they are tried. The ensures only spell
      out the comprehension; they keep the proof of Mutate within budget.
    */
    function Widths(): (ws: seq<nat>)
      ensures |ws| == |encoders|
      ensures forall i | 0 <= i < |encoders| :: ws[i] == encoders[i].nBytes
    {
      seq(|encoders|, i requires 0 <= i < |encoders| => encoders[i].nBytes)
    }

    /** Zero-extension encoders of 8, 4, 2 and 1 bytes. */
    constructor()
      ensures Widths() == [8, 4, 2, 1]
    {
      var e8 := new ZextEncoder(8);
      var e4 := new ZextEncoder(4);
      var e2 := new ZextEncoder(2);
      var e1 := new ZextEncoder(1);
      encoders := [e8, e4, e2, e1];
    }

    /** True exactly when the first `size` bytes of sample from `start` on equal those of pattern. */
    static method Match(sample: array<byte>, start: nat, pattern: seq<byte>, size: int) returns (matched: bool)
      requires size <= |pattern| && start + size <= sample.Length
      ensures matched <==> forall i | 0 <= i < size :: sample[start + i] == pattern[i]
    {
      var i := 0;
      while i < size
        invariant 0 <= i && (i <= size || i == 0)
        invariant forall k | 0 <= k < i :: sample[start + k] == pattern[k]
      {
        if sample[start + i] != pattern[i] {
          return false;
        }
        i := i + 1;
      }
      return true;
    }

    /** Every offset where pattern occurs in the sample, in ascending order. */
    static method GetMatchingPositions(sample: array<byte>, pattern: seq<byte>) returns (positions: seq<nat>)
      ensures positions == MatchPositions(sample[..], pattern)
    {
      ghost var s := sample[..];
      positions := [];
      var i := 0;
      while i + |pattern| <= sample.Length
        invariant |pattern| <= sample.Length ==> i <= sample.Length - |pattern| + 1
        invariant |pattern| > sample.Length ==> i == 0
        invariant positions == PositionsBelow(s, pattern, i)
        invariant sample[..] == s
      {
        var matched := Match(sample, i, pattern, |pattern|);
        MatchesAtPointwise(s, pattern, i);
        assert matched == MatchesAt(s, pattern, i);
        assert PositionsBelow(s, pattern, i + 1) == positions + (if matched then [i] else []);
        if matched {
          positions := positions + [i];
        }
        i := i + 1;
      }
    }

    /**
      The encoder loop of GetCandidateRecords: tries the encoders in order and
      stops at the first whose encoding of op occurs in the sample.
    */
    method AnyEncodingOccurs(sample: array<byte>, op: seq<byte>) returns (found: bool)
      ensures found == FirstMatchingWidth(sample[..], op, Widths()).Some?
    {
      ghost var s, ws := sample[..], Widths();
      var e := 0;
      while e < |encoders|
        invariant 0 <= e <= |encoders|
        invariant FirstMatchingWidth(s, op, ws) == FirstMatchingWidth(s, op, ws[e..])
      {
        var pattern := encoders[e].Encode(op);
        var positions := GetMatchingPositions(sample, pattern);
        FirstMatchingWidthFrom(s, op, ws, e);
        if |positions| > 0 {
          return true;
        }
        e := e + 1;
      }
      FirstMatchingWidthFrom(s, op, ws, e);
      return false;
    }

    /**
      Joins the colorized trace with the original one by key and keeps the
      colorized records that changed and whose first operand occurs in the
      sample at some width; a record whose second operand changed comes back
      with its operands swapped.
    */
    method GetCandidateRecords(inoutSample: array<byte>, i2sRecords: seq<I2SRecord>, colorizedI2sRecords: seq<I2SRecord>)
      returns (candidateRecords: seq<I2SRecord>)
      ensures candidateRecords == CandidateRecords(i2sRecords, colorizedI2sRecords, inoutSample[..], Widths())
    {
      var codeToRecord: map<uint64, I2SRecord> := map[];
      for i := 0 to |i2sRecords|
        invariant codeToRecord == CodeMap(i2sRecords[..i])
      {
        assert i2sRecords[..i + 1][..i] == i2sRecords[..i];
        codeToRecord := codeToRecord[I2SCode(i2sRecords[i]) := i2sRecords[i]];
      }
      assert i2sRecords[..|i2sRecords|] == i2sRecords;
      ghost var s, ws := inoutSample[..], Widths();
      candidateRecords := [];
      for c := 0 to |colorizedI2sRecords|
        invariant candidateRecords == Candidates(codeToRecord, colorizedI2sRecords[..c], Occurs(s, ws))
      {
        assert colorizedI2sRecords[..c + 1][..c] == colorizedI2sRecords[..c];
        var colorizedRecord := colorizedI2sRecords[c];
        var code := I2SCode(colorizedRecord);
        if code !in codeToRecord {
          continue;
        }
        var record := codeToRecord[code];
        if record.op0 == colorizedRecord.op0 && record.op1 == colorizedRecord.op1 {
          continue;
        }
        if record.op1 != colorizedRecord.op1 {
          colorizedRecord := Swapped(colorizedRecord);
        }
        assert colorizedRecord == Prepare(record, colorizedI2sRecords[c]);
        var found := AnyEncodingOccurs(inoutSample, colorizedRecord.op0);
        if found {
          candidateRecords := candidateRecords + [colorizedRecord];
        }
      }
      assert colorizedI2sRecords[..|colorizedI2sRecords|] == colorizedI2sRecords;
    }

    /** Writes mutation over the sample at each of the positions in turn. */
    static method ReplaceAtPositions(sample: array<byte>, positions: seq<nat>, mutation: seq<byte>)
      requires forall j | 0 <= j < |positions| :: positions[j] + |mutation| <= sample.Length
      modifies sample
      ensures sample[..] == WriteAll(old(sample[..]), positions, mutation)
    {
      ghost var before := sample[..];
      for k := 0 to |positions|
        invariant sample[..] == WriteAll(before, positions[..k], mutation)
      {
        assert positions[..k + 1][..k] == positions[..k];
        var position := positions[k];
        Samples.Replace(sample, position, position + |mutation|, mutation);
      }
      assert positions[..|positions|] == positions;
    }

    /**
      One pass of the patch loop: the first encoder whose encoding of the
      record's first operand occurs in the colorized sample writes its
      encoding of the second operand into the working sample at every such
      offset, in ascending order; the later encoders are not tried.
    */
    method PatchRecord(inoutSample: array<byte>, colorizedSample: array<byte>, record: I2SRecord)
      requires inoutSample != colorizedSample
      requires colorizedSample.Length <= inoutSample.Length
      modifies inoutSample
      ensures inoutSample[..] == PatchOne(old(inoutSample[..]), colorizedSample[..], record, Widths())
    {
      ghost var before, col, ws := inoutSample[..], colorizedSample[..], Widths();
      var e := 0;
      while e < |encoders|
        invariant 0 <= e <= |encoders|
        invariant inoutSample[..] == before
        invariant FirstMatchingWidth(col, record.op0, ws) == FirstMatchingWidth(col, record.op0, ws[e..])
      {
        var encodedPattern := encoders[e].Encode(record.op0);
        var encodedMutation := encoders[e].Encode(record.op1);
        var matchingPositions := GetMatchingPositions(colorizedSample, encodedPattern);
        PatchOneFrom(before, col, record, ws, e);
        if |matchingPositions| > 0 {
          assert |encodedMutation| == |encodedPattern| == ws[e];
          assert matchingPositions == MatchPositions(col, Zext(record.op0, ws[e]));
          ReplaceAtPositions(inoutSample, matchingPositions, encodedMutation);
          assert colorizedSample[..] == col;
          return;
        }
        e := e + 1;
      }
      PatchOneFrom(before, col, record, ws, e);
    }

    /**
      Aligns the two traces, then patches the working sample with each
      candidate in turn. Always returns true.
    */
    method Mutate(inoutSample: array<byte>, colorizedSample: array<byte>, i2sRecords: seq<I2SRecord>, colorizedI2sRecords: seq<I2SRecord>)
      returns (ok: bool)
      requires inoutSample != colorizedSample
      requires colorizedSample.Length <= inoutSample.Length
      modifies inoutSample
      ensures ok
      ensures inoutSample[..] == PatchAll(old(inoutSample[..]), colorizedSample[..],
        CandidateRecords(i2sRecords, colorizedI2sRecords, colorizedSample[..], Widths()), Widths())
    {
      var candidateRecords := GetCandidateRecords(colorizedSample, i2sRecords, colorizedI2sRecords);
      ghost var s0, col, ws := inoutSample[..], colorizedSample[..], Widths();
      for c := 0 to |candidateRecords|
        invariant colorizedSample[..] == col
        invariant inoutSample[..] == PatchAll(s0, col, candidateRecords[..c], ws)
      {
        assert candidateRecords[..c + 1][..c] == candidateRecords[..c];
        PatchRecord(inoutSample, colorizedSample, candidateRecords[c]);
      }
      assert candidateRecords[..|candidateRecords|] == candidateRecords;
      return true;
    }
  }
}
