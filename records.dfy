/**
  Comparison records. The instrumentation that produces them is not part of
  this model; a record is the part the mutator reads: where the comparison is
  (basic-block offset and comparison offset) and its two operands, each as the
  bytes of its in-memory representation.
*/
module Records {
  import opened Types

  datatype I2SRecord = I2SRecord(bbOffset: uint64, cmpOffset: uint64, op0: seq<byte>, op1: seq<byte>)

  /** op_val[0].swap(op_val[1]): the same record with its operands exchanged. */
  function Swapped(r: I2SRecord): I2SRecord {
    r.(op0 := r.op1, op1 := r.op0)
  }

  /** Swapping twice gives the record back, so the swap loses nothing. */
  lemma SwappedTwice(r: I2SRecord)
    ensures Swapped(Swapped(r)) == r
    ensures Swapped(r) != r <==> r.op0 != r.op1
  {
  }
}
