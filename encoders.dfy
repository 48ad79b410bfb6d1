/**
  Operand encoders. A zero-extension encoder of width n turns an operand's
  bytes into the n-byte pattern searched for in a sample and written into it:
  it drops the bytes past the n-th and pads a shorter operand with zero bytes.
*/
module Encoders {
  import opened Types
  import opened Records

  /** The bytes that ZextEncoder(n).Encode(b) returns. */
  function Zext(b: seq<byte>, n: nat): (r: seq<byte>)
    ensures |r| == n
    ensures forall i | 0 <= i < n :: r[i] == if i < |b| then b[i] else 0
  {
    if |b| >= n then b[..n] else b + Zeros(n - |b|)
  }

  /** The encoding is the first min(|b|, n) bytes of b followed by zero bytes. */
  lemma ZextIsPrefixThenZeros(b: seq<byte>, n: nat)
    ensures var m := if |b| < n then |b| else n;
      Zext(b, n) == b[..m] + Zeros(n - m)
  {
  }

  /** Encoding an encoding changes nothing. */
  lemma ZextIdempotent(b: seq<byte>, n: nat)
    ensures Zext(Zext(b, n), n) == Zext(b, n)
  {
  }

  /** Encoding at a width, then at a smaller width, is encoding at the smaller width. */
  lemma ZextNarrows(b: seq<byte>, wide: nat, narrow: nat)
    requires narrow <= wide
    ensures Zext(Zext(b, wide), narrow) == Zext(b, narrow)
  {
  }

  /**
    When every byte of b past the n-th is zero, nothing is lost: padding the
    encoding back to |b| bytes gives b again.
  */
  lemma ZextRoundTrip(b: seq<byte>, n: nat)
    requires n <= |b|
    requires forall i | n <= i < |b| :: b[i] == 0
    ensures Zext(Zext(b, n), |b|) == b
  {
  }

  class ZextEncoder {
    /** The width; the encoder's only state. */
    const nBytes: nat

    constructor(n: nat)
      ensures nBytes == n
    {
      nBytes := n;
    }

    /** Truncates or zero-pads the operand to exactly nBytes bytes. */
    method Encode(bytes: seq<byte>) returns (encoded: seq<byte>)
      ensures encoded == Zext(bytes, nBytes)
      ensures |encoded| == nBytes
    {
      encoded := bytes;
      while |encoded| > nBytes
        invariant |encoded| <= |bytes| && encoded == bytes[..|encoded|]
        invariant |encoded| < |bytes| ==> nBytes <= |encoded|
      {
        encoded := encoded[..|encoded| - 1];
      }
      ghost var kept := |encoded|;
      while |encoded| < nBytes
        invariant kept <= |encoded| <= nBytes || |encoded| == kept
        invariant encoded == bytes[..kept] + Zeros(|encoded| - kept)
      {
        encoded := encoded + [0];
      }
    }

    /**
      The two-argument Encode: the width encoding first, then the comparison's
      boundary adjustment. AdjustBytes is not part of this model and comes in as
      `adjust`.
    */
    method EncodeAdjusted(bytes: seq<byte>, record: I2SRecord, adjust: (seq<byte>, I2SRecord) -> seq<byte>)
      returns (encoded: seq<byte>)
      ensures encoded == adjust(Zext(bytes, nBytes), record)
    {
      var widthEncoded := Encode(bytes);
      encoded := adjust(widthEncoded, record);
    }
  }

  /**
    A pending edit: the bytes to write at `from` in the working sample and in
    the colorized sample. The constructor stores its three arguments as given.
  */
  datatype I2SMutation = I2SMutation(from: uint64, bytes: seq<byte>, bytesCol: seq<byte>)

  /** The constructor stores its arguments as given, and two edits are equal exactly when their fields are. */
  lemma I2SMutationStoresFields(from: uint64, bytes: seq<byte>, bytesCol: seq<byte>, other: I2SMutation)
    ensures var m := I2SMutation(from, bytes, bytesCol);
      && m.from == from && m.bytes == bytes && m.bytesCol == bytesCol
      && (m == other <==> other.from == from && other.bytes == bytes && other.bytesCol == bytesCol)
  {
  }
}
