/**
 * The conversion inside the snowflake identifier generator: the generator's
 * byte buffer is folded, most significant byte first, into an arbitrary-precision
 * integer. The buffer itself comes from a clock- and worker-dependent foreign
 * generator and is taken here as an input.
 */
module Snowflake {
  import opened Arith

  /** One element of a Node.js Buffer. */
  type Byte = b: int | 0 <= b < 256

  /** Big-endian value of a byte string: the sum of bytes[i] * 256^(|bytes| - 1 - i). */
  function BigEndian(bytes: seq<Byte>): nat
  {
    if |bytes| == 0 then 0 else (bytes[0]) * Pow(256, |bytes| - 1) + BigEndian(bytes[1..])
  }

  /** Step law: appending a byte shifts the value one byte to the left and adds the byte. */
  lemma {:induction false} BigEndianAppend(bytes: seq<Byte>, b: Byte)
    ensures BigEndian(bytes + [b]) == 256 * BigEndian(bytes) + b
  {
    if |bytes| > 0 {
      var t := bytes + [b];
      assert t[1..] == bytes[1..] + [b];
      BigEndianAppend(bytes[1..], b);
      var h, k := bytes[0], |bytes| - 1;
      calc {
        BigEndian(t);
        h * Pow(256, k + 1) + BigEndian(bytes[1..] + [b]);
        h * Pow(256, k + 1) + 256 * BigEndian(bytes[1..]) + b;
        { assert h * Pow(256, k + 1) == 256 * (h * Pow(256, k)); }
        256 * (h * Pow(256, k) + BigEndian(bytes[1..])) + b;
      }
    }
  }

  /** The value of n bytes fits in n bytes: 0 <= BigEndian(bytes) < 256^|bytes|. */
  lemma {:induction false} BigEndianBound(bytes: seq<Byte>)
    ensures BigEndian(bytes) < Pow(256, |bytes|)
  {
    if |bytes| > 0 {
      BigEndianBound(bytes[1..]);
      var h, p := bytes[0], Pow(256, |bytes| - 1);
      calc {
        BigEndian(bytes);
        h * p + BigEndian(bytes[1..]);
      <  h * p + p;
      <= { MulLe(h, 255, p); }
        256 * p;
        Pow(256, |bytes|);
      }
    }
  }

  /** For the generator's 8-byte buffer the identifier is an unsigned 64-bit value. */
  lemma FlakeBound(bytes: seq<Byte>)
    requires |bytes| == 8
    ensures BigEndian(bytes) < 0x1_0000_0000_0000_0000
  {
    BigEndianBound(bytes);
    assert Pow(256, 8) == 0x1_0000_0000_0000_0000;
  }

  /** Buffers of equal length with equal values are equal: the fold loses nothing. */
  lemma {:induction false} BigEndianInjective(a: seq<Byte>, b: seq<Byte>)
    requires |a| == |b| && BigEndian(a) == BigEndian(b)
    ensures a == b
  {
    if |a| > 0 {
      var n := |a| - 1;
      var x, y := a[n], b[n];
      assert a == a[..n] + [x];
      assert b == b[..n] + [y];
      BigEndianAppend(a[..n], x);
      BigEndianAppend(b[..n], y);
      ShiftUnique(BigEndian(a[..n]), x, BigEndian(b[..n]), y);
      BigEndianInjective(a[..n], b[..n]);
    }
  }

  /** The source's loop: idNum starts at 0 and becomes (idNum << 8) + byte for each byte in order. */
  method GenerateSnowflakeId(idBuffer: seq<Byte>) returns (idNum: nat)
    ensures idNum == BigEndian(idBuffer)
    ensures |idBuffer| == 0 ==> idNum == 0
    ensures idNum < Pow(256, |idBuffer|)
  {
    idNum := 0;
    for i := 0 to |idBuffer|
      invariant idNum == BigEndian(idBuffer[..i])
    {
      assert idBuffer[..i + 1] == idBuffer[..i] + [idBuffer[i]];
      BigEndianAppend(idBuffer[..i], idBuffer[i]);
      idNum := idNum * 256 + idBuffer[i];
    }
    assert idBuffer[..|idBuffer|] == idBuffer;
    BigEndianBound(idBuffer);
  }

  /** A shifted value plus a byte determines both the value and the byte. */
  lemma ShiftUnique(p: nat, x: Byte, q: nat, y: Byte)
    requires 256 * p + x == 256 * q + y
    ensures p == q && x == y
  {
    var d: int := p - q;
    assert 256 * d == y - x;
  }
}
