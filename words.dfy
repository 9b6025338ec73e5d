/**
 * Byte buffers as a NIBE register arrives in them: octets, little-endian
 * unsigned integers, zero fill, and the exchange of the two 16-bit words
 * of a 4-byte buffer (`swapwords`).
 */
module Words {

  /** One octet of a register buffer. */
  type Byte = b: int | 0 <= b < 256

  /** 256 to the power `n`: how many distinct patterns `n` bytes hold. */
  function Pow256(n: nat): (r: nat)
    ensures r > 0
  {
    if n == 0 then 1 else 256 * Pow256(n - 1)
  }

  /**
   * `swapwords`: a 4-byte buffer read as two 16-bit words comes back with
   * the words in the other order; a buffer of any other length comes back
   * unchanged.
   */
  function SwapWords(data: seq<Byte>): (r: seq<Byte>)
    ensures |r| == |data|
    ensures |data| == 4 ==> forall i :: 0 <= i < 4 ==> r[i] == data[(i + 2) % 4]
    ensures |data| != 4 ==> r == data
  {
    if |data| == 4 then data[2..] + data[..2] else data
  }

  /** Swapping the words twice gives back the original buffer. */
  lemma SwapWordsInvolution(data: seq<Byte>)
    ensures SwapWords(SwapWords(data)) == data
  {
    if |data| == 4 {
      var once := SwapWords(data);
      assert forall i :: 0 <= i < 4 ==> SwapWords(once)[i] == data[i];
    }
  }

  /** The unsigned value of a buffer whose first byte is the least significant. */
  function FromLittleEndian(bs: seq<Byte>): (r: nat)
    ensures r < Pow256(|bs|)
  {
    if bs == [] then 0 else bs[0] + 256 * FromLittleEndian(bs[1..])
  }

  /** The `width` bytes of `n`, least significant first. */
  function ToLittleEndian(n: nat, width: nat): (r: seq<Byte>)
    requires n < Pow256(width)
    ensures |r| == width
    ensures FromLittleEndian(r) == n
  {
    if width == 0 then []
    else
      var rest := ToLittleEndian(n / 256, width - 1);
      var r := [(n % 256) as Byte] + rest;
      assert r[1..] == rest;
      r
  }

  /** Every buffer is the little-endian encoding of its own value. */
  lemma {:induction false} LittleEndianRoundTrip(bs: seq<Byte>)
    ensures ToLittleEndian(FromLittleEndian(bs), |bs|) == bs
  {
    if bs != [] {
      LittleEndianRoundTrip(bs[1..]);
      var n := FromLittleEndian(bs);
      assert n % 256 == bs[0] && n / 256 == FromLittleEndian(bs[1..]);
      assert bs == [bs[0]] + bs[1..];
    }
  }

  /** `n` zero bytes. */
  function Zeros(n: nat): (r: seq<Byte>)
    ensures |r| == n
    ensures forall i :: 0 <= i < n ==> r[i] == 0
  {
    if n == 0 then [] else [0] + Zeros(n - 1)
  }

  /** `bs` padded with zero bytes at its high-order end to `size` bytes. */
  function ZeroFill(bs: seq<Byte>, size: nat): (r: seq<Byte>)
    requires |bs| <= size
    ensures |r| == size
    ensures r[..|bs|] == bs
    ensures forall i :: |bs| <= i < size ==> r[i] == 0
  {
    bs + Zeros(size - |bs|)
  }

  /**
   * Zero fill does not change the unsigned value of a buffer: the padding
   * extends the pattern with zeros, never with copies of a sign bit.
   */
  lemma {:induction false} ZeroFillKeepsValue(bs: seq<Byte>, size: nat)
    requires |bs| <= size
    ensures FromLittleEndian(ZeroFill(bs, size)) == FromLittleEndian(bs)
  {
    var r := ZeroFill(bs, size);
    if bs == [] {
      ZerosAreZero(size);
      assert r == Zeros(size);
    } else {
      ZeroFillKeepsValue(bs[1..], size - 1);
      assert r[1..] == ZeroFill(bs[1..], size - 1);
    }
  }

  /** A run of zero bytes has the value zero. */
  lemma {:induction false} ZerosAreZero(n: nat)
    ensures FromLittleEndian(Zeros(n)) == 0
  {
    if n > 0 {
      ZerosAreZero(n - 1);
      assert Zeros(n)[1..] == Zeros(n - 1);
    }
  }
}
