/** Bit streams of bitstream.c: appending numbers and bytes, most significant bit first, and packing
    into bytes; numbers and bytes are recovered from their bits. */
module QrBits {
  import opened QrSpec

  /** A byte of input or output. */
  type Byte = b: int | 0 <= b < 256

  /** The n low bits of num, most significant first. */
  function ToBits(n: nat, num: nat): (s: seq<bool>)
    ensures |s| == n
  {
    if n == 0 then [] else ToBits(n - 1, num / 2) + [num % 2 == 1]
  }

  /** The number that a string of bits spells. */
  function FromBits(s: seq<bool>): (num: nat)
    ensures num < Pow2(|s|)
  {
    if s == [] then 0 else 2 * FromBits(s[..|s| - 1]) + (if s[|s| - 1] then 1 else 0)
  }

  lemma {:induction false} FromToBits(n: nat, num: nat)
    requires num < Pow2(n)
    ensures FromBits(ToBits(n, num)) == num
  {
    if n == 0 {
    } else {
      FromToBits(n - 1, num / 2);
      assert ToBits(n, num)[..n - 1] == ToBits(n - 1, num / 2);
    }
  }

  lemma {:induction false} ToFromBits(s: seq<bool>)
    ensures ToBits(|s|, FromBits(s)) == s
  {
    if s == [] {
    } else {
      ToFromBits(s[..|s| - 1]);
      assert s == s[..|s| - 1] + [s[|s| - 1]];
    }
  }

  lemma {:induction false} ZeroBits(n: nat)
    ensures ToBits(n, 0) == seq(n, i => false)
  {
    if n == 0 {
    } else {
      ZeroBits(n - 1);
      assert seq(n, i => false) == seq(n - 1, i => false) + [false];
    }
  }

  /** Bit k of num, what `num & (1 << k)` tests. */
  function Bit(num: nat, k: nat): bool {
    if k == 0 then num % 2 == 1 else Bit(num / 2, k - 1)
  }

  lemma {:induction false} BitAt(n: nat, num: nat, j: nat)
    requires j < n
    ensures ToBits(n, num)[j] == Bit(num, n - 1 - j)
  {
    if j < n - 1 {
      BitAt(n - 1, num / 2, j);
    }
  }

  function ByteBits(data: seq<Byte>): (s: seq<bool>)
    ensures |s| == 8 * |data|
  {
    if data == [] then [] else ToBits(8, data[0]) + ByteBits(data[1..])
  }

  /** Bits packed into bytes, as toByte does it: a last partial byte is right-aligned. */
  function Pack(s: seq<bool>): (data: seq<nat>)
    ensures |data| == (|s| + 7) / 8
  {
    if s == [] then [] else if |s| < 8 then [FromBits(s)] else [FromBits(s[..8])] + Pack(s[8..])
  }

  /** A whole number of bytes unpacks to the same bits. */
  lemma {:induction false} UnpackPacked(s: seq<bool>)
    requires |s| % 8 == 0
    ensures forall i :: 0 <= i < |Pack(s)| ==> Pack(s)[i] < 256
    ensures ByteBits(Pack(s)) == s
  {
    Pow2Values();
    if s == [] {
    } else {
      UnpackPacked(s[8..]);
      ToFromBits(s[..8]);
      var p: seq<Byte> := Pack(s);
      assert p[1..] == Pack(s[8..]);
      assert s == s[..8] + s[8..];
    }
  }

  class BitStream {
    var data: array<bool>

    constructor ()
      ensures data.Length == 0 && fresh(data)
    {
      data := new bool[0];
    }

    function Bits(): seq<bool>
      reads this, data
    {
      data[..]
    }

    /** newFromNum: one bit for each position of a mask that moves right. */
    constructor FromNum(bits: nat, num: nat)
      ensures Bits() == ToBits(bits, num) && fresh(data)
    {
      data := new bool[bits];
      new;
      for i := 0 to bits
        invariant data.Length == bits && fresh(data)
        invariant forall k :: 0 <= k < i ==> data[k] == ToBits(bits, num)[k]
      {
        BitAt(bits, num, i);
        data[i] := Bit(num, bits - 1 - i);
      }
    }

    /** newFromBytes. */
    constructor FromBytes(bytes: seq<Byte>)
      ensures Bits() == ByteBits(bytes) && fresh(data)
    {
      data := new bool[8 * |bytes|];
      new;
      for i := 0 to |bytes|
        invariant data.Length == 8 * |bytes| && fresh(data)
        invariant forall k :: 0 <= k < 8 * i ==> data[k] == ByteBits(bytes)[k]
      {
        for j := 0 to 8
          invariant data.Length == 8 * |bytes| && fresh(data)
          invariant forall k :: 0 <= k < 8 * i + j ==> data[k] == ByteBits(bytes)[k]
        {
          ByteBitsAt(bytes, i, j);
          BitAt(8, bytes[i], j);
          data[8 * i + j] := Bit(bytes[i], 7 - j);
        }
      }
    }

    /** append: a new buffer holding both. */
    method Append(arg: BitStream)
      requires arg != this
      modifies this
      ensures Bits() == old(Bits()) + arg.Bits()
      ensures data == old(data) || fresh(data)
    {
      if arg.data.Length == 0 {
        assert old(Bits()) + arg.Bits() == old(Bits());
        return;
      }
      var mine, theirs := data, arg.data;
      var n := mine.Length;
      var joined := new bool[n + theirs.Length];
      for i := 0 to n
        invariant forall k :: 0 <= k < i ==> joined[k] == mine[k]
      {
        joined[i] := mine[i];
      }
      for i := 0 to theirs.Length
        invariant forall k :: 0 <= k < n ==> joined[k] == mine[k]
        invariant forall k :: 0 <= k < i ==> joined[n + k] == theirs[k]
      {
        joined[n + i] := theirs[i];
      }
      assert joined[..] == mine[..] + theirs[..];
      data := joined;
    }

    method AppendNum(bits: nat, num: nat)
      modifies this
      ensures Bits() == old(Bits()) + ToBits(bits, num)
      ensures data == old(data) || fresh(data)
    {
      if bits == 0 {
        assert old(Bits()) + [] == old(Bits());
        return;
      }
      var b := new BitStream.FromNum(bits, num);
      Append(b);
    }

    method AppendBytes(bytes: seq<Byte>)
      modifies this
      ensures Bits() == old(Bits()) + ByteBits(bytes)
      ensures data == old(data) || fresh(data)
    {
      if bytes == [] {
        assert old(Bits()) + [] == old(Bits());
        return;
      }
      var b := new BitStream.FromBytes(bytes);
      Append(b);
    }

    /** toByte, by shifting each bit into a byte; null for no bits. */
    method ToByte() returns (r: array?<nat>)
      ensures r == null <==> data.Length == 0
      ensures r != null ==> fresh(r) && r[..] == Pack(Bits())
    {
      hide Pack, FromBits;
      var size := data.Length;
      if size == 0 {
        return null;
      }
      var bytes := new nat[(size + 7) / 8];
      ghost var packed := Pack(Bits());
      var whole := size / 8;
      for i := 0 to whole
        invariant forall k :: 0 <= k < i ==> bytes[k] == packed[k]
      {
        PackAt(Bits(), i);
        var v := Shifted(8 * i, 8);
        bytes[i] := v;
      }
      if size % 8 != 0 {
        PackAt(Bits(), whole);
        var v := Shifted(8 * whole, size % 8);
        bytes[whole] := v;
      }
      assert bytes[..] == packed;
      return bytes;
    }

    /** The inner loops of toByte: v = v << 1 | *p++. */
    method Shifted(start: nat, count: nat) returns (v: nat)
      requires start + count <= data.Length
      ensures v == FromBits(Bits()[start..start + count])
    {
      v := 0;
      for j := 0 to count
        invariant v == FromBits(Bits()[start..start + j])
      {
        ghost var s := Bits()[start..start + j];
        assert Bits()[start..start + j + 1] == s + [data[start + j]];
        FromBitsAppend(s, data[start + j]);
        v := 2 * v + if data[start + j] then 1 else 0;
      }
    }
  }

  lemma FromBitsAppend(s: seq<bool>, b: bool)
    ensures FromBits(s + [b]) == 2 * FromBits(s) + (if b then 1 else 0)
  {
    assert (s + [b])[..|s|] == s;
  }

  lemma {:induction false} ByteBitsAt(bytes: seq<Byte>, i: nat, j: nat)
    requires i < |bytes| && j < 8
    ensures ByteBits(bytes)[8 * i + j] == ToBits(8, bytes[i])[j]
  {
    if i > 0 {
      ByteBitsAt(bytes[1..], i - 1, j);
    }
  }

  lemma {:induction false} PackAt(s: seq<bool>, i: nat)
    requires 8 * i < |s|
    ensures Pack(s)[i] == FromBits(s[8 * i..if 8 * i + 8 <= |s| then 8 * i + 8 else |s|])
  {
    if i == 0 {
      if |s| < 8 {
        assert s[0..|s|] == s;
      } else {
        assert s[0..8] == s[..8];
      }
    } else {
      PackAt(s[8..], i - 1);
      var e := if 8 * i + 8 <= |s| then 8 * i + 8 else |s|;
      assert s[8..][8 * (i - 1)..e - 8] == s[8 * i..e];
    }
  }
}
