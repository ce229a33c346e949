// The streaming part shared by the SHA-1, SHA-256 and SHA-512 hashers: buffering across updates and
// padding, against sections 5.1.1 and 5.1.2 of FIPS 180-4. The compression function is a parameter.
module ShaStream {
  import opened Bits
  import opened Congruence

  /** Bytes in a block and in the length field: 64 and 8 for SHA-1 and SHA-256, 128 and 16 for SHA-512. */
  datatype Variant = Variant(block: nat, lengthBytes: nat)

  const SHORT := Variant(64, 8)
  const LONG := Variant(128, 16)

  type Compress<!S> = (S, seq<u8>) -> S

  // ---- The standard ----

  /** The state after each whole block; what is left over is not looked at. */
  function Absorb<S>(f: Compress<S>, block: nat, s: S, data: seq<u8>): S
    requires block > 0
    decreases |data|
  {
    if |data| < block then s else Absorb(f, block, f(s, data[..block]), data[block..])
  }

  function Zeros(n: nat): (r: seq<u8>)
    ensures |r| == n && forall i :: 0 <= i < n ==> r[i] == 0
  {
    seq(n, i => 0)
  }

  /** n bytes of x, most significant first. */
  function BigEndian(x: nat, n: nat): (r: seq<u8>)
    ensures |r| == n
  {
    if n == 0 then [] else BigEndian(x / 256, n - 1) + [x % 256]
  }

  /** The number of zero bytes that makes message, marker, zeros and length field whole blocks. */
  function ZeroCount(v: Variant, len: nat): (k: nat)
    requires v == SHORT || v == LONG
    ensures k < v.block
  {
    if len >= v.block then ZeroCount(v, len - v.block)
    else if len + 1 + v.lengthBytes <= v.block then v.block - (len + 1 + v.lengthBytes)
    else 2 * v.block - (len + 1 + v.lengthBytes)
  }

  /** It is the least solution of the standard's congruence. */
  lemma {:induction false} ZeroCountSolves(v: Variant, len: nat)
    requires v == SHORT || v == LONG
    ensures Whole(v.block, PaddedLength(v, len, ZeroCount(v, len)))
    decreases len
  {
    if len >= v.block {
      ZeroCountSolves(v, len - v.block);
    }
  }

  lemma {:induction false} ZeroCountLeast(v: Variant, len: nat, k: nat)
    requires (v == SHORT || v == LONG) && k < ZeroCount(v, len)
    ensures !Whole(v.block, PaddedLength(v, len, k))
    decreases len
  {
    if len >= v.block {
      ZeroCountLeast(v, len - v.block, k);
    }
  }

  function PaddedLength(v: Variant, len: nat, zeros: nat): nat {
    len + 1 + zeros + v.lengthBytes
  }

  /** A message padded as the standard asks, the length in bits given. */
  function Padded(v: Variant, msg: seq<u8>, bits: nat): seq<u8>
    requires v == SHORT || v == LONG
  {
    msg + ([0x80] + Zeros(ZeroCount(v, |msg|)) + BigEndian(bits, v.lengthBytes))
  }

  /** Byte i of n is the digit that n - 1 - i bytes follow. */
  lemma {:induction false} BigEndianByte(x: nat, n: nat, i: nat)
    requires i < n
    ensures BigEndian(x, n)[i] == (x / Pow2(8 * (n - 1 - i))) % 256
  {
    if i < n - 1 {
      BigEndianByte(x / 256, n - 1, i);
      DivDiv(x, 256, Pow2(8 * (n - 2 - i)));
      BytePower(n - 2 - i);
    }
  }

  /** The padded message byte by byte: the message, the marker, zeros, and the length, most significant byte first. */
  lemma {:induction false} PaddedBytes(v: Variant, msg: seq<u8>, bits: nat, i: nat)
    requires v == SHORT || v == LONG
    requires i < |Padded(v, msg, bits)|
    ensures var n := |Padded(v, msg, bits)|;
            n == |msg| + 1 + ZeroCount(v, |msg|) + v.lengthBytes &&
            Padded(v, msg, bits)[i] ==
              if i < |msg| then msg[i]
              else if i == |msg| then 0x80
              else if i < n - v.lengthBytes then 0
              else (bits / Pow2(8 * (n - 1 - i))) % 256
  {
    var n := |Padded(v, msg, bits)|;
    if i >= n - v.lengthBytes {
      BigEndianByte(bits, v.lengthBytes, i - (n - v.lengthBytes));
    }
  }

  // ---- Whole blocks ----

  predicate Whole(block: nat, n: nat)
    requires block > 0
  {
    n == 0 || (n >= block && Whole(block, n - block))
  }

  lemma {:induction false} WholeNext(block: nat, n: nat)
    requires block > 0 && Whole(block, n)
    ensures Whole(block, n + block)
  {
  }

  lemma {:induction false} ZeroCountWhole(v: Variant, n: nat, r: nat)
    requires (v == SHORT || v == LONG) && Whole(v.block, n) && r < v.block
    ensures ZeroCount(v, n + r) == ZeroCount(v, r)
    decreases n
  {
    if n > 0 {
      ZeroCountWhole(v, n - v.block, r);
    }
  }

  /** Blocks may be absorbed in any number of portions. */
  lemma {:induction false} AbsorbConcat<S>(f: Compress<S>, block: nat, s: S, a: seq<u8>, b: seq<u8>)
    requires block > 0 && Whole(block, |a|)
    ensures Absorb(f, block, s, a + b) == Absorb(f, block, Absorb(f, block, s, a), b)
    decreases |a|
  {
    if a == [] {
      assert a + b == b;
    } else {
      assert (a + b)[..block] == a[..block] && (a + b)[block..] == a[block..] + b;
      AbsorbConcat(f, block, f(s, a[..block]), a[block..], b);
    }
  }

  lemma {:induction false} AbsorbOne<S>(f: Compress<S>, block: nat, s: S, a: seq<u8>, b: seq<u8>)
    requires block > 0 && Whole(block, |a|) && |b| == block
    ensures Absorb(f, block, s, a + b) == f(Absorb(f, block, s, a), b) && Whole(block, |a + b|)
  {
    AbsorbConcat(f, block, s, a, b);
    WholeNext(block, |a|);
    assert b[..block] == b && b[block..] == [];
  }

  /** What follows the last whole block of the message: one block, or two when the tail is too long. */
  function LastBlocks(v: Variant, tail: seq<u8>, bits: nat): (r: seq<u8>)
    requires (v == SHORT || v == LONG) && |tail| < v.block
  {
    tail + [0x80] + Zeros(ZeroCount(v, |tail|)) + BigEndian(bits, v.lengthBytes)
  }

  lemma {:induction false} LastBlocksPad(v: Variant, whole: seq<u8>, tail: seq<u8>, bits: nat)
    requires (v == SHORT || v == LONG) && |tail| < v.block && Whole(v.block, |whole|)
    ensures Padded(v, whole + tail, bits) == whole + LastBlocks(v, tail, bits)
  {
    ZeroCountWhole(v, |whole|, |tail|);
    PadWith(v, whole, tail, whole + tail, Zeros(ZeroCount(v, |tail|)), bits);
  }

  lemma {:induction false} PadWith(v: Variant, whole: seq<u8>, tail: seq<u8>, msg: seq<u8>, zeros: seq<u8>, bits: nat)
    requires v == SHORT || v == LONG
    requires msg == whole + tail && |tail| < v.block
    requires zeros == Zeros(ZeroCount(v, |msg|)) && zeros == Zeros(ZeroCount(v, |tail|))
    ensures Padded(v, msg, bits) == whole + LastBlocks(v, tail, bits)
  {
    Reassociate(whole, tail, [0x80], zeros, BigEndian(bits, v.lengthBytes));
  }

  lemma {:induction false} Reassociate(w: seq<u8>, t: seq<u8>, a: seq<u8>, z: seq<u8>, e: seq<u8>)
    ensures (w + t) + (a + z + e) == w + (t + a + z + e)
  {
  }

  lemma {:induction false} SliceNext(data: seq<u8>, from: nat, mid: nat, to: nat)
    requires from <= mid <= to <= |data|
    ensures data[from..mid] + data[mid..to] == data[from..to]
  {
  }

  // ---- Lengths ----

  /** A length as the hasher's counter keeps it, in 64 or 128 bits. */
  function Wrap(v: Variant, n: nat): nat {
    if v.lengthBytes == 8 then n % TWO_64 else n % TWO_128
  }

  lemma {:induction false} LengthGrows(v: Variant, len: nat, n: nat)
    ensures Wrap(v, Wrap(v, len) + n) == Wrap(v, len + n)
  {
  }

  // ---- The hasher ----

  class Hasher<!S> {
    const variant: Variant
    const compress: Compress<S>
    var state: S
    const buffer: array<u8>
    var bufferLen: nat
    var totalLen: nat
    ghost const start: S
    ghost var absorbed: seq<u8>

    /** The bytes seen so far. */
    ghost function Message(): seq<u8>
      reads this, buffer
      requires bufferLen <= buffer.Length
    {
      absorbed + buffer[..bufferLen]
    }

    ghost predicate Shaped()
      reads this
    {
      (variant == SHORT || variant == LONG) && buffer.Length == variant.block && bufferLen <= variant.block &&
      Whole(variant.block, |absorbed|) && state == Absorb(compress, variant.block, start, absorbed)
    }

    /** Between calls the buffer is not full, and the length is kept modulo its width. */
    ghost predicate Valid()
      reads this, buffer
    {
      Shaped() && bufferLen < variant.block && totalLen == Wrap(variant, |Message()|)
    }

    constructor (variant: Variant, compress: Compress<S>, start: S)
      requires variant == SHORT || variant == LONG
      ensures Valid() && fresh(buffer) && Message() == []
      ensures this.variant == variant && this.compress == compress && this.start == start
    {
      this.variant, this.compress, this.start := variant, compress, start;
      state, bufferLen, totalLen, absorbed := start, 0, 0, [];
      buffer := new u8[variant.block](i => 0);
    }

    /** A full buffer is compressed and emptied. */
    method CompressBuffer()
      requires Shaped() && bufferLen == variant.block
      modifies `state, `bufferLen, `absorbed
      ensures Shaped() && bufferLen == 0 && absorbed == old(Message())
    {
      AbsorbOne(compress, variant.block, start, absorbed, buffer[..]);
      assert buffer[..bufferLen] == buffer[..];
      state := compress(state, buffer[..]);
      absorbed := absorbed + buffer[..];
      bufferLen := 0;
    }

    /** Tops up a partly filled buffer. */
    method Fill(data: seq<u8>) returns (offset: nat)
      requires Shaped() && 0 < bufferLen < variant.block
      modifies this, buffer
      ensures Shaped() && bufferLen < variant.block && totalLen == old(totalLen)
      ensures offset <= |data| && Message() == old(Message()) + data[..offset] && (offset < |data| ==> bufferLen == 0)
    {
      var room := variant.block - bufferLen;
      offset := if room <= |data| then room else |data|;
      forall i | 0 <= i < offset {
        buffer[bufferLen + i] := data[i];
      }
      assert buffer[..bufferLen + offset] == old(buffer[..bufferLen]) + data[..offset];
      bufferLen := bufferLen + offset;
      assert Message() == old(Message()) + data[..offset];
      if bufferLen == variant.block {
        CompressBuffer();
        assert buffer[..0] == [];
      }
    }

    /** Compresses whole blocks straight from the input. */
    method CompressBlocks(data: seq<u8>, from: nat) returns (offset: nat)
      requires Shaped() && bufferLen == 0 && from <= |data|
      modifies `state, `absorbed
      ensures Shaped() && from <= offset <= |data| && |data| - offset < variant.block
      ensures absorbed == old(absorbed) + data[from..offset]
    {
      offset := from;
      while offset + variant.block <= |data|
        invariant Shaped() && from <= offset <= |data| && absorbed == old(absorbed) + data[from..offset]
        decreases |data| - offset
      {
        var block := data[offset..offset + variant.block];
        AbsorbOne(compress, variant.block, start, absorbed, block);
        state := compress(state, block);
        absorbed := absorbed + block;
        SliceNext(data, from, offset, offset + variant.block);
        offset := offset + variant.block;
      }
    }

    /** Keeps what is left for later. */
    method Keep(data: seq<u8>, offset: nat)
      requires Shaped() && bufferLen == 0 && offset <= |data| && |data| - offset < variant.block
      modifies `bufferLen, buffer
      ensures Shaped() && bufferLen == |data| - offset && buffer[..bufferLen] == data[offset..]
    {
      var remaining := |data| - offset;
      forall i | 0 <= i < remaining {
        buffer[i] := data[offset + i];
      }
      bufferLen := remaining;
    }

    /** Takes in the data from `from` on, the buffer being empty. */
    method Rest(data: seq<u8>, from: nat)
      requires Shaped() && bufferLen == 0 && from <= |data|
      modifies `state, `absorbed, `bufferLen, buffer
      ensures Shaped() && bufferLen < variant.block && Message() == old(Message()) + data[from..]
    {
      var offset := CompressBlocks(data, from);
      Keep(data, offset);
      SliceNext(data, from, offset, |data|);
    }

    /** Everything `update` does but counting. */
    method Take(data: seq<u8>)
      requires Shaped() && bufferLen < variant.block
      modifies this, buffer
      ensures Shaped() && bufferLen < variant.block && Message() == old(Message()) + data && totalLen == old(totalLen)
    {
      var offset := 0;
      if bufferLen > 0 {
        offset := Fill(data);
      }
      SliceNext(data, 0, offset, |data|);
      if offset < |data| {
        Rest(data, offset);
      }
    }

    /** `update`: the message grows by the data; the buffer never stays full. */
    method Update(data: seq<u8>)
      requires Valid()
      modifies this, buffer
      ensures Valid() && Message() == old(Message()) + data
    {
      LengthGrows(variant, |Message()|, |data|);
      Take(data);
      totalLen := Wrap(variant, totalLen + |data|);
    }

    /** Zeroes part of the buffer. */
    method Clear(from: nat, to: nat)
      requires from <= to <= buffer.Length
      modifies buffer
      ensures buffer[..] == old(buffer[..from]) + Zeros(to - from) + old(buffer[to..])
    {
      forall i | from <= i < to {
        buffer[i] := 0;
      }
    }

    /** The marker byte, and when the length field no longer fits, zeros and a block of their own. */
    method Mark()
      requires Shaped() && bufferLen < variant.block
      modifies this, buffer
      ensures Shaped() && bufferLen + variant.lengthBytes <= variant.block
      ensures var tail := old(buffer[..bufferLen]) + [0x80];
              if |tail| + variant.lengthBytes <= variant.block then absorbed == old(absorbed) && buffer[..bufferLen] == tail
              else absorbed == old(absorbed) + (tail + Zeros(variant.block - |tail|)) && bufferLen == 0
    {
      buffer[bufferLen] := 0x80;
      bufferLen := bufferLen + 1;
      ghost var tail := buffer[..bufferLen];
      assert tail == old(buffer[..bufferLen]) + [0x80];
      if bufferLen > variant.block - variant.lengthBytes {
        Clear(bufferLen, variant.block);
        assert buffer[..] == tail + Zeros(variant.block - |tail|);
        bufferLen := variant.block;
        assert buffer[..bufferLen] == buffer[..];
        CompressBuffer();
      }
    }

    /** Zeros and the length field fill the last block. */
    method Close(bits: nat)
      requires Shaped() && bufferLen + variant.lengthBytes <= variant.block
      modifies this, buffer
      ensures Shaped()
      ensures absorbed == old(Message()) + (Zeros(variant.block - variant.lengthBytes - old(bufferLen)) + BigEndian(bits, variant.lengthBytes))
    {
      ghost var tail := buffer[..bufferLen];
      var field := variant.block - variant.lengthBytes;
      Clear(bufferLen, field);
      ghost var zeros := Zeros(field - bufferLen);
      assert buffer[..field] == tail + zeros;
      var length := BigEndian(bits, variant.lengthBytes);
      forall i | 0 <= i < variant.lengthBytes {
        buffer[field + i] := length[i];
      }
      assert buffer[..] == tail + zeros + length;
      bufferLen := variant.block;
      assert buffer[..bufferLen] == buffer[..];
      CompressBuffer();
      assert absorbed == old(absorbed) + tail + (zeros + length);
    }

    /**
     * `finalize`: the compression function folded over the message padded as the standard asks, the
     * length field taken modulo its width.
     */
    method Finalize() returns (r: S)
      requires Valid()
      modifies this, buffer
      ensures r == Absorb(compress, variant.block, start, Padded(variant, old(Message()), Wrap(variant, 8 * |old(Message())|)))
    {
      ghost var whole, tail := absorbed, buffer[..bufferLen];
      var totalBits := Wrap(variant, totalLen * 8);
      BitLength(variant, |Message()|);
      LastBlocksPad(variant, whole, tail, totalBits);
      LastBlocksAre(variant, whole, tail, totalBits);
      ghost var marked := tail + [0x80];
      Mark();
      assert Message() == if |marked| + variant.lengthBytes <= variant.block then whole + marked
                          else whole + (marked + Zeros(variant.block - |marked|)) by {
        assert bufferLen == 0 ==> buffer[..bufferLen] == [];
      }
      Close(totalBits);
      r := state;
    }
  }

  lemma {:induction false} BitLength(v: Variant, len: nat)
    ensures Wrap(v, Wrap(v, len) * 8) == Wrap(v, 8 * len)
  {
    ScaledMod(len, TWO_64);
    ScaledMod(len, TWO_128);
  }

  lemma {:induction false} ScaledMod(len: nat, m: nat)
    requires m > 0
    ensures (len % m * 8) % m == (8 * len) % m
  {
    CongMod(len, m);
    CongMul(len % m, len, 8, 8, m);
    CongIsMod(len % m * 8, len * 8, m);
  }

  /** The last blocks as `finalize` assembles them. */
  lemma {:induction false} LastBlocksAre(v: Variant, whole: seq<u8>, tail: seq<u8>, bits: nat)
    requires (v == SHORT || v == LONG) && |tail| < v.block
    ensures var t, e := tail + [0x80], BigEndian(bits, v.lengthBytes);
            whole + LastBlocks(v, tail, bits) ==
              if |t| + v.lengthBytes <= v.block then (whole + t) + (Zeros(v.block - v.lengthBytes - |t|) + e)
              else (whole + (t + Zeros(v.block - |t|))) + (Zeros(v.block - v.lengthBytes) + e)
  {
    var t, e := tail + [0x80], BigEndian(bits, v.lengthBytes);
    if |t| + v.lengthBytes > v.block {
      assert Zeros(2 * v.block - (|t| + v.lengthBytes)) == Zeros(v.block - |t|) + Zeros(v.block - v.lengthBytes);
    }
  }

  /** Within the lengths the standard defines, the length field is the true length in bits. */
  lemma {:induction false} FieldIsLength(v: Variant, len: nat)
    requires v == SHORT || v == LONG
    ensures Wrap(v, 8 * len) == 8 * len <==> 8 * len < if v == SHORT then TWO_64 else TWO_128
  {
  }

  /** The bytes fed to the hasher, in pieces. */
  function Joined(pieces: seq<seq<u8>>): seq<u8> {
    if pieces == [] then [] else Joined(pieces[..|pieces| - 1]) + pieces[|pieces| - 1]
  }

  /** Hashing in pieces: only the concatenation matters. */
  method HashPieces<S>(variant: Variant, compress: Compress<S>, start: S, pieces: seq<seq<u8>>) returns (r: S)
    requires variant == SHORT || variant == LONG
    ensures r == Absorb(compress, variant.block, start, Padded(variant, Joined(pieces), Wrap(variant, 8 * |Joined(pieces)|)))
  {
    var hasher := new Hasher(variant, compress, start);
    var i := 0;
    while i < |pieces|
      invariant i <= |pieces| && hasher.Valid() && fresh(hasher) && fresh(hasher.buffer)
      invariant hasher.variant == variant && hasher.compress == compress && hasher.start == start
      invariant hasher.Message() == Joined(pieces[..i])
    {
      assert pieces[..i + 1][..i] == pieces[..i];
      hasher.Update(pieces[i]);
      i := i + 1;
    }
    assert pieces[..|pieces|] == pieces;
    r := hasher.Finalize();
  }
}
