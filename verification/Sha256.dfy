/** pkg/sha256-simd: the incremental digest and the two ways its last blocks are formed. */
module Sha256 {
  import opened Basics
  import opened Bytes
  import opened BlockFold

  const CHUNK: nat := 64

  /** The initial hash value, the compression of one block, and the output words. */
  datatype Core<!S> = Core(init: S, block: (S, seq<byte>) -> S, output: S -> seq<byte>)

  function U64(n: nat): nat {
    n % TWO64
  }

  /** The padded message of section 5.1.1 of FIPS 180-4: one bit, zeros up to 448 bits modulo 512, and the
      length in bits as a 64-bit number. */
  function Padded(data: seq<byte>): seq<byte> {
    data + [0x80] + Zeros(PadZeros(|data|)) + BigEndian(U64(8 * |data|), 8)
  }

  function PadZeros(n: nat): nat {
    (119 - n % CHUNK) % CHUNK
  }

  lemma PadZerosAt(n: nat)
    requires n < CHUNK
    ensures PadZeros(n) == if n < 56 then 55 - n else 119 - n
  {
  }

  /** The zeros are the fewest that leave room for the length at the end of a block. */
  lemma PaddingRule(data: seq<byte>, z: nat)
    ensures |Padded(data)| % CHUNK == 0
    ensures (|data| + 1 + z + 8) % CHUNK == 0 ==> z >= PadZeros(|data|)
  {
    hide U64, BigEndian;
  }

  /** Messages below 2^61 bytes are padded to different block sequences. */
  lemma PaddedInjective(a: seq<byte>, b: seq<byte>)
    requires |a| < TWO64 / 8 && |b| < TWO64 / 8 && Padded(a) == Padded(b)
    ensures a == b
  {
    hide BigEndian, PadZeros, Pow256;
    EightBytes();
    LengthField(a);
    LengthField(b);
    BigEndianInjective(8 * |a|, 8 * |b|, 8);
    assert a == Padded(a)[..|a|] && b == Padded(b)[..|b|];
  }

  lemma LengthField(data: seq<byte>)
    requires |data| < TWO64 / 8
    ensures |Padded(data)| >= 8 && Padded(data)[|Padded(data)| - 8..] == BigEndian(8 * |data|, 8)
  {
    hide BigEndian, PadZeros;
  }

  /** Byte by byte: the message, one bit, zeros, and the message's length in bits modulo 2^64, highest byte first. */
  lemma PaddedBytes(data: seq<byte>)
    ensures var p := Padded(data); var n := |data|;
            && |p| % 64 == 0 && n + 9 <= |p| < n + 73
            && p[..n] == data && p[n] == 0x80
            && (forall i :: n < i < |p| - 8 ==> p[i] == 0)
            && BigEndianValue(p[|p| - 8..]) == 8 * n % 0x1_0000_0000_0000_0000
  {
    hide BigEndian, Pow256, PadZeros;
    PaddingRule(data, 0);
    EightBytes();
    var length := BigEndian(U64(8 * |data|), 8);
    BigEndianRoundTrip(U64(8 * |data|), 8);
    FewZeros(|data|);
    var front := data + [0x80] + Zeros(PadZeros(|data|));
    assert Padded(data) == front + length;
    assert (front + length)[|front|..] == length;
  }

  lemma FewZeros(n: nat)
    ensures PadZeros(n) < CHUNK
  {
  }

  /** Every block of the padded message is compressed, once and in order. */
  lemma HashBlocks<S(!new)>(core: Core<S>, data: seq<byte>) returns (blocks: seq<seq<byte>>)
    ensures AllOf(CHUNK, blocks) && Flatten(blocks) == Padded(data)
    ensures Hash(core, data) == core.output(Replay(core.block, core.init, blocks))
  {
    hide Padded, Fold;
    var rest;
    blocks, rest := CutBlocks(CHUNK, Padded(data));
    FlattenSize(CHUNK, blocks);
    RestOfWhole(|Flatten(blocks)|, |rest|, CHUNK);
    PaddingRule(data, 0);
    FoldIsReplay(core.block, CHUNK, core.init, blocks, rest);
    assert Flatten(blocks) + [] == Flatten(blocks);
  }

  lemma EightBytes()
    ensures Pow256(8) == TWO64
  {
    assert Pow256(4) == 0x1_0000_0000;
  }

  /** The 64-bit length counter: it may wrap around and still gives the length field. */
  lemma LengthCounter(n: nat, k: nat)
    ensures U64(U64(n) + k) == U64(n + k)
    ensures U64(U64(n) * 8) == U64(8 * n)
    ensures U64(n) % CHUNK == n % CHUNK
  {
    var q, r := n / TWO64, n % TWO64;
    Remainder(r + k, q);
    Remainder(8 * r, 8 * q);
    hide U64;
    BlockRemainder(n, q, r);
    assert U64(n) == r by {
      Reduced(n);
    }
  }

  lemma Reduced(n: nat)
    ensures U64(n) == n % TWO64
  {
  }

  lemma BlockRemainder(n: nat, q: nat, r: nat)
    requires n == q * TWO64 + r
    ensures n % CHUNK == r % CHUNK
  {
  }

  /** Multiples of 2^64 do not change what is left modulo 2^64. */
  lemma Remainder(r: nat, q: nat)
    ensures U64(r + q * TWO64) == U64(r)
  {
  }

  function Hash<S(!new)>(core: Core<S>, data: seq<byte>): seq<byte> {
    core.output(Fold(core.block, CHUNK, core.init, Padded(data)))
  }

  /** digest and Avx512Digest: both buffer what is written in the same way and differ in how they finish. For
      the latter, `h` stands for the digest the server keeps of the blocks handed to it. */
  class Digest<S(!new)> {
    const core: Core<S>
    const x: array<byte>
    var h: S
    var nx: nat
    var len: nat
    ghost var data: seq<byte>

    constructor (core: Core<S>)
      ensures Valid() && data == [] && this.core == core && fresh(x)
    {
      hide Absorbed;
      this.core := core;
      x := new byte[CHUNK];
      h, nx, len, data := core.init, 0, 0, [];
      new;
      AbsorbedNothing(core.block, CHUNK, core.init);
      assert x[..0] == [];
    }

    ghost predicate Valid()
      reads this, x
    {
      && x.Length == CHUNK && nx < CHUNK && len == U64(|data|)
      && Absorbed(core.block, CHUNK, core.init, h, x[..nx], data)
    }

    /** Appends to the message. */
    method Write(p: seq<byte>) returns (nn: nat)
      requires Valid()
      modifies this, x
      ensures Valid() && nn == |p| && data == old(data) + p
    {
      hide Fold, U64, Absorbed;
      nn := |p|;
      var rest := p;
      if nx > 0 {
        var n := Min(CHUNK - nx, |p|);
        assert p == p[..n] + p[n..];
        Buffer(p[..n]);
        rest := p[n..];
      }
      assert data + rest == old(data) + p;
      AbsorbRest(rest);
    }

    /** The part of Write behind a completed block: full blocks are compressed and the rest is buffered. */
    method AbsorbRest(p: seq<byte>)
      requires Valid() && (nx == 0 || p == [])
      modifies this, x
      ensures Valid() && data == old(data) + p
    {
      hide Fold, U64, Absorbed;
      var rest := p;
      if |rest| >= CHUNK {
        var n := |rest| - |rest| % CHUNK;
        assert rest == rest[..n] + rest[n..];
        Absorb(rest[..n]);
        rest := rest[n..];
      }
      assert data + rest == old(data) + p;
      if |rest| > 0 {
        Buffer(rest);
      } else {
        assert data + rest == data;
      }
    }

    /** Copies bytes behind the buffered ones; a full buffer is compressed. */
    method Buffer(p: seq<byte>)
      requires Valid() && nx + |p| <= CHUNK
      modifies this, x
      ensures Valid() && data == old(data) + p
      ensures nx == if old(nx) + |p| == CHUNK then 0 else old(nx) + |p|
    {
      hide Absorbed, Fold, U64, Splice;
      LengthCounter(|data|, |p|);
      AbsorbedMore(core.block, CHUNK, core.init, h, x[..nx], data, p);
      SplicePrefix(x[..], nx, p);
      len := U64(len + |p|);
      Put(x, nx, p);
      nx := nx + |p|;
      data := data + p;
      if nx == CHUNK {
        assert x[..] == x[..nx];
        AbsorbedBlock(core.block, CHUNK, core.init, h, x[..], data);
        h := Blocks(core.block, CHUNK, h, x[..]);
        nx := 0;
        assert x[..0] == [];
      }
    }

    method Absorb(p: seq<byte>)
      requires Valid() && nx == 0 && |p| % CHUNK == 0
      modifies this
      ensures Valid() && nx == 0 && data == old(data) + p
    {
      hide Absorbed, Fold, U64;
      LengthCounter(|data|, |p|);
      assert x[..0] == [];
      AbsorbedBlocks(core.block, CHUNK, core.init, h, data, p);
      len := U64(len + |p|);
      h := Blocks(core.block, CHUNK, h, p);
      data := data + p;
    }

    /** What remains to be compressed: the buffered bytes and the padding. */
    ghost function LastBlocks(): seq<byte>
      requires Valid()
      reads this, x
    {
      x[..nx] + [0x80] + Zeros(PadZeros(nx)) + BigEndian(U64(len * 8), 8)
    }

    lemma LastBlocksFinish()
      requires Valid()
      ensures Fold(core.block, CHUNK, h, LastBlocks()) == Fold(core.block, CHUNK, core.init, Padded(data))
      ensures |LastBlocks()| == if nx < 56 then CHUNK else 2 * CHUNK
    {
      hide Fold, BigEndian, U64, Absorbed;
      var k := |data| - nx;
      AbsorbedParts(core.block, CHUNK, core.init, h, x[..nx], data);
      LengthCounter(|data|, 0);
      assert PadZeros(nx) == PadZeros(|data|);
      assert Padded(data) == data[..k] + LastBlocks();
      FoldFull(core.block, CHUNK, core.init, data[..k], LastBlocks());
    }

    /** digest.Sum: the last one or two blocks are formed in one array; the digest stays as it is. */
    method Sum(prefix: seq<byte>) returns (r: seq<byte>)
      requires Valid()
      ensures r == prefix + Hash(core, data)
    {
      hide Fold, BigEndian, U64, Absorbed;
      var n, s := nx, h;
      var k := new byte[CHUNK](_ => 0);
      assert k[..] == Zeros(CHUNK);
      Put(k, 0, x[..n]);
      k[n] := 0x80;
      assert k[..] == x[..n] + [0x80] + Zeros(CHUNK - 1 - n);
      LastBlocksFinish();
      PadZerosAt(n);
      if n >= 56 {
        OneBlock(core, s, k[..]);
        s := core.block(s, k[..]);
        assert Zeros(119 - n) == Zeros(63 - n) + Zeros(56);
        assert LastBlocks() == k[..] + (Zeros(56) + BigEndian(U64(len * 8), 8));
        FoldFull(core.block, CHUNK, h, k[..], Zeros(56) + BigEndian(U64(len * 8), 8));
        forall i | 0 <= i < CHUNK {
          k[i] := 0;
        }
        assert k[..56] == Zeros(56);
      } else {
        assert k[..56] == x[..n] + [0x80] + Zeros(55 - n);
      }
      ghost var front := k[..56];
      Put(k, 56, BigEndian(U64(len * 8), 8));
      assert k[..] == front + BigEndian(U64(len * 8), 8);
      OneBlock(core, s, k[..]);
      assert n < 56 ==> LastBlocks() == k[..];
      s := core.block(s, k[..]);
      r := prefix + core.output(s);
    }

    /** The length, byte by byte from the highest. */
    method PutLength(tmp: array<byte>, bits: nat)
      requires tmp.Length == CHUNK
      modifies tmp
      ensures tmp[..8] == BigEndian(bits, 8)
    {
      hide BigEndian, Pow256;
      for i := 0 to 8
        invariant tmp[..i] == BigEndian(bits, 8)[..i]
      {
        BigEndianAt(bits, 8, i);
        tmp[i] := bits / Pow256(7 - i) % 256;
      }
    }

    /** The trailer: slices of an array that starts with the one bit, and the length over its first bytes. */
    method Trailer() returns (t: seq<byte>)
      requires Valid()
      ensures t == LastBlocks()
    {
      hide Fold, BigEndian, U64, Absorbed;
      LengthCounter(|data|, 0);
      AbsorbedParts(core.block, CHUNK, core.init, h, x[..nx], data);
      var tmp := new byte[CHUNK](i => if i == 0 then 0x80 else 0);
      var k := PadLength();
      t := x[..nx] + tmp[..k];
      assert tmp[..k] == [0x80] + Zeros(k - 1);
      PutLength(tmp, U64(len * 8));
      t := t + tmp[..8];
    }

    /** The number of padding bytes before the length. */
    method PadLength() returns (k: nat)
      requires Valid()
      ensures k == 1 + PadZeros(nx) <= CHUNK
    {
      hide Fold, U64, Absorbed, PadZeros;
      LengthCounter(|data|, 0);
      AbsorbedParts(core.block, CHUNK, core.init, h, x[..nx], data);
      PadZerosAt(nx);
      var m := len % CHUNK;
      assert m == nx;
      if m < 56 {
        k := 56 - m;
      } else {
        k := 64 + 56 - m;
      }
    }

    /** Avx512Digest.Sum: the trailer is handed over as one message. */
    method SumAvx512(prefix: seq<byte>) returns (r: seq<byte>, ghost trail: seq<byte>)
      requires Valid()
      ensures trail == LastBlocks()
      ensures r == prefix + Hash(core, data)
    {
      hide Fold, Valid, LastBlocks;
      var t := Trailer();
      trail := t;
      LastBlocksFinish();
      r := prefix + core.output(Fold(core.block, CHUNK, h, t));
    }
  }

  lemma OneBlock<S(!new)>(core: Core<S>, s: S, b: seq<byte>)
    requires |b| == CHUNK
    ensures Fold(core.block, CHUNK, s, b) == core.block(s, b)
  {
    assert b[..CHUNK] == b && b[CHUNK..] == [];
  }

  /** Writing in any pieces and finishing in either way gives the hash of the whole. */
  method HashPieces<S(!new)>(core: Core<S>, pieces: seq<seq<byte>>) returns (r: seq<byte>, r': seq<byte>)
    ensures r == r' == Hash(core, Flatten(pieces))
  {
    hide Digest.Valid, Hash;
    var d := new Digest(core);
    for i := 0 to |pieces|
      invariant d.Valid() && d.data == Flatten(pieces[..i]) && fresh(d) && fresh(d.x) && d.core == core
    {
      FlattenSnoc(pieces[..i], pieces[i]);
      assert pieces[..i + 1] == pieces[..i] + [pieces[i]];
      var _ := d.Write(pieces[i]);
    }
    assert pieces[..|pieces|] == pieces;
    r := d.Sum([]);
    ghost var trail;
    r', trail := d.SumAvx512([]);
    assert [] + Hash(core, d.data) == Hash(core, d.data);
  }
}
