/** Hashing block by block: a compression function folded over the full blocks of a message. */
module BlockFold {
  import opened Bytes

  /** Compresses the full blocks of the data in order; bytes after the last full block are ignored. */
  function Fold<S>(compress: (S, seq<byte>) -> S, block: nat, s: S, data: seq<byte>): S
    requires block > 0
    decreases |data|
  {
    if |data| < block then s else Fold(compress, block, compress(s, data[..block]), data[block..])
  }

  /** A message can be compressed in two parts that meet at a block boundary. */
  lemma {:induction false} FoldSplit<S>(compress: (S, seq<byte>) -> S, block: nat, s: S, a: seq<byte>, b: seq<byte>, n: nat)
    requires block > 0 && |a| == n * block
    ensures Fold(compress, block, s, a + b) == Fold(compress, block, Fold(compress, block, s, a), b)
    decreases n
  {
    if n == 0 {
      assert a + b == b;
    } else {
      assert |a| == (n - 1) * block + block;
      assert (a + b)[..block] == a[..block] && (a + b)[block..] == a[block..] + b;
      FoldSplit(compress, block, compress(s, a[..block]), a[block..], b, n - 1);
    }
  }

  /** Whole blocks are a first part that can be compressed on its own. */
  lemma FoldFull<S>(compress: (S, seq<byte>) -> S, block: nat, s: S, data: seq<byte>, more: seq<byte>)
    requires block > 0 && |data| % block == 0
    ensures Fold(compress, block, s, data + more) == Fold(compress, block, Fold(compress, block, s, data), more)
  {
    var n := |data| / block;
    assert |data| == n * block;
    FoldSplit(compress, block, s, data, more, n);
  }

  /** Compressing the given blocks one after the other. */
  function Replay<S>(compress: (S, seq<byte>) -> S, s: S, blocks: seq<seq<byte>>): S {
    if blocks == [] then s else Replay(compress, compress(s, blocks[0]), blocks[1..])
  }

  predicate AllOf(size: nat, blocks: seq<seq<byte>>) {
    forall i :: 0 <= i < |blocks| ==> |blocks[i]| == size
  }

  /** Every full block is compressed, once and in order, and nothing else. */
  lemma {:induction false} FoldIsReplay<S>(compress: (S, seq<byte>) -> S, block: nat, s: S, blocks: seq<seq<byte>>, rest: seq<byte>)
    requires block > 0 && AllOf(block, blocks) && |rest| < block
    ensures Fold(compress, block, s, Flatten(blocks) + rest) == Replay(compress, s, blocks)
    decreases |blocks|
  {
    if blocks == [] {
      assert Flatten(blocks) + rest == rest;
    } else {
      var data := Flatten(blocks) + rest;
      assert data[..block] == blocks[0] && data[block..] == Flatten(blocks[1..]) + rest;
      FoldIsReplay(compress, block, compress(s, blocks[0]), blocks[1..], rest);
    }
  }

  /** The full blocks of any data, and what is behind them. */
  lemma {:induction false} CutBlocks(block: nat, data: seq<byte>) returns (blocks: seq<seq<byte>>, rest: seq<byte>)
    requires block > 0
    ensures AllOf(block, blocks) && |rest| < block && data == Flatten(blocks) + rest
    decreases |data|
  {
    hide AllOf;
    if |data| < block {
      blocks, rest := [], data;
      NoBlocks(block, data);
    } else {
      blocks, rest := CutBlocks(block, data[block..]);
      FlattenMore(data[..block], blocks, rest);
      OneMore(block, data[..block], blocks);
      assert data == data[..block] + data[block..];
      blocks := [data[..block]] + blocks;
    }
  }

  lemma NoBlocks(block: nat, rest: seq<byte>)
    ensures AllOf(block, []) && Flatten([]) + rest == rest
  {
  }

  lemma OneMore(block: nat, first: seq<byte>, blocks: seq<seq<byte>>)
    requires |first| == block && AllOf(block, blocks)
    ensures AllOf(block, [first] + blocks)
  {
  }

  lemma {:induction false} FlattenSize(block: nat, blocks: seq<seq<byte>>)
    requires block > 0 && AllOf(block, blocks)
    ensures |Flatten(blocks)| % block == 0
  {
    if blocks == [] {
      DivUnique(0, block, 0, 0);
    } else {
      FlattenSize(block, blocks[1..]);
      MoreWhole(|Flatten(blocks[1..])|, block);
    }
  }

  /** What an incremental digest holds of the data written to it: the state after whole blocks, and the bytes
      kept behind them. */
  ghost predicate Absorbed<S(!new)>(compress: (S, seq<byte>) -> S, block: nat, init: S, s: S, kept: seq<byte>, data: seq<byte>)
    requires block > 0
  {
    var k := |data| - |kept|;
    && |kept| <= block && 0 <= k && k % block == 0
    && data[k..] == kept
    && s == Fold(compress, block, init, data[..k])
  }

  lemma AbsorbedNothing<S(!new)>(compress: (S, seq<byte>) -> S, block: nat, init: S)
    requires block > 0
    ensures Absorbed(compress, block, init, init, [], [])
  {
    ghost var none: seq<byte> := [];
    assert none[..0] == [];
  }

  /** More bytes are kept, a block's worth at most. */
  lemma AbsorbedMore<S(!new)>(compress: (S, seq<byte>) -> S, block: nat, init: S, s: S, kept: seq<byte>, data: seq<byte>, p: seq<byte>)
    requires block > 0 && Absorbed(compress, block, init, s, kept, data) && |kept| + |p| <= block
    ensures Absorbed(compress, block, init, s, kept + p, data + p)
  {
    hide Fold;
    var k := |data| - |kept|;
    assert (data + p)[..k] == data[..k] && (data + p)[k..] == kept + p;
  }

  /** The kept bytes are a whole block and are compressed. */
  lemma AbsorbedBlock<S(!new)>(compress: (S, seq<byte>) -> S, block: nat, init: S, s: S, kept: seq<byte>, data: seq<byte>)
    requires block > 0 && Absorbed(compress, block, init, s, kept, data) && |kept| == block
    ensures Absorbed(compress, block, init, Fold(compress, block, s, kept), [], data)
  {
    hide Fold;
    var k := |data| - block;
    FoldFull(compress, block, init, data[..k], kept);
    assert data[..k] + kept == data == data[..|data|];
    MoreWhole(k, block);
  }

  /** Nothing is kept, and whole blocks are compressed. */
  lemma AbsorbedBlocks<S(!new)>(compress: (S, seq<byte>) -> S, block: nat, init: S, s: S, data: seq<byte>, p: seq<byte>)
    requires block > 0 && Absorbed(compress, block, init, s, [], data) && |p| % block == 0
    ensures Absorbed(compress, block, init, Fold(compress, block, s, p), [], data + p)
  {
    hide Fold;
    FoldFull(compress, block, init, data, p);
    assert data[..|data|] == data && (data + p)[..|data + p|] == data + p;
    WholeSum(|data|, |p|, block);
  }

  lemma MoreWhole(k: nat, block: nat)
    requires block > 0 && k % block == 0
    ensures (k + block) % block == 0
  {
    var q := k / block;
    assert k + block == block * (q + 1) + 0;
    DivUnique(k + block, block, q + 1, 0);
  }

  lemma WholeSum(a: nat, b: nat, block: nat)
    requires block > 0 && a % block == 0 && b % block == 0
    ensures (a + b) % block == 0
  {
    var q, r := a / block, b / block;
    assert a + b == block * (q + r) + 0;
    DivUnique(a + b, block, q + r, 0);
  }

  /** The data of a digest: whole blocks and less than a block. */
  lemma AbsorbedParts<S(!new)>(compress: (S, seq<byte>) -> S, block: nat, init: S, s: S, kept: seq<byte>, data: seq<byte>)
    requires block > 0 && Absorbed(compress, block, init, s, kept, data) && |kept| < block
    ensures var k := |data| - |kept|;
            && |kept| == |data| % block && k % block == 0 && data == data[..k] + kept && data[k..] == kept
            && s == Fold(compress, block, init, data[..k])
  {
    hide Fold;
    var k := |data| - |kept|;
    assert data == data[..k] + data[k..];
    RestOfWhole(k, |kept|, block);
  }

  lemma RestOfWhole(k: nat, r: nat, block: nat)
    requires r < block && k % block == 0
    ensures (k + r) % block == r
  {
    var q := k / block;
    assert k + r == block * q + r;
    DivUnique(k + r, block, q, r);
  }

  /** The loop over the blocks of a message. */
  method Blocks<S>(compress: (S, seq<byte>) -> S, block: nat, s: S, data: seq<byte>) returns (h: S)
    requires block > 0
    ensures h == Fold(compress, block, s, data)
  {
    h := s;
    var p := data;
    while |p| >= block
      invariant Fold(compress, block, h, p) == Fold(compress, block, s, data)
      decreases |p|
    {
      h := compress(h, p[..block]);
      p := p[block..];
    }
  }

  function Zeros(n: nat): (z: seq<byte>)
    ensures |z| == n
  {
    seq(n, _ => 0)
  }

  /** Big-endian bytes, as PutUint64 stores them. */
  function BigEndian(n: nat, k: nat): (r: seq<byte>)
    ensures |r| == k
  {
    if k == 0 then [] else BigEndian(n / 256, k - 1) + [n % 256]
  }

  lemma {:induction false} BigEndianInjective(m: nat, n: nat, k: nat)
    requires m < Pow256(k) && n < Pow256(k) && BigEndian(m, k) == BigEndian(n, k)
    ensures m == n
  {
    if k > 0 {
      var a, b := BigEndian(m, k), BigEndian(n, k);
      assert a[..k - 1] == b[..k - 1] && a[k - 1] == b[k - 1];
      BigEndianInjective(m / 256, n / 256, k - 1);
    }
  }

  function BigEndianValue(b: seq<byte>): nat {
    if b == [] then 0 else 256 * BigEndianValue(b[..|b| - 1]) + b[|b| - 1]
  }

  lemma {:induction false} BigEndianRoundTrip(n: nat, k: nat)
    requires n < Pow256(k)
    ensures BigEndianValue(BigEndian(n, k)) == n
  {
    if k > 0 {
      BigEndianRoundTrip(n / 256, k - 1);
      assert BigEndian(n, k)[..k - 1] == BigEndian(n / 256, k - 1);
    }
  }

  /** The byte at index i is what a shift by the bytes behind it leaves. */
  lemma {:induction false} BigEndianAt(n: nat, k: nat, i: nat)
    requires i < k
    ensures Pow256(k - 1 - i) > 0 && BigEndian(n, k)[i] == n / Pow256(k - 1 - i) % 256
  {
    if i < k - 1 {
      BigEndianAt(n / 256, k - 1, i);
      DivDiv(n, Pow256(k - 2 - i));
    }
  }

  lemma AtLeastOnce(d: nat, k: nat)
    requires k >= 1
    ensures d * k >= d
  {
    var j: nat := k - 1;
    assert d * k == d * j + d;
  }

  lemma DivUnique(n: nat, d: nat, q: nat, r: nat)
    requires d > 0 && n == d * q + r && r < d
    ensures n / d == q && n % d == r
  {
    var x, y := n / d, n % d;
    assert n == d * x + y;
    assert d * (x - q) == d * x - d * q && d * (q - x) == d * q - d * x;
    if x > q {
      AtLeastOnce(d, x - q);
    } else if x < q {
      AtLeastOnce(d, q - x);
    }
  }

  lemma DivDiv(n: nat, b: nat)
    requires b > 0
    ensures n / 256 / b == n / (256 * b)
  {
    var s, u := n / 256, n % 256;
    var q, t := s / b, s % b;
    assert s == b * q + t;
    assert n == (256 * b) * q + (256 * t + u);
    DivUnique(n, 256 * b, q, 256 * t + u);
  }
}
