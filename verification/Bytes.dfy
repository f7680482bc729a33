/** Bytes, 32-bit counters and the bitwise operation the DARE nonce needs. */
module Bytes {
  type byte = x: int | 0 <= x < 256

  const TWO32: int := 0x1_0000_0000

  /** The Go type uint32. */
  type u32 = x: int | 0 <= x < 0x1_0000_0000

  function Min(a: int, b: int): int {
    if a <= b then a else b
  }

  /** Addition on uint32 wraps around. */
  function AddU32(s: u32, k: nat): u32 {
    (s + k) % TWO32
  }

  function Pow2(k: nat): nat {
    if k == 0 then 1 else 2 * Pow2(k - 1)
  }

  /** Exclusive or of the low `bits` bits of two numbers. */
  function XorBits(a: nat, b: nat, bits: nat): (r: nat)
    ensures r < Pow2(bits)
  {
    if bits == 0 then 0 else (a % 2 + b % 2) % 2 + 2 * XorBits(a / 2, b / 2, bits - 1)
  }

  /** The lowest bit and the others. */
  lemma XorParts(a: nat, b: nat, bits: nat)
    requires bits > 0
    ensures XorBits(a, b, bits) % 2 == (a % 2 + b % 2) % 2
    ensures XorBits(a, b, bits) / 2 == XorBits(a / 2, b / 2, bits - 1)
  {
    LowBit((a % 2 + b % 2) % 2, XorBits(a / 2, b / 2, bits - 1));
  }

  lemma LowBit(bit: nat, x: nat)
    requires bit < 2
    ensures (bit + 2 * x) % 2 == bit && (bit + 2 * x) / 2 == x
  {
  }

  lemma {:induction false} XorCancels(a: nat, b: nat, c: nat, bits: nat)
    requires b < Pow2(bits) && c < Pow2(bits)
    requires XorBits(a, b, bits) == XorBits(a, c, bits)
    ensures b == c
  {
    hide XorBits;
    if bits > 0 {
      XorParts(a, b, bits);
      XorParts(a, c, bits);
      XorCancels(a / 2, b / 2, c / 2, bits - 1);
    }
  }

  function XorByte(a: byte, b: byte): byte {
    assert Pow2(8) == 256;
    XorBits(a, b, 8)
  }

  /** Bit k of a number, counted from the lowest. */
  predicate Bit(x: nat, k: nat) {
    if k == 0 then x % 2 == 1 else Bit(x / 2, k - 1)
  }

  /** A bit is set in the exclusive or exactly if it is set in one of the two. */
  lemma {:induction false} XorBitwise(a: nat, b: nat, bits: nat, k: nat)
    requires k < bits
    ensures Bit(XorBits(a, b, bits), k) <==> Bit(a, k) != Bit(b, k)
  {
    hide XorBits;
    XorParts(a, b, bits);
    if k > 0 {
      XorBitwise(a / 2, b / 2, bits - 1, k - 1);
    }
  }

  lemma {:induction false} XorCommutes(a: nat, b: nat, bits: nat)
    ensures XorBits(a, b, bits) == XorBits(b, a, bits)
  {
    if bits > 0 {
      XorCommutes(a / 2, b / 2, bits - 1);
    }
  }

  lemma XorByteCancels(a: byte, b: byte, c: byte)
    ensures XorByte(a, b) == XorByte(a, c) <==> b == c
    ensures XorByte(b, a) == XorByte(c, a) <==> b == c
  {
    hide XorBits;
    assert Pow2(8) == 256;
    XorCommutes(a, b, 8);
    XorCommutes(a, c, 8);
    if XorByte(a, b) == XorByte(a, c) {
      XorCancels(a, b, c, 8);
    }
  }

  /** The low `k` bytes of a number in little-endian order, as PutUint16 and PutUint32 store them. */
  function LittleEndian(s: nat, k: nat): (r: seq<byte>)
    ensures |r| == k
  {
    if k == 0 then [] else [s % 256] + LittleEndian(s / 256, k - 1)
  }

  function Pow256(k: nat): nat {
    if k == 0 then 1 else 256 * Pow256(k - 1)
  }

  lemma {:induction false} LittleEndianInjective(s: nat, t: nat, k: nat)
    requires s < Pow256(k) && t < Pow256(k)
    requires LittleEndian(s, k) == LittleEndian(t, k)
    ensures s == t
  {
    if k > 0 {
      var a, b := LittleEndian(s, k), LittleEndian(t, k);
      assert a[0] == b[0] && a[1..] == b[1..];
      LittleEndianInjective(s / 256, t / 256, k - 1);
    }
  }

  function Flatten(chunks: seq<seq<byte>>): seq<byte> {
    if chunks == [] then [] else chunks[0] + Flatten(chunks[1..])
  }

  lemma {:induction false} FlattenSnoc(chunks: seq<seq<byte>>, last: seq<byte>)
    ensures Flatten(chunks + [last]) == Flatten(chunks) + last
  {
    if chunks == [] {
      assert chunks + [last] == [last];
      assert Flatten([last]) == last + [];
    } else {
      FlattenSnoc(chunks[1..], last);
      assert (chunks + [last])[1..] == chunks[1..] + [last];
    }
  }

  lemma FlattenMore(first: seq<byte>, chunks: seq<seq<byte>>, rest: seq<byte>)
    ensures Flatten([first] + chunks) + rest == first + (Flatten(chunks) + rest)
  {
    assert ([first] + chunks)[1..] == chunks;
  }

  lemma {:induction false} FlattenSplit(chunks: seq<seq<byte>>, i: nat)
    requires i <= |chunks|
    ensures Flatten(chunks) == Flatten(chunks[..i]) + Flatten(chunks[i..])
  {
    if i > 0 {
      FlattenSplit(chunks[1..], i - 1);
      assert chunks[..i][1..] == chunks[1..][..i - 1] && chunks[1..][i - 1..] == chunks[i..];
      assert chunks[..i][0] == chunks[0];
    }
  }

  /** What a decoder makes of a byte string: the bytes it releases and how it ends. */
  datatype Decoded<+E> = Decoded(plain: seq<byte>, err: E) {
    function After(m: seq<byte>): Decoded<E> {
      Decoded(m + plain, err)
    }
  }

  lemma AfterAfter<E>(d: Decoded<E>, a: seq<byte>, b: seq<byte>)
    ensures d.After(b).After(a) == d.After(a + b)
  {
    assert a + (b + d.plain) == (a + b) + d.plain;
  }

  lemma AfterNothing<E>(d: Decoded<E>)
    ensures d.After([]) == d
  {
    assert [] + d.plain == d.plain;
  }

  /** A part of m released at once and the rest later. */
  lemma AfterParts<E>(d: Decoded<E>, before: seq<byte>, m: seq<byte>, k: nat)
    requires k <= |m|
    ensures d.After(m).After(before) == d.After(m[k..]).After(before + m[..k])
  {
    AfterAfter(d, m[..k], m[k..]);
    AfterAfter(d.After(m[k..]), before, m[..k]);
    assert m == m[..k] + m[k..];
  }

  /** s with the elements from index `at` on overwritten by t. */
  function Splice(s: seq<byte>, at: nat, t: seq<byte>): (r: seq<byte>)
    requires at + |t| <= |s|
    ensures |r| == |s|
  {
    s[..at] + t + s[at + |t|..]
  }

  lemma SpliceWindow(s: seq<byte>, at: nat, t: seq<byte>)
    requires at + |t| <= |s|
    ensures Splice(s, at, t)[at..at + |t|] == t
  {
  }

  lemma SplicePrefix(s: seq<byte>, at: nat, t: seq<byte>)
    requires at + |t| <= |s|
    ensures Splice(s, at, t)[..at + |t|] == s[..at] + t
  {
  }

  lemma SpliceOutside(s: seq<byte>, at: nat, t: seq<byte>, lo: nat, hi: nat)
    requires at + |t| <= |s| && lo <= hi <= |s|
    requires hi <= at || at + |t| <= lo
    ensures Splice(s, at, t)[lo..hi] == s[lo..hi]
  {
  }

  lemma SpliceNothing(s: seq<byte>, at: nat)
    requires at <= |s|
    ensures Splice(s, at, []) == s
  {
  }

  lemma SpliceAll(s: seq<byte>, t: seq<byte>)
    requires |t| == |s|
    ensures Splice(s, 0, t) == t
  {
  }

  lemma SpliceTwice(s: seq<byte>, at: nat, t: seq<byte>, u: seq<byte>)
    requires at + |t| + |u| <= |s|
    ensures Splice(Splice(s, at, t), at + |t|, u) == Splice(s, at, t + u)
  {
  }

  /** A slice, cut in two. */
  lemma SeqParts(t: seq<byte>, lo: nat, hi: nat, n: nat)
    requires lo <= hi <= |t| && n <= hi - lo
    ensures t[lo..hi][..n] == t[lo..lo + n] && t[lo..hi][n..] == t[lo + n..hi]
    ensures t[lo..hi] == t[lo..lo + n] + t[lo + n..hi]
  {
    var whole := t[lo..hi];
    assert whole == whole[..n] + whole[n..];
    forall i | 0 <= i < n
      ensures whole[i] == t[lo..lo + n][i]
    {
    }
    forall i | 0 <= i < hi - lo - n
      ensures whole[n..][i] == t[lo + n..hi][i]
    {
    }
  }

  /** A slice of an array, cut in two. */
  lemma SliceParts(s: array<byte>, lo: nat, hi: nat, n: nat)
    requires lo <= hi <= s.Length && n <= hi - lo
    ensures s[lo..hi][..n] == s[lo..lo + n] && s[lo..hi][n..] == s[lo + n..hi]
    ensures s[lo..hi] == s[lo..lo + n] + s[lo + n..hi]
  {
    SeqParts(s[..], lo, hi, n);
  }

  /** A slice inside a known beginning of an array. */
  lemma SliceOfStart(s: array<byte>, t: seq<byte>, lo: nat, hi: nat)
    requires |t| <= s.Length && s[..|t|] == t && lo <= hi <= |t|
    ensures s[lo..hi] == t[lo..hi]
  {
    var start := s[..|t|];
    forall i | lo <= i < hi
      ensures s[i] == t[i]
    {
      assert start[i] == s[i];
    }
  }

  lemma TailParts(t: seq<byte>, lo: nat, k: nat)
    requires lo + k <= |t|
    ensures t[lo..] == t[lo..lo + k] + t[lo + k..]
  {
  }

  /** The built-in copy of Go: overwrites `dst` from index `at` on with `src`. */
  method Put(dst: array<byte>, at: nat, src: seq<byte>)
    requires at + |src| <= dst.Length
    modifies dst
    ensures dst[..] == Splice(old(dst[..]), at, src)
  {
    forall i | 0 <= i < |src| {
      dst[at + i] := src[i];
    }
  }
}
