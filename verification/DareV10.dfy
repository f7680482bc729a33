/** The DARE 1.0 package format: packages of a configurable payload size that carry their sequence number in
    the header and no final flag. */
module DareV10 {
  import opened Basics
  import opened Bytes
  import opened Io
  import opened Dare

  const VERSION10: byte := 0x10

  // ----- headers

  function FromLittleEndian(b: seq<byte>): nat {
    if b == [] then 0 else b[0] + 256 * FromLittleEndian(b[1..])
  }

  lemma {:induction false} LittleEndianRoundTrip(n: nat, k: nat)
    requires n < Pow256(k)
    ensures FromLittleEndian(LittleEndian(n, k)) == n
  {
    if k > 0 {
      LittleEndianRoundTrip(n / 256, k - 1);
      assert LittleEndian(n, k)[1..] == LittleEndian(n / 256, k - 1);
    }
  }

  function MakeHeader10(suite: byte, length: nat, seqNum: u32, rand: seq<byte>): Header
    requires |rand| == 8 && 1 <= length <= MAX_PAYLOAD_SIZE
  {
    [VERSION10, suite] + LittleEndian(length - 1, 2) + LittleEndian(seqNum, 4) + rand
  }

  function SequenceNumber(h: Header): nat {
    FromLittleEndian(h[4..8])
  }

  lemma HeaderFields10(suite: byte, length: nat, seqNum: u32, rand: seq<byte>)
    requires |rand| == 8 && 1 <= length <= MAX_PAYLOAD_SIZE
    ensures var h := MakeHeader10(suite, length, seqNum, rand);
            && Version(h) == VERSION10 && Cipher(h) == suite && Length(h) == length
            && SequenceNumber(h) == seqNum && Nonce(h) == LittleEndian(seqNum, 4) + rand
  {
    var h := MakeHeader10(suite, length, seqNum, rand);
    var l := LittleEndian(length - 1, 2);
    assert l == [(length - 1) % 256] + LittleEndian((length - 1) / 256, 1);
    assert LittleEndian((length - 1) / 256, 1) == [(length - 1) / 256 % 256] + [];
    assert h[2] == l[0] && h[3] == l[1];
    assert h[4..8] == LittleEndian(seqNum, 4);
    assert Pow256(4) == TWO32 by {
      assert Pow256(2) == 65536;
    }
    LittleEndianRoundTrip(seqNum, 4);
  }

  // ----- encryption

  datatype EncConfig10 = EncConfig10(aead: Aead, suite: byte, rand: seq<byte>, payloadSize: nat) {
    ghost predicate Valid() {
      aead.Lawful() && suite <= CHACHA20_POLY1305 && |rand| == 8 && 1 <= payloadSize <= MAX_PAYLOAD_SIZE
    }
  }

  /** authEncV10.Seal. */
  function Package10(c: EncConfig10, seqNum: u32, data: seq<byte>): seq<byte>
    requires |c.rand| == 8 && 1 <= |data| <= MAX_PAYLOAD_SIZE
  {
    var h := MakeHeader10(c.suite, |data|, seqNum, c.rand);
    h + c.aead.seal(c.suite, Nonce(h), AddData(h), data)
  }

  lemma PackageLength10(c: EncConfig10, seqNum: u32, data: seq<byte>)
    requires c.Valid() && 1 <= |data| <= MAX_PAYLOAD_SIZE
    ensures |Package10(c, seqNum, data)| == |data| + 32
    ensures Length(Package10(c, seqNum, data)[..HEADER_SIZE]) == |data|
  {
    HeaderFields10(c.suite, |data|, seqNum, c.rand);
    assert Package10(c, seqNum, data)[..HEADER_SIZE] == MakeHeader10(c.suite, |data|, seqNum, c.rand);
  }

  /** The canonical ciphertext: packages of payloadSize bytes and a shorter last one, numbered in order. A
      source that fails yields whole packages only. */
  function Stream10(c: EncConfig10, seqNum: u32, p: seq<byte>, tail: Err): seq<byte>
    requires |c.rand| == 8 && 1 <= c.payloadSize <= MAX_PAYLOAD_SIZE
    decreases |p|
  {
    if p == [] || (|p| < c.payloadSize && tail != EOF) then []
    else
      var k := Min(c.payloadSize, |p|);
      Package10(c, seqNum, p[..k]) + Stream10(c, AddU32(seqNum, 1), p[k..], tail)
  }

  /** Reading one payload of the source decides what its stream starts with. */
  lemma StreamNext10(c: EncConfig10, seqNum: u32, p: seq<byte>, tail: Err)
    requires |c.rand| == 8 && 1 <= c.payloadSize <= MAX_PAYLOAD_SIZE
    ensures var k := Min(c.payloadSize, |p|);
            Stream10(c, seqNum, p, tail)
            == if k == 0 || (k < c.payloadSize && tail != EOF) then []
               else Package10(c, seqNum, p[..k]) + Stream10(c, AddU32(seqNum, 1), p[k..], tail)
  {
  }

  /** A writer's share of it: the full packages, the number of the next one and the bytes kept. */
  datatype Framed = Framed(out: seq<byte>, seqNum: u32, rest: seq<byte>) {
    function After(s: seq<byte>): Framed {
      this.(out := s + out)
    }
  }

  function Frame10(c: EncConfig10, seqNum: u32, p: seq<byte>): Framed
    requires |c.rand| == 8 && 1 <= c.payloadSize <= MAX_PAYLOAD_SIZE
    decreases |p|
  {
    if |p| < c.payloadSize then Framed([], seqNum, p)
    else
      Frame10(c, AddU32(seqNum, 1), p[c.payloadSize..]).After(Package10(c, seqNum, p[..c.payloadSize]))
  }

  /** Framing is incremental: kept bytes go in front of the next piece. */
  lemma {:induction false} FrameSplit(c: EncConfig10, seqNum: u32, a: seq<byte>, b: seq<byte>)
    requires c.Valid()
    ensures var f := Frame10(c, seqNum, a); Frame10(c, seqNum, a + b) == Frame10(c, f.seqNum, f.rest + b).After(f.out)
    decreases |a|
  {
    hide Package10;
    var n := c.payloadSize;
    if |a| >= n {
      assert (a + b)[..n] == a[..n] && (a + b)[n..] == a[n..] + b;
      FrameSplit(c, AddU32(seqNum, 1), a[n..], b);
      var f := Frame10(c, AddU32(seqNum, 1), a[n..]);
      var g := Frame10(c, f.seqNum, f.rest + b);
      Assoc(Package10(c, seqNum, a[..n]), f.out, g.out);
    } else {
      var g := Frame10(c, seqNum, a + b);
      assert [] + g.out == g.out;
    }
  }

  /** The packages framed and the kept bytes as a last package are the canonical ciphertext. */
  lemma {:induction false} FrameStream(c: EncConfig10, seqNum: u32, p: seq<byte>)
    requires c.Valid()
    ensures var f := Frame10(c, seqNum, p);
            && |f.rest| < c.payloadSize
            && Stream10(c, seqNum, p, EOF) == f.out + (if f.rest == [] then [] else Package10(c, f.seqNum, f.rest))
    decreases |p|
  {
    hide Package10;
    var n := c.payloadSize;
    if |p| >= n {
      FrameStream(c, AddU32(seqNum, 1), p[n..]);
      var f := Frame10(c, AddU32(seqNum, 1), p[n..]);
      Assoc(Package10(c, seqNum, p[..n]), f.out, if f.rest == [] then [] else Package10(c, f.seqNum, f.rest));
    } else if p != [] {
      assert p[..|p|] == p && p[|p|..] == [];
      assert Package10(c, seqNum, p) + [] == Package10(c, seqNum, p) == [] + Package10(c, seqNum, p);
    }
  }

  // ----- decryption

  /** authDecV10.Open, without the state: the sequence number advances with every opened package. */
  function Open10(d: DecConfig, seqNum: u32, src: seq<byte>): Opened
    requires |src| >= HEADER_SIZE
  {
    var h: Header := src[..HEADER_SIZE];
    if Version(h) != VERSION10 then Failed(UnsupportedVersion)
    else if Cipher(h) > CHACHA20_POLY1305 || Cipher(h) !in d.suites then Failed(UnsupportedCipher)
    else if HEADER_SIZE + Length(h) + TAG_SIZE != |src| then Failed(InvalidPayloadSize)
    else if SequenceNumber(h) != seqNum then Failed(PackageOutOfOrder)
    else
      match d.aead.open(Cipher(h), Nonce(h), AddData(h), src[HEADER_SIZE..])
      case None => Failed(TagMismatch)
      case Some(m) => Opened(m)
  }

  lemma OpenedSize10(d: DecConfig, seqNum: u32, src: seq<byte>)
    requires d.aead.Lawful() && |src| >= HEADER_SIZE
    ensures var r := Open10(d, seqNum, src);
            && (r.Opened? ==> |r.payload| + 32 == |src| && Length(src[..HEADER_SIZE]) == |r.payload|)
            && (r.Failed? ==> r.err !in {Nil, EOF, ReadFailed})
  {
  }

  /** The size of the package that starts s. */
  function PackageSize10(s: seq<byte>): nat
    requires |s| >= HEADER_SIZE
  {
    HEADER_SIZE + Length(s[..HEADER_SIZE]) + TAG_SIZE
  }

  /** The meaning of ciphertext s from package seqNum on. */
  function Decode10(d: DecConfig, seqNum: u32, s: seq<byte>, tail: Err): Decoded<Err>
    decreases |s|
  {
    if s == [] then Decoded([], tail)
    else if |s| < HEADER_SIZE || |s| < PackageSize10(s) then
      Decoded([], if tail == EOF then InvalidPayloadSize else tail)
    else
      match Open10(d, seqNum, s[..PackageSize10(s)])
      case Failed(e) => Decoded([], e)
      case Opened(m) => Decode10(d, AddU32(seqNum, 1), s[PackageSize10(s)..], tail).After(m)
  }

  /** Ciphertext that ends before its first package does. */
  lemma DecodeShort10(d: DecConfig, seqNum: u32, s: seq<byte>, tail: Err)
    ensures s == [] ==> Decode10(d, seqNum, s, tail) == Decoded([], tail)
    ensures s != [] && (|s| < HEADER_SIZE || |s| < PackageSize10(s)) ==>
              Decode10(d, seqNum, s, tail) == Decoded([], if tail == EOF then InvalidPayloadSize else tail)
  {
  }

  datatype Fed10 = Fed10(plain: seq<byte>, seqNum: u32, rest: seq<byte>, err: Err) {
    function After(m: seq<byte>): Fed10 {
      this.(plain := m + plain)
    }
  }

  /** What a writer opens of s; an incomplete package waits. */
  function Feed10(d: DecConfig, seqNum: u32, s: seq<byte>): Fed10
    decreases |s|
  {
    if |s| < HEADER_SIZE || |s| < PackageSize10(s) then Fed10([], seqNum, s, Nil)
    else
      match Open10(d, seqNum, s[..PackageSize10(s)])
      case Failed(e) => Fed10([], seqNum, s, e)
      case Opened(m) => Feed10(d, AddU32(seqNum, 1), s[PackageSize10(s)..]).After(m)
  }

  /** Open never fails with one of the errors a reader gets from its source. */
  lemma OpenErrors10(d: DecConfig, seqNum: u32, src: seq<byte>)
    requires |src| >= HEADER_SIZE
    ensures Open10(d, seqNum, src).Failed? ==> Open10(d, seqNum, src).err !in {Nil, EOF, ReadFailed}
  {
  }

  lemma PackageSizeAppend(a: seq<byte>, b: seq<byte>)
    requires |a| >= HEADER_SIZE
    ensures PackageSize10(a + b) == PackageSize10(a)
  {
    assert (a + b)[..HEADER_SIZE] == a[..HEADER_SIZE];
  }

  lemma {:induction false} FeedSplit10(d: DecConfig, seqNum: u32, a: seq<byte>, b: seq<byte>)
    requires Feed10(d, seqNum, a).err == Nil
    ensures var f := Feed10(d, seqNum, a); Feed10(d, seqNum, a + b) == Feed10(d, f.seqNum, f.rest + b).After(f.plain)
    decreases |a|
  {
    hide Open10;
    if |a| >= HEADER_SIZE && |a| >= PackageSize10(a) {
      var k := PackageSize10(a);
      PackageSizeAppend(a, b);
      OpenErrors10(d, seqNum, a[..k]);
      assert (a + b)[..k] == a[..k] && (a + b)[k..] == a[k..] + b;
      FeedSplit10(d, AddU32(seqNum, 1), a[k..], b);
      var f := Feed10(d, AddU32(seqNum, 1), a[k..]);
      var g := Feed10(d, f.seqNum, f.rest + b);
      Assoc(Open10(d, seqNum, a[..k]).payload, f.plain, g.plain);
    } else {
      var g := Feed10(d, seqNum, a + b);
      assert [] + g.plain == g.plain;
    }
  }

  lemma {:induction false} FeedFails10(d: DecConfig, seqNum: u32, a: seq<byte>, b: seq<byte>)
    requires Feed10(d, seqNum, a).err != Nil
    ensures Feed10(d, seqNum, a + b).err == Feed10(d, seqNum, a).err && Feed10(d, seqNum, a + b).plain == Feed10(d, seqNum, a).plain
    decreases |a|
  {
    hide Open10;
    var k := PackageSize10(a);
    PackageSizeAppend(a, b);
    assert (a + b)[..k] == a[..k] && (a + b)[k..] == a[k..] + b;
    if Open10(d, seqNum, a[..k]).Opened? {
      FeedFails10(d, AddU32(seqNum, 1), a[k..], b);
    }
  }

  /** What Close makes of the bytes kept. */
  function Finish10(d: DecConfig, seqNum: u32, rest: seq<byte>): Decoded<Err> {
    if rest == [] then Decoded([], Nil)
    else if |rest| <= HEADER_SIZE + TAG_SIZE || |rest| < PackageSize10(rest) then Decoded([], InvalidPayloadSize)
    else
      match Open10(d, seqNum, rest[..PackageSize10(rest)])
      case Failed(e) => Decoded([], e)
      case Opened(m) => Decoded(m, Nil)
  }

  /** A writer means exactly what a reader means: nil where the reader reports EOF, and else the same error. */
  lemma {:induction false} FeedMeansDecode10(d: DecConfig, seqNum: u32, s: seq<byte>)
    ensures var f, all := Feed10(d, seqNum, s), Decode10(d, seqNum, s, EOF);
            var end := if f.err == Nil then Finish10(d, f.seqNum, f.rest) else Decoded([], f.err);
            && all.plain == f.plain && end.plain == []
            && (end.err == Nil <==> all.err == EOF)
            && (end.err != Nil ==> all.err == end.err)
    decreases |s|
  {
    hide Open10;
    if |s| >= HEADER_SIZE && |s| >= PackageSize10(s) {
      OpenErrors10(d, seqNum, s[..PackageSize10(s)]);
      if Open10(d, seqNum, s[..PackageSize10(s)]).Opened? {
        FeedMeansDecode10(d, AddU32(seqNum, 1), s[PackageSize10(s)..]);
      }
    }
  }

  // ----- round trip and truncation

  lemma OpenPackage10(d: DecConfig, c: EncConfig10, seqNum: u32, data: seq<byte>)
    requires c.Valid() && d.aead == c.aead && c.suite in d.suites && 1 <= |data| <= MAX_PAYLOAD_SIZE
    ensures |Package10(c, seqNum, data)| == |data| + 32 == PackageSize10(Package10(c, seqNum, data))
    ensures Open10(d, seqNum, Package10(c, seqNum, data)) == Opened(data)
    ensures forall t: u32 :: t != seqNum ==> Open10(d, t, Package10(c, seqNum, data)) == Failed(PackageOutOfOrder)
  {
    var h := MakeHeader10(c.suite, |data|, seqNum, c.rand);
    HeaderFields10(c.suite, |data|, seqNum, c.rand);
    PackageLength10(c, seqNum, data);
    assert Package10(c, seqNum, data)[..HEADER_SIZE] == h;
    assert Package10(c, seqNum, data)[HEADER_SIZE..] == c.aead.seal(c.suite, Nonce(h), AddData(h), data);
  }

  /** What follows a whole package is decoded after it. */
  lemma DecodeBehind10(d: DecConfig, c: EncConfig10, seqNum: u32, data: seq<byte>, more: seq<byte>, tail: Err)
    requires c.Valid() && d.aead == c.aead && c.suite in d.suites && 1 <= |data| <= MAX_PAYLOAD_SIZE
    ensures Decode10(d, seqNum, Package10(c, seqNum, data) + more, tail)
         == Decode10(d, AddU32(seqNum, 1), more, tail).After(data)
  {
    hide Open10, Package10, PackageSize10;
    var pkg := Package10(c, seqNum, data);
    OpenPackage10(d, c, seqNum, data);
    PackageSizeAppend(pkg, more);
    assert (pkg + more)[..|pkg|] == pkg && (pkg + more)[|pkg|..] == more;
  }

  /** Round trip, for every payload size and every plaintext, the empty one included. */
  lemma {:induction false} DecodeStream10(d: DecConfig, c: EncConfig10, seqNum: u32, p: seq<byte>)
    requires c.Valid() && d.aead == c.aead && c.suite in d.suites
    ensures Decode10(d, seqNum, Stream10(c, seqNum, p, EOF), EOF) == Decoded(p, EOF)
    decreases |p|
  {
    hide Package10, Decode10;
    if p == [] {
      DecodeNothing10(d, seqNum, EOF);
    } else {
      var k := Min(c.payloadSize, |p|);
      DecodeBehind10(d, c, seqNum, p[..k], Stream10(c, AddU32(seqNum, 1), p[k..], EOF), EOF);
      DecodeStream10(d, c, AddU32(seqNum, 1), p[k..]);
      assert p[..k] + p[k..] == p;
    }
  }

  lemma DecodeNothing10(d: DecConfig, seqNum: u32, tail: Err)
    ensures Decode10(d, seqNum, [], tail) == Decoded([], tail)
  {
  }

  lemma TruncatedPackage10(d: DecConfig, c: EncConfig10, seqNum: u32, data: seq<byte>, k: nat)
    requires c.Valid() && 1 <= |data| <= MAX_PAYLOAD_SIZE && 0 < k < |data| + 32 == |Package10(c, seqNum, data)|
    ensures Decode10(d, seqNum, Package10(c, seqNum, data)[..k], EOF) == Decoded([], InvalidPayloadSize)
  {
    PackageLength10(c, seqNum, data);
    var pkg := Package10(c, seqNum, data);
    if k >= HEADER_SIZE {
      assert pkg[..k][..HEADER_SIZE] == pkg[..HEADER_SIZE];
    }
  }


  /** The first package of a stream and what follows it. */
  lemma FirstPackage10(c: EncConfig10, seqNum: u32, p: seq<byte>)
    requires c.Valid() && p != []
    ensures var k := Min(c.payloadSize, |p|); var more := Stream10(c, AddU32(seqNum, 1), p[k..], EOF);
            && Stream10(c, seqNum, p, EOF) == Package10(c, seqNum, p[..k]) + more
            && |Package10(c, seqNum, p[..k])| == k + 32
            && (k < c.payloadSize ==> more == [])
  {
    PackageLength10(c, seqNum, p[..Min(c.payloadSize, |p|)]);
  }

  lemma TakeAcross(s: seq<byte>, t: seq<byte>, i: nat)
    requires i <= |t|
    ensures (s + t)[..|s| + i] == s + t[..i]
  {
  }

  /** A cut stream: between two packages the cut goes unnoticed, inside a package it is always noticed. In
      either case the whole packages before it are released. */
  lemma {:induction false} CutStream10(d: DecConfig, c: EncConfig10, seqNum: u32, p: seq<byte>, j: nat, i: nat, k: nat)
    requires c.Valid() && d.aead == c.aead && c.suite in d.suites
    requires k == Times(j, c.payloadSize + 32) + i && i < c.payloadSize + 32 && k < |Stream10(c, seqNum, p, EOF)|
    ensures Times(j, c.payloadSize) <= |p|
    ensures Decode10(d, seqNum, Stream10(c, seqNum, p, EOF)[..k], EOF)
         == Decoded(p[..Times(j, c.payloadSize)], if i == 0 then EOF else InvalidPayloadSize)
    decreases j
  {
    hide Package10, Decode10, Stream10, Times;
    NoPackages(c.payloadSize);
    if j == 0 {
      CutFirst10(d, c, seqNum, p, i);
    } else {
      var n := c.payloadSize;
      Multiples(j, n);
      var k' := k - (n + 32);
      var pkg, more := CutBehind10(c, seqNum, p, k');
      CutStream10(d, c, AddU32(seqNum, 1), p[n..], j - 1, i, k');
      DecodeBehind10(d, c, seqNum, p[..n], more[..k'], EOF);
      PrefixJoin(p, n, Times(j - 1, n));
    }
  }

  function Times(j: nat, n: nat): nat {
    j * n
  }

  lemma CutFirst10(d: DecConfig, c: EncConfig10, seqNum: u32, p: seq<byte>, i: nat)
    requires c.Valid() && d.aead == c.aead && c.suite in d.suites
    requires i < c.payloadSize + 32 && i < |Stream10(c, seqNum, p, EOF)|
    ensures Decode10(d, seqNum, Stream10(c, seqNum, p, EOF)[..i], EOF)
         == Decoded([], if i == 0 then EOF else InvalidPayloadSize)
  {
    hide Package10, Decode10;
    var m := Min(c.payloadSize, |p|);
    FirstPackage10(c, seqNum, p);
    assert Stream10(c, seqNum, p, EOF)[..i] == Package10(c, seqNum, p[..m])[..i];
    if i == 0 {
      DecodeNothing10(d, seqNum, EOF);
    } else {
      TruncatedPackage10(d, c, seqNum, p[..m], i);
    }
  }

  /** A cut behind the first package cuts the stream of the rest. */
  lemma CutBehind10(c: EncConfig10, seqNum: u32, p: seq<byte>, k: nat) returns (pkg: seq<byte>, more: seq<byte>)
    requires c.Valid() && c.payloadSize + 32 + k < |Stream10(c, seqNum, p, EOF)|
    ensures c.payloadSize <= |p| && pkg == Package10(c, seqNum, p[..c.payloadSize])
    ensures more == Stream10(c, AddU32(seqNum, 1), p[c.payloadSize..], EOF) && k < |more|
    ensures Stream10(c, seqNum, p, EOF)[..c.payloadSize + 32 + k] == pkg + more[..k]
  {
    hide Package10;
    var m := Min(c.payloadSize, |p|);
    FirstPackage10(c, seqNum, p);
    pkg, more := Package10(c, seqNum, p[..m]), Stream10(c, AddU32(seqNum, 1), p[m..], EOF);
    assert m == c.payloadSize;
    TakeAcross(pkg, more, k);
  }

  lemma NoPackages(n: nat)
    ensures Times(0, n) == 0 && Times(0, n + 32) == 0
  {
  }

  lemma Multiples(j: nat, n: nat)
    requires j > 0
    ensures Times(j, n) == n + Times(j - 1, n) && Times(j, n + 32) == n + 32 + Times(j - 1, n + 32)
  {
  }
}
