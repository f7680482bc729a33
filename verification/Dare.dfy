/** The DARE 2.0 package format: headers, nonces, sealing and opening of one package,
    and the two reference functions every stream machine is proved against: `Stream`,
    the canonical ciphertext of a plaintext, and `Decode`, the meaning of any byte string. */
module Dare {
  import opened Basics
  import opened Bytes
  import opened Io

  const HEADER_SIZE: int := 16
  const TAG_SIZE: int := 16
  const MAX_PAYLOAD_SIZE: int := 65536
  const MAX_PACKAGE_SIZE: int := 65568
  const VERSION20: byte := 0x20
  const CHACHA20_POLY1305: byte := 1

  /** An AEAD per cipher id (the key is fixed), with the interface of section 2 of RFC 5116:
      arguments are cipher id, nonce, associated data and plaintext or ciphertext. */
  datatype Aead = Aead(
    seal: (byte, seq<byte>, seq<byte>, seq<byte>) -> seq<byte>,
    open: (byte, seq<byte>, seq<byte>, seq<byte>) -> Option<seq<byte>>)
  {
    ghost predicate Lawful() {
      && (forall c, nonce, ad, m :: |seal(c, nonce, ad, m)| == |m| + TAG_SIZE)
      && (forall c, nonce, ad, m :: open(c, nonce, ad, seal(c, nonce, ad, m)) == Some(m))
      && (forall c, nonce, ad, s :: open(c, nonce, ad, s).Some? ==> |open(c, nonce, ad, s).value| + TAG_SIZE == |s|)
    }
  }

  // ----- headers

  type Header = h: seq<byte> | |h| == 16 witness seq(16, _ => 0)

  /** SetRand: the top bit of the first nonce byte is the final flag. */
  function FlagNonce(rand: seq<byte>, final: bool): (r: seq<byte>)
    requires |rand| == 12
    ensures |r| == 12
  {
    [rand[0] % 128 + if final then 128 else 0] + rand[1..]
  }

  function MakeHeader(suite: byte, length: nat, rand: seq<byte>, final: bool): Header
    requires |rand| == 12
    requires 1 <= length <= MAX_PAYLOAD_SIZE
  {
    [VERSION20, suite] + LittleEndian(length - 1, 2) + FlagNonce(rand, final)
  }

  function Version(h: Header): byte { h[0] }
  function Cipher(h: Header): byte { h[1] }
  function Length(h: Header): nat { (h[2] as int) + 256 * (h[3] as int) + 1 }
  predicate IsFinal(h: Header) { h[4] >= 128 }
  function Nonce(h: Header): (r: seq<byte>) ensures |r| == 12 { h[4..] }
  function AddData(h: Header): seq<byte> { h[..4] }

  lemma LengthRange(h: Header)
    ensures 1 <= Length(h) <= MAX_PAYLOAD_SIZE
  {
  }

  lemma HeaderFields(suite: byte, length: nat, rand: seq<byte>, final: bool)
    requires |rand| == 12
    requires 1 <= length <= MAX_PAYLOAD_SIZE
    ensures var h := MakeHeader(suite, length, rand, final);
            && Version(h) == VERSION20 && Cipher(h) == suite && Length(h) == length
            && IsFinal(h) == final && Nonce(h) == FlagNonce(rand, final)
  {
    var h := MakeHeader(suite, length, rand, final);
    var l := LittleEndian(length - 1, 2);
    assert l == [(length - 1) % 256] + LittleEndian((length - 1) / 256, 1);
    assert LittleEndian((length - 1) / 256, 1) == [(length - 1) / 256 % 256] + [];
    assert h[2] == l[0] && h[3] == l[1];
  }

  /** The nonce of the package with sequence number `seqNum`: the last four bytes of the
      header nonce are combined with the little-endian sequence number by exclusive or. */
  function PackageNonce(nonce: seq<byte>, seqNum: u32): (r: seq<byte>)
    requires |nonce| == 12
    ensures |r| == 12
  {
    var s := LittleEndian(seqNum, 4);
    nonce[..8] + [XorByte(nonce[8], s[0]), XorByte(nonce[9], s[1]), XorByte(nonce[10], s[2]), XorByte(nonce[11], s[3])]
  }

  /** Under one random value the nonce determines the 32-bit sequence number. */
  lemma PackageNonceInjective(nonce: seq<byte>, s: u32, t: u32)
    requires |nonce| == 12
    requires PackageNonce(nonce, s)[8..] == PackageNonce(nonce, t)[8..]
    ensures s == t
  {
    var a, b := LittleEndian(s, 4), LittleEndian(t, 4);
    var x, y := PackageNonce(nonce, s), PackageNonce(nonce, t);
    assert Pow2(8) == 256;
    forall i | 0 <= i < 4
      ensures a[i] == b[i]
    {
      assert x[8..][i] == y[8..][i];
      XorCancels(nonce[8 + i], a[i], b[i], 8);
    }
    assert a == b;
    assert Pow256(4) == 256 * Pow256(3) && Pow256(3) == 256 * Pow256(2);
    assert Pow256(2) == 256 * Pow256(1) && Pow256(1) == 256 * Pow256(0);
    LittleEndianInjective(s, t, 4);
  }

  // ----- encryption

  /** What an encrypter is configured with: the AEAD, the cipher id it uses and the random value. */
  datatype EncConfig = EncConfig(aead: Aead, suite: byte, rand: seq<byte>) {
    ghost predicate Valid() {
      aead.Lawful() && suite <= CHACHA20_POLY1305 && |rand| == 12
    }
  }

  /** One sealed package: header, then ciphertext with tag. */
  function Package(c: EncConfig, seqNum: u32, data: seq<byte>, final: bool): seq<byte>
    requires |c.rand| == 12 && 1 <= |data| <= MAX_PAYLOAD_SIZE
  {
    var h := MakeHeader(c.suite, |data|, c.rand, final);
    h + c.aead.seal(c.suite, PackageNonce(Nonce(h), seqNum), AddData(h), data)
  }

  /** The nonce of package number k of a stream. */
  function NonceOf(c: EncConfig, first: u32, k: nat, final: bool): (r: seq<byte>)
    requires |c.rand| == 12
    ensures |r| == 12
  {
    PackageNonce(FlagNonce(c.rand, final), AddU32(first, k))
  }

  /** It is the nonce the package is sealed under. */
  lemma SealedUnder(c: EncConfig, first: u32, k: nat, data: seq<byte>, final: bool)
    requires |c.rand| == 12 && 1 <= |data| <= MAX_PAYLOAD_SIZE
    ensures var h := MakeHeader(c.suite, |data|, c.rand, final);
            Package(c, AddU32(first, k), data, final) == h + c.aead.seal(c.suite, NonceOf(c, first, k, final), AddData(h), data)
  {
    HeaderFields(c.suite, |data|, c.rand, final);
  }

  /** Two packages of a stream share a nonce exactly if both are final or neither is, and their numbers are
      equal modulo 2^32, where the sequence number wraps around. */
  lemma NoncesExactly(c: EncConfig, first: u32, i: nat, j: nat, fi: bool, fj: bool)
    requires |c.rand| == 12
    ensures NonceOf(c, first, i, fi) == NonceOf(c, first, j, fj) <==> fi == fj && i % TWO32 == j % TWO32
  {
    hide XorByte, LittleEndian;
    var x, y := NonceOf(c, first, i, fi), NonceOf(c, first, j, fj);
    SameSequenceNumber(first, i, j);
    assert x[0] == FlagNonce(c.rand, fi)[0] && y[0] == FlagNonce(c.rand, fj)[0];
    if x == y {
      PackageNonceInjective(FlagNonce(c.rand, fi), AddU32(first, i), AddU32(first, j));
    }
  }

  lemma SameSequenceNumber(first: u32, i: nat, j: nat)
    ensures AddU32(first, i) == AddU32(first, j) <==> i % TWO32 == j % TWO32
  {
  }

  /** The number of packages in the stream of a plaintext. */
  function Packages(p: seq<byte>): nat {
    (|p| + MAX_PAYLOAD_SIZE - 1) / MAX_PAYLOAD_SIZE
  }

  /** Up to 2^48 bytes no two packages of a stream are sealed under one nonce. */
  lemma NoNonceTwice(c: EncConfig, first: u32, p: seq<byte>, i: nat, j: nat)
    requires |c.rand| == 12 && |p| <= TWO32 * MAX_PAYLOAD_SIZE && i < j < Packages(p)
    ensures NonceOf(c, first, i, false) != NonceOf(c, first, j, j == Packages(p) - 1)
  {
    hide NonceOf;
    NoncesExactly(c, first, i, j, false, j == Packages(p) - 1);
  }

  lemma PackageSize(c: EncConfig, seqNum: u32, data: seq<byte>, final: bool)
    requires c.Valid() && 1 <= |data| <= MAX_PAYLOAD_SIZE
    ensures |Package(c, seqNum, data, final)| == |data| + 32
  {
  }

  lemma PackageLength(c: EncConfig, seqNum: u32, data: seq<byte>, final: bool)
    requires c.Valid() && 1 <= |data| <= MAX_PAYLOAD_SIZE
    ensures |Package(c, seqNum, data, final)| > 32
    ensures Length(Package(c, seqNum, data, final)[..HEADER_SIZE]) == |data|
  {
    HeaderFields(c.suite, |data|, c.rand, final);
    assert Package(c, seqNum, data, final)[..HEADER_SIZE] == MakeHeader(c.suite, |data|, c.rand, final);
  }

  /** The canonical ciphertext of plaintext p: full packages, then one final package holding
      the last 1 to 65536 bytes. A source that fails (tail is not EOF) yields only the packages
      whose successor byte was seen. */
  function Stream(c: EncConfig, seqNum: u32, p: seq<byte>, tail: Err): seq<byte>
    requires |c.rand| == 12
    decreases |p|
  {
    if |p| <= MAX_PAYLOAD_SIZE then
      if p == [] || tail != EOF then [] else Package(c, seqNum, p, true)
    else
      Package(c, seqNum, p[..MAX_PAYLOAD_SIZE], false)
      + Stream(c, AddU32(seqNum, 1), p[MAX_PAYLOAD_SIZE..], tail)
  }

  /** The i-th full block of a plaintext. */
  function Block(p: seq<byte>, i: nat): (r: seq<byte>)
    requires (i + 1) * MAX_PAYLOAD_SIZE <= |p|
    ensures |r| == MAX_PAYLOAD_SIZE
  {
    p[i * MAX_PAYLOAD_SIZE..(i + 1) * MAX_PAYLOAD_SIZE]
  }

  /** The first k packages of the stream, all full and not final. */
  function Sealed(c: EncConfig, seqNum: u32, p: seq<byte>, k: nat): seq<byte>
    requires |c.rand| == 12 && k * MAX_PAYLOAD_SIZE <= |p|
  {
    if k == 0 then [] else
      Sealed(c, seqNum, p, k - 1) + Package(c, AddU32(seqNum, k - 1), Block(p, k - 1), false)
  }

  /** Sealed packages do not depend on what follows them. */
  lemma {:induction false} SealedExtends(c: EncConfig, seqNum: u32, p: seq<byte>, q: seq<byte>, k: nat)
    requires |c.rand| == 12 && k * MAX_PAYLOAD_SIZE <= |p|
    ensures Sealed(c, seqNum, p + q, k) == Sealed(c, seqNum, p, k)
  {
    hide Package;
    if k > 0 {
      SealedExtends(c, seqNum, p, q, k - 1);
      assert Block(p + q, k - 1) == Block(p, k - 1);
    }
  }

  lemma AddU32Step(s: u32, k: nat)
    ensures AddU32(AddU32(s, 1), k) == AddU32(s, k + 1)
  {
  }

  lemma BlockShift(p: seq<byte>, i: nat)
    requires (i + 2) * MAX_PAYLOAD_SIZE <= |p|
    ensures Block(p[MAX_PAYLOAD_SIZE..], i) == Block(p, i + 1)
  {
  }

  /** Peeling the first package off instead of the last. */
  lemma {:induction false} SealedFirst(c: EncConfig, seqNum: u32, p: seq<byte>, k: nat)
    requires |c.rand| == 12 && (k + 1) * MAX_PAYLOAD_SIZE <= |p|
    ensures Sealed(c, seqNum, p, k + 1)
         == Package(c, seqNum, Block(p, 0), false) + Sealed(c, AddU32(seqNum, 1), p[MAX_PAYLOAD_SIZE..], k)
  {
    hide Package;
    var rest := p[MAX_PAYLOAD_SIZE..];
    if k == 0 {
      assert Sealed(c, seqNum, p, 1) == Sealed(c, seqNum, p, 0) + Package(c, AddU32(seqNum, 0), Block(p, 0), false);
      assert AddU32(seqNum, 0) == seqNum;
    } else {
      SealedFirst(c, seqNum, p, k - 1);
      BlockShift(p, k - 1);
      AddU32Step(seqNum, k - 1);
      Assoc(Package(c, seqNum, Block(p, 0), false), Sealed(c, AddU32(seqNum, 1), rest, k - 1),
            Package(c, AddU32(seqNum, k), Block(p, k), false));
    }
  }

  lemma StreamFirst(c: EncConfig, seqNum: u32, p: seq<byte>, tail: Err)
    requires |c.rand| == 12 && MAX_PAYLOAD_SIZE < |p|
    ensures Stream(c, seqNum, p, tail)
         == Package(c, seqNum, Block(p, 0), false) + Stream(c, AddU32(seqNum, 1), p[MAX_PAYLOAD_SIZE..], tail)
  {
    hide Package;
    assert Block(p, 0) == p[..MAX_PAYLOAD_SIZE];
  }

  lemma DropTwice(p: seq<byte>, i: nat)
    requires (i + 1) * MAX_PAYLOAD_SIZE <= |p|
    ensures p[MAX_PAYLOAD_SIZE..][i * MAX_PAYLOAD_SIZE..] == p[(i + 1) * MAX_PAYLOAD_SIZE..]
  {
  }

  /** The stream is k sealed packages followed by the stream of the rest. */
  lemma {:induction false} StreamSplit(c: EncConfig, seqNum: u32, p: seq<byte>, tail: Err, k: nat)
    requires |c.rand| == 12 && k * MAX_PAYLOAD_SIZE < |p|
    ensures Stream(c, seqNum, p, tail)
         == Sealed(c, seqNum, p, k) + Stream(c, AddU32(seqNum, k), p[k * MAX_PAYLOAD_SIZE..], tail)
    decreases k
  {
    hide Package;
    if k == 0 {
      assert p[0..] == p;
      assert AddU32(seqNum, 0) == seqNum;
    } else {
      var rest := p[MAX_PAYLOAD_SIZE..];
      StreamFirst(c, seqNum, p, tail);
      StreamSplit(c, AddU32(seqNum, 1), rest, tail, k - 1);
      SealedFirst(c, seqNum, p, k - 1);
      DropTwice(p, k - 1);
      AddU32Step(seqNum, k - 1);
      Assoc(Package(c, seqNum, Block(p, 0), false), Sealed(c, AddU32(seqNum, 1), rest, k - 1),
            Stream(c, AddU32(seqNum, k), p[k * MAX_PAYLOAD_SIZE..], tail));
    }
  }

  lemma SealedNone(c: EncConfig, seqNum: u32, p: seq<byte>)
    requires |c.rand| == 12
    ensures Sealed(c, seqNum, p, 0) == []
  {
  }

  lemma SealedNext(c: EncConfig, seqNum: u32, p: seq<byte>, k: nat)
    requires |c.rand| == 12 && (k + 1) * MAX_PAYLOAD_SIZE <= |p|
    ensures Sealed(c, seqNum, p, k + 1)
         == Sealed(c, seqNum, p, k) + Package(c, AddU32(seqNum, k), Block(p, k), false)
  {
    hide Package;
  }

  lemma FinalSplit(c: EncConfig, seqNum: u32, p: seq<byte>, k: nat, last: seq<byte>)
    requires |c.rand| == 12 && k * MAX_PAYLOAD_SIZE < |p|
    requires last == p[k * MAX_PAYLOAD_SIZE..] && |last| <= MAX_PAYLOAD_SIZE
    ensures Stream(c, seqNum, p, EOF) == Sealed(c, seqNum, p, k) + Package(c, AddU32(seqNum, k), last, true)
  {
    hide Package;
    StreamSplit(c, seqNum, p, EOF, k);
  }

  /** Of a source that fails, the packages are sealed of which the byte behind them was seen. */
  lemma FailedStream(c: EncConfig, seqNum: u32, p: seq<byte>, tail: Err)
    requires |c.rand| == 12 && tail != EOF
    ensures Stream(c, seqNum, p, tail) == if p == [] then [] else Sealed(c, seqNum, p, (|p| - 1) / MAX_PAYLOAD_SIZE)
  {
    hide Package;
    if p != [] {
      StreamSplit(c, seqNum, p, tail, (|p| - 1) / MAX_PAYLOAD_SIZE);
    }
  }

  lemma {:induction false} SealedSize(c: EncConfig, seqNum: u32, p: seq<byte>, k: nat)
    requires c.Valid() && k * MAX_PAYLOAD_SIZE <= |p|
    ensures |Sealed(c, seqNum, p, k)| == k * MAX_PACKAGE_SIZE
  {
    hide AddU32, Block, EncConfig.Valid, Package;
    if k > 0 {
      SealedSize(c, seqNum, p, k - 1);
      PackageSize(c, AddU32(seqNum, k - 1), Block(p, k - 1), false);
    }
  }

  // ----- decryption

  /** What a decrypter is configured with: the AEAD and the cipher ids it may use. */
  datatype DecConfig = DecConfig(aead: Aead, suites: set<byte>)

  /** The changing part of authDecV20. */
  datatype DecState = DecState(seqNum: u32, refHeader: Option<Header>, finalized: bool)

  datatype Opened = Opened(payload: seq<byte>) | Failed(err: Err)

  /** authDecV20.Open: the new state and the payload or the error. */
  function Open(d: DecConfig, st: DecState, src: seq<byte>): (DecState, Opened) {
    if st.finalized then (st, Failed(UnexpectedData))
    else if |src| <= HEADER_SIZE + TAG_SIZE then (st, Failed(InvalidPayloadSize))
    else
      var h: Header := src[..HEADER_SIZE];
      var ref := if st.refHeader.None? then h else st.refHeader.value;
      var st1 := st.(refHeader := Some(ref));
      if Version(h) != VERSION20 then (st1, Failed(UnsupportedVersion))
      else if Cipher(h) > CHACHA20_POLY1305 || Cipher(h) !in d.suites || Cipher(h) != Cipher(ref) then
        (st1, Failed(UnsupportedCipher))
      else if HEADER_SIZE + Length(h) + TAG_SIZE != |src| then (st1, Failed(InvalidPayloadSize))
      else if !IsFinal(h) && Length(h) != MAX_PAYLOAD_SIZE then (st1, Failed(InvalidPayloadSize))
      else
        var ref2: Header := if IsFinal(h) then ref[4 := ref[4] % 128 + 128] else ref;
        var st2 := st1.(refHeader := Some(ref2), finalized := IsFinal(h));
        if Nonce(h) != Nonce(ref2) then (st2, Failed(NonceMismatch))
        else
          match d.aead.open(Cipher(h), PackageNonce(Nonce(h), st.seqNum), AddData(h), src[HEADER_SIZE..])
          case None => (st2, Failed(TagMismatch))
          case Some(m) => (st2.(seqNum := AddU32(st.seqNum, 1)), Opened(m))
  }

  /** An opened package has the payload its header announces; only a final one may be short. */
  lemma OpenedSize(d: DecConfig, st: DecState, src: seq<byte>)
    requires d.aead.Lawful()
    ensures var (st', r) := Open(d, st, src);
            r.Opened? ==>
              && HEADER_SIZE + TAG_SIZE < |src| && |r.payload| == |src| - 32
              && Length(src[..HEADER_SIZE]) == |r.payload| && 1 <= |r.payload| <= MAX_PAYLOAD_SIZE
              && (|r.payload| < MAX_PAYLOAD_SIZE ==> st'.finalized)
  {
  }

  lemma OpenErrors(d: DecConfig, st: DecState, src: seq<byte>)
    ensures Open(d, st, src).1.Failed? ==>
              Open(d, st, src).1.err !in {Nil, EOF, UnexpectedEOF}
  {
  }

  /** The meaning of ciphertext s for a decrypter in state st whose source ends with `tail`. */
  function Decode(d: DecConfig, st: DecState, s: seq<byte>, tail: Err): Decoded<Err>
    decreases |s|
  {
    if |s| < MAX_PACKAGE_SIZE && tail != EOF then Decoded([], tail)
    else if s == [] then Decoded([], if st.finalized then EOF else UnexpectedEOF)
    else
      var k := Min(MAX_PACKAGE_SIZE, |s|);
      var (st', r) := Open(d, st, s[..k]);
      match r
      case Failed(e) => Decoded([], e)
      case Opened(m) => Decode(d, st', s[k..], tail).After(m)
  }

  /** After the final package nothing more is released. */
  lemma DecodeFinalized(d: DecConfig, st: DecState, s: seq<byte>, tail: Err)
    requires st.finalized
    ensures Decode(d, st, s, tail).plain == []
  {
  }

  /** The state a decrypter starts in. */
  function Start(seqNum: u32): DecState {
    DecState(seqNum, None, false)
  }

  /** st may open the packages of configuration c: nothing is finalized and the reference header,
      if there is one, is a non-final header of the same stream. */
  ghost predicate Follows(st: DecState, c: EncConfig, seqNum: u32)
    requires |c.rand| == 12
  {
    && st.seqNum == seqNum && !st.finalized
    && (st.refHeader.Some? ==>
          Cipher(st.refHeader.value) == c.suite && Nonce(st.refHeader.value) == FlagNonce(c.rand, false))
  }

  /** Opening a sealed package returns its payload, advances the sequence number and records finality. */
  lemma OpenPackage(d: DecConfig, c: EncConfig, st: DecState, seqNum: u32, data: seq<byte>, final: bool)
    requires c.Valid() && d.aead == c.aead && c.suite in d.suites
    requires Follows(st, c, seqNum)
    requires 1 <= |data| <= MAX_PAYLOAD_SIZE && (!final ==> |data| == MAX_PAYLOAD_SIZE)
    ensures var (st', r) := Open(d, st, Package(c, seqNum, data, final));
            && r == Opened(data)
            && st'.finalized == final
            && (!final ==> Follows(st', c, AddU32(seqNum, 1)))
  {
    hide AddData, PackageNonce;
    var src := Package(c, seqNum, data, final);
    var h := MakeHeader(c.suite, |data|, c.rand, final);
    HeaderFields(c.suite, |data|, c.rand, final);
    PackageSize(c, seqNum, data, final);
    var sealed := c.aead.seal(c.suite, PackageNonce(Nonce(h), seqNum), AddData(h), data);
    assert src[..HEADER_SIZE] == h;
    assert src[HEADER_SIZE..] == sealed;
    var ref := if st.refHeader.None? then h else st.refHeader.value;
    assert final ==> ref[4 := ref[4] % 128 + 128][4..] == FlagNonce(c.rand, true) by {
      assert ref[4 := ref[4] % 128 + 128][4..] == ref[4..][0 := ref[4] % 128 + 128];
    }
    assert !final ==> Nonce(ref) == FlagNonce(c.rand, false);
  }

  /** Round trip: decoding the canonical stream gives the plaintext back and a clean end. */
  lemma {:induction false} DecodeStream(d: DecConfig, c: EncConfig, st: DecState, seqNum: u32, p: seq<byte>)
    requires c.Valid() && d.aead == c.aead && c.suite in d.suites
    requires Follows(st, c, seqNum)
    requires p != []
    ensures Decode(d, st, Stream(c, seqNum, p, EOF), EOF) == Decoded(p, EOF)
    decreases |p|
  {
    hide Open, Package;
    var s := Stream(c, seqNum, p, EOF);
    if |p| <= MAX_PAYLOAD_SIZE {
      OpenPackage(d, c, st, seqNum, p, true);
      PackageSize(c, seqNum, p, true);
      assert s[..|s|] == s && s[|s|..] == [];
      assert p + [] == p;
    } else {
      var a, rest := p[..MAX_PAYLOAD_SIZE], p[MAX_PAYLOAD_SIZE..];
      var pkg := Package(c, seqNum, a, false);
      OpenPackage(d, c, st, seqNum, a, false);
      PackageSize(c, seqNum, a, false);
      assert s[..MAX_PACKAGE_SIZE] == pkg;
      assert s[MAX_PACKAGE_SIZE..] == Stream(c, AddU32(seqNum, 1), rest, EOF);
      DecodeStream(d, c, Open(d, st, pkg).0, AddU32(seqNum, 1), rest);
      assert a + rest == p;
    }
  }

  // ----- decryption by pieces

  /** What a decrypting writer has done with the bytes it was fed: the plaintext released, its
      state, the bytes kept for later and the error, if any. */
  datatype Fed = Fed(plain: seq<byte>, st: DecState, rest: seq<byte>, err: Err) {
    function After(m: seq<byte>): Fed {
      this.(plain := m + plain)
    }
  }

  /** Opens full-size packages only; a shorter rest waits, unless the stream has ended already. */
  function Feed(d: DecConfig, st: DecState, s: seq<byte>): Fed
    decreases |s|
  {
    if |s| >= MAX_PACKAGE_SIZE then
      var (st', r) := Open(d, st, s[..MAX_PACKAGE_SIZE]);
      match r
      case Failed(e) => Fed([], st', s, e)
      case Opened(m) => Feed(d, st', s[MAX_PACKAGE_SIZE..]).After(m)
    else if s != [] && st.finalized then Fed([], st, s, UnexpectedData)
    else Fed([], st, s, Nil)
  }

  /** Closing the writer opens what was kept. */
  function Finish(d: DecConfig, st: DecState, rest: seq<byte>): Decoded<Err> {
    if rest == [] then Decoded([], Nil)
    else if |rest| <= HEADER_SIZE + TAG_SIZE then Decoded([], InvalidPayloadSize)
    else
      match Open(d, st, rest).1
      case Failed(e) => Decoded([], e)
      case Opened(m) => Decoded(m, Nil)
  }

  lemma FedAfterAfter(f: Fed, a: seq<byte>, b: seq<byte>)
    ensures f.After(b).After(a) == f.After(a + b)
  {
    assert a + (b + f.plain) == (a + b) + f.plain;
  }

  /** Feeding is incremental: what was kept is simply put in front of the next piece. */
  lemma {:induction false} FeedSplit(d: DecConfig, st: DecState, a: seq<byte>, b: seq<byte>)
    requires Feed(d, st, a).err == Nil
    ensures var f := Feed(d, st, a); Feed(d, st, a + b) == Feed(d, f.st, f.rest + b).After(f.plain)
    decreases |a|
  {
    hide Open;
    if |a| >= MAX_PACKAGE_SIZE {
      OpenErrors(d, st, a[..MAX_PACKAGE_SIZE]);
      var (st', r) := Open(d, st, a[..MAX_PACKAGE_SIZE]);
      var a' := a[MAX_PACKAGE_SIZE..];
      assert (a + b)[..MAX_PACKAGE_SIZE] == a[..MAX_PACKAGE_SIZE];
      assert (a + b)[MAX_PACKAGE_SIZE..] == a' + b;
      FeedSplit(d, st', a', b);
      var f := Feed(d, st', a');
      FedAfterAfter(Feed(d, f.st, f.rest + b), r.payload, f.plain);
    } else {
      var f := Feed(d, st, a + b);
      assert [] + f.plain == f.plain;
    }
  }

  /** Once feeding has failed, more input changes nothing. */
  lemma {:induction false} FeedFails(d: DecConfig, st: DecState, a: seq<byte>, b: seq<byte>)
    requires Feed(d, st, a).err != Nil
    ensures Feed(d, st, a + b).err == Feed(d, st, a).err && Feed(d, st, a + b).plain == Feed(d, st, a).plain
    decreases |a|
  {
    hide Open;
    if |a| >= MAX_PACKAGE_SIZE {
      assert (a + b)[..MAX_PACKAGE_SIZE] == a[..MAX_PACKAGE_SIZE];
      assert (a + b)[MAX_PACKAGE_SIZE..] == a[MAX_PACKAGE_SIZE..] + b;
      if Open(d, st, a[..MAX_PACKAGE_SIZE]).1.Opened? {
        FeedFails(d, Open(d, st, a[..MAX_PACKAGE_SIZE]).0, a[MAX_PACKAGE_SIZE..], b);
      }
    } else if |a + b| >= MAX_PACKAGE_SIZE {
      OpenFinalized(d, st, (a + b)[..MAX_PACKAGE_SIZE]);
    }
  }

  lemma OpenFinalized(d: DecConfig, st: DecState, src: seq<byte>)
    requires st.finalized
    ensures Open(d, st, src) == (st, Failed(UnexpectedData))
  {
  }

  /** A writer means what a reader means, with one difference: a stream that stops before its final
      package but between two packages is an error for the reader and none for the writer. */
  lemma {:induction false} FeedMeansDecode(d: DecConfig, st: DecState, s: seq<byte>)
    ensures var f, all := Feed(d, st, s), Decode(d, st, s, EOF);
            var end := if f.err == Nil then Finish(d, f.st, f.rest) else Decoded([], f.err);
            && all.plain == f.plain + end.plain
            && (end.err == Nil <==> all.err == EOF || all.err == UnexpectedEOF)
            && (end.err != Nil ==> all.err == end.err)
    decreases |s|
  {
    if |s| >= MAX_PACKAGE_SIZE {
      var (st', r) := Open(d, st, s[..MAX_PACKAGE_SIZE]);
      OpenErrors(d, st, s[..MAX_PACKAGE_SIZE]);
      hide Open;
      if r.Opened? {
        FeedMeansDecode(d, st', s[MAX_PACKAGE_SIZE..]);
        var f := Feed(d, st', s[MAX_PACKAGE_SIZE..]);
        var end := if f.err == Nil then Finish(d, f.st, f.rest) else Decoded([], f.err);
        Assoc(r.payload, f.plain, end.plain);
      }
    } else if s != [] {
      OpenErrors(d, st, s);
      assert s[..|s|] == s && s[|s|..] == [];
    }
  }

  // ----- truncated streams

  /** A proper part of a package does not open: its length contradicts its header. */
  lemma TruncatedPackage(d: DecConfig, c: EncConfig, st: DecState, seqNum: u32, data: seq<byte>, final: bool, k: nat)
    requires c.Valid() && d.aead == c.aead && c.suite in d.suites
    requires Follows(st, c, seqNum)
    requires 1 <= |data| <= MAX_PAYLOAD_SIZE && k < |data| + 32
    ensures |Package(c, seqNum, data, final)| == |data| + 32
    ensures Open(d, st, Package(c, seqNum, data, final)[..k]).1 == Failed(InvalidPayloadSize)
  {
    HeaderFields(c.suite, |data|, c.rand, final);
    var pkg := Package(c, seqNum, data, final);
    if k >= HEADER_SIZE {
      assert pkg[..k][..HEADER_SIZE] == MakeHeader(c.suite, |data|, c.rand, final);
    }
  }

  /** Every proper prefix of a stream is noticed: between packages as a missing end, elsewhere as a
      broken package. Only whole packages are released. */
  lemma {:induction false} DecodeTruncated(d: DecConfig, c: EncConfig, st: DecState, seqNum: u32, p: seq<byte>, k: nat)
    requires c.Valid() && d.aead == c.aead && c.suite in d.suites
    requires Follows(st, c, seqNum)
    requires k < |Stream(c, seqNum, p, EOF)|
    ensures k / 65568 * 65536 <= |p|
    ensures Decode(d, st, Stream(c, seqNum, p, EOF)[..k], EOF)
         == Decoded(p[..k / 65568 * 65536], if k % 65568 == 0 then UnexpectedEOF else InvalidPayloadSize)
    decreases |p|
  {
    hide Open, Package;
    var s := Stream(c, seqNum, p, EOF);
    var final := |p| <= MAX_PAYLOAD_SIZE;
    var a := if final then p else p[..MAX_PAYLOAD_SIZE];
    var pkg := Package(c, seqNum, a, final);
    PackageSize(c, seqNum, a, final);
    if k < |pkg| {
      TruncatedPackage(d, c, st, seqNum, a, final, k);
      assert s[..k] == pkg[..k];
      assert s[..k][..k] == s[..k];
    } else {
      var k', rest := k - MAX_PACKAGE_SIZE, p[MAX_PAYLOAD_SIZE..];
      OpenPackage(d, c, st, seqNum, a, false);
      TakeBehind(pkg, Stream(c, AddU32(seqNum, 1), rest, EOF), k);
      DecodeTruncated(d, c, Open(d, st, pkg).0, AddU32(seqNum, 1), rest, k');
      assert k / 65568 == k' / 65568 + 1 && k % 65568 == k' % 65568;
      assert k / 65568 * 65536 == MAX_PAYLOAD_SIZE + k' / 65568 * 65536;
      PrefixJoin(p, MAX_PAYLOAD_SIZE, k' / 65568 * 65536);
    }
  }

  lemma PrefixJoin(p: seq<byte>, i: nat, j: nat)
    requires i + j <= |p|
    ensures p[..i] + p[i..][..j] == p[..i + j]
  {
  }

  lemma TakeBehind(s: seq<byte>, t: seq<byte>, k: nat)
    requires |s| <= k <= |s| + |t|
    ensures (s + t)[..k][..|s|] == s && (s + t)[..k][|s|..] == t[..k - |s|]
  {
  }
}
