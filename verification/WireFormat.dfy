/** DARE in plain bytes. What stands in a sealed package, and which pieces of any ciphertext a decrypter accepts:
    nothing here is said in terms of the functions that seal, open and decode. */
module WireFormat {
  import opened Basics
  import opened Bytes
  import opened Io
  import opened Dare
  import opened DareV10

  /** The payload length that a header announces: a 16-bit number, low byte first, and one. */
  function Announced(pkg: seq<byte>): nat
    requires |pkg| >= 16
  {
    (pkg[2] as int) + 256 * (pkg[3] as int) + 1
  }

  // ----- what a DARE 2.0 package holds

  /** The nonce a package is sealed under: bytes 4 to 11 of its header as they stand, and bytes 12 to 15 combined
      with the sequence number, low byte first. */
  function KeyNonce(pkg: seq<byte>, seqNum: u32): seq<byte>
    requires |pkg| >= 16
  {
    pkg[4..12] + [XorByte(pkg[12], seqNum % 0x100), XorByte(pkg[13], seqNum / 0x100 % 0x100),
                  XorByte(pkg[14], seqNum / 0x1_0000 % 0x100), XorByte(pkg[15], seqNum / 0x100_0000)]
  }

  lemma SequenceBytes(s: u32)
    ensures LittleEndian(s, 4) == [s % 0x100, s / 0x100 % 0x100, s / 0x1_0000 % 0x100, s / 0x100_0000]
  {
    assert s / 0x100 / 0x100 == s / 0x1_0000 && s / 0x1_0000 / 0x100 == s / 0x100_0000;
    assert LittleEndian(s, 4) == [s % 256] + LittleEndian(s / 256, 3);
    assert LittleEndian(s / 256, 3) == [s / 256 % 256] + LittleEndian(s / 256 / 256, 2);
    assert LittleEndian(s / 0x1_0000, 2) == [s / 0x1_0000 % 256] + LittleEndian(s / 0x1_0000 / 256, 1);
    assert LittleEndian(s / 0x100_0000, 1) == [s / 0x100_0000 % 256] + [];
  }

  lemma KeyNonceIs(pkg: seq<byte>, seqNum: u32)
    requires |pkg| >= 16
    ensures KeyNonce(pkg, seqNum) == PackageNonce(pkg[4..16], seqNum)
  {
    hide XorByte, LittleEndian;
    SequenceBytes(seqNum);
    assert pkg[4..16][..8] == pkg[4..12];
  }

  /** Byte by byte: version, cipher, length, the random value with the final flag as its top bit, and the
      payload sealed with the first four bytes as associated data. */
  lemma PackageBytes(c: EncConfig, seqNum: u32, data: seq<byte>, final: bool)
    requires c.Valid() && 1 <= |data| <= 65536
    ensures var pkg := Package(c, seqNum, data, final);
            && |pkg| == 32 + |data|
            && pkg[0] == 0x20 && pkg[1] == c.suite && Announced(pkg) == |data|
            && pkg[4] % 128 == c.rand[0] % 128 && (pkg[4] >= 128 <==> final)
            && pkg[5..16] == c.rand[1..]
            && pkg[16..] == c.aead.seal(c.suite, KeyNonce(pkg, seqNum), pkg[..4], data)
  {
    hide XorByte, LittleEndian;
    var pkg, h := Package(c, seqNum, data, final), MakeHeader(c.suite, |data|, c.rand, final);
    HeaderFields(c.suite, |data|, c.rand, final);
    PackageSize(c, seqNum, data, final);
    assert pkg[..16] == h;
    assert pkg[4..16] == h[4..] == FlagNonce(c.rand, final);
    assert pkg[..4] == h[..4];
    KeyNonceIs(pkg, seqNum);
  }

  lemma NonceBytes(c: EncConfig, seqNum: u32, data: seq<byte>, final: bool)
    requires |c.rand| == 12 && 1 <= |data| <= 65536
    ensures var pkg := Package(c, seqNum, data, final);
            |pkg| >= 16 && pkg[4] == c.rand[0] % 128 + (if final then 128 else 0) && pkg[5..16] == c.rand[1..]
  {
    hide PackageNonce;
    var pkg, h := Package(c, seqNum, data, final), MakeHeader(c.suite, |data|, c.rand, final);
    HeaderFields(c.suite, |data|, c.rand, final);
    assert pkg[4..16] == h[4..] == FlagNonce(c.rand, final);
    NonceParts(pkg);
  }

  /** Header nonces are equal exactly if the packages are both final or both not and their random values agree up to
      the top bit, whatever the numbers, payloads, ciphers and keys. */
  lemma HeaderNonces(c: EncConfig, d: EncConfig, i: u32, j: u32, x: seq<byte>, y: seq<byte>, fx: bool, fy: bool)
    requires |c.rand| == 12 && |d.rand| == 12 && 1 <= |x| <= 65536 && 1 <= |y| <= 65536
    ensures var p, q := Package(c, i, x, fx), Package(d, j, y, fy);
            && |p| >= 16 && |q| >= 16
            && (p[4..16] == q[4..16] <==>
                  fx == fy && c.rand[0] % 128 == d.rand[0] % 128 && c.rand[1..] == d.rand[1..])
  {
    hide Package;
    NonceBytes(c, i, x, fx);
    NonceBytes(d, j, y, fy);
    SameNonce(Package(c, i, x, fx), Package(d, j, y, fy));
  }

  lemma NonceParts(pkg: seq<byte>)
    requires |pkg| >= 16
    ensures pkg[4..16] == [pkg[4]] + pkg[5..16]
    ensures pkg[4..16][0] == pkg[4] && pkg[4..16][1..] == pkg[5..16]
  {
  }

  lemma SameNonce(p: seq<byte>, q: seq<byte>)
    requires |p| >= 16 && |q| >= 16
    ensures p[4..16] == q[4..16] <==> p[4] == q[4] && p[5..16] == q[5..16]
  {
    NonceParts(p);
    NonceParts(q);
  }

  /** Packages sealed under one nonce agree in the first eight bytes of their header nonces; packages of one number
      are sealed under one nonce exactly if their header nonces are equal. */
  lemma KeyNonces(p: seq<byte>, q: seq<byte>, i: u32, j: u32)
    requires |p| >= 16 && |q| >= 16
    ensures KeyNonce(p, i) == KeyNonce(q, j) ==> p[4..12] == q[4..12]
    ensures KeyNonce(p, i) == KeyNonce(q, i) <==> p[4..16] == q[4..16]
  {
    hide XorByte;
    var a, b, c := KeyNonce(p, i), KeyNonce(q, j), KeyNonce(q, i);
    assert a[..8] == p[4..12] && b[..8] == q[4..12] && c[..8] == q[4..12];
    XorByteCancels(i % 0x100, p[12], q[12]);
    XorByteCancels(i / 0x100 % 0x100, p[13], q[13]);
    XorByteCancels(i / 0x1_0000 % 0x100, p[14], q[14]);
    XorByteCancels(i / 0x100_0000, p[15], q[15]);
    if a == c {
      assert a[8] == c[8] && a[9] == c[9] && a[10] == c[10] && a[11] == c[11];
    }
    EqualNonces(p, q);
  }

  lemma EqualNonces(p: seq<byte>, q: seq<byte>)
    requires |p| >= 16 && |q| >= 16
    ensures p[4..16] == q[4..16] <==> p[4..12] == q[4..12] && p[12] == q[12] && p[13] == q[13] && p[14] == q[14] && p[15] == q[15]
  {
    var x, y := p[4..16], q[4..16];
    assert x[..8] == p[4..12] && y[..8] == q[4..12];
    assert x[8] == p[12] && x[9] == p[13] && x[10] == p[14] && x[11] == p[15];
    assert y[8] == q[12] && y[9] == q[13] && y[10] == q[14] && y[11] == q[15];
    assert x == x[..8] + [x[8], x[9], x[10], x[11]] && y == y[..8] + [y[8], y[9], y[10], y[11]];
  }

  // ----- what is released of any DARE 2.0 ciphertext

  /** The number of pieces a reader cuts a ciphertext into; a source that fails spoils an incomplete piece. */
  function Pieces(s: seq<byte>, tail: Err): nat {
    if tail == EOF then (|s| + 65567) / 65568 else |s| / 65568
  }

  function Piece(s: seq<byte>, i: nat): (r: seq<byte>)
    requires i * 65568 < |s|
    ensures |r| == Min(65568, |s| - i * 65568) > 0
  {
    s[i * 65568..Min((i + 1) * 65568, |s|)]
  }

  predicate FinalPiece(piece: seq<byte>) {
    |piece| > 4 && piece[4] >= 128
  }

  /** What is wrong with a piece, the tag apart: its version, its cipher, its length or its nonce, which have to fit
      those of the first piece. */
  function Fault(suites: set<byte>, first: seq<byte>, piece: seq<byte>): Err
    requires |piece| <= |first|
  {
    if |piece| <= 32 then InvalidPayloadSize
    else if piece[0] != 0x20 then UnsupportedVersion
    else if piece[1] > 1 || piece[1] !in suites || piece[1] != first[1] then UnsupportedCipher
    else if 32 + Announced(piece) != |piece| then InvalidPayloadSize
    else if piece[4] < 128 && |piece| < 65568 then InvalidPayloadSize
    else if piece[4] % 128 != first[4] % 128 || piece[5..16] != first[5..16] then NonceMismatch
    else Nil
  }

  /** What the AEAD makes of a piece. */
  function Unsealed(aead: Aead, piece: seq<byte>, seqNum: u32): Option<seq<byte>>
    requires |piece| >= 16
  {
    aead.open(piece[1], KeyNonce(piece, seqNum), piece[..4], piece[16..])
  }

  /** Piece i of s is in order and the AEAD opens it to m as number first + i. */
  predicate Opens(d: DecConfig, first: u32, s: seq<byte>, i: nat, m: seq<byte>)
    requires i * 65568 < |s|
  {
    && Fault(d.suites, Piece(s, 0), Piece(s, i)) == Nil
    && |Piece(s, i)| > 32 && Unsealed(d.aead, Piece(s, i), AddU32(first, i)) == Some(m)
  }

  /** The pieces up to |ms| open to ms, and none but the last of them is final. */
  ghost predicate Accepted(d: DecConfig, first: u32, s: seq<byte>, tail: Err, ms: seq<seq<byte>>) {
    && |ms| <= Pieces(s, tail)
    && forall i :: 0 <= i < |ms| ==>
         i * 65568 < |s| && Opens(d, first, s, i, ms[i]) && (FinalPiece(Piece(s, i)) ==> i == |ms| - 1)
  }

  /** The pieces up to k include the final one. */
  predicate Ended(s: seq<byte>, k: nat)
    requires (k - 1) * 65568 < |s|
  {
    k > 0 && FinalPiece(Piece(s, k - 1))
  }

  /** Where a decrypter stands behind k accepted pieces. */
  ghost predicate Behind(st: DecState, first: u32, s: seq<byte>, k: nat)
    requires (k - 1) * 65568 < |s|
  {
    && st.seqNum == AddU32(first, k)
    && st.finalized == Ended(s, k)
    && (if k == 0 then st.refHeader == None
        else st.refHeader.Some? && |s| >= 16
             && st.refHeader.value[1] == s[1] && st.refHeader.value[5..] == s[5..16]
             && st.refHeader.value[4] % 128 == s[4] % 128 && (!st.finalized ==> st.refHeader.value[4] < 128))
  }

  /** Comparing with the reference nonce, in which the final flag is set when the package is final. */
  lemma NonceCompared(h: Header, ref: Header)
    requires h[4] < 128 ==> ref[4] < 128
    ensures Nonce(h) == Nonce(if IsFinal(h) then ref[4 := ref[4] % 128 + 128] else ref)
       <==> h[4] % 128 == ref[4] % 128 && h[5..] == ref[5..]
  {
    var ref2: Header := if IsFinal(h) then ref[4 := ref[4] % 128 + 128] else ref;
    assert ref2[5..] == ref[5..];
    NonceParts(h);
    NonceParts(ref2);
    assert h[4..16] == Nonce(h) && ref2[4..16] == Nonce(ref2) && h[5..16] == h[5..] && ref2[5..16] == ref2[5..];
  }

  lemma FirstPiece(s: seq<byte>)
    requires |s| >= 16
    ensures Piece(s, 0)[..16] == s[..16] && forall j :: 0 <= j < 16 ==> Piece(s, 0)[j] == s[j]
    ensures Piece(s, 0)[5..16] == s[5..16]
  {
  }

  /** Opening a piece against a reference header that agrees with the first piece. */
  lemma OpenAgainst(d: DecConfig, st: DecState, first: seq<byte>, piece: seq<byte>)
    requires 0 < |piece| <= |first| && |piece| <= 65568 && !st.finalized
    requires match st.refHeader
             case None => first == piece
             case Some(ref) => |first| >= 16 && ref[1] == first[1] && ref[5..] == first[5..16]
                               && ref[4] % 128 == first[4] % 128 && ref[4] < 128
    ensures var (st', r) := Open(d, st, piece);
            var fault := Fault(d.suites, first, piece);
            if fault != Nil then r == Failed(fault)
            else match Unsealed(d.aead, piece, st.seqNum)
                 case None => r == Failed(TagMismatch)
                 case Some(m) =>
                   && r == Opened(m) && st'.seqNum == AddU32(st.seqNum, 1) && st'.finalized == FinalPiece(piece)
                   && st'.refHeader.Some?
                   && var ref := st'.refHeader.value;
                      && ref[1] == first[1] && ref[5..] == first[5..16] && ref[4] % 128 == first[4] % 128
                      && (!st'.finalized ==> ref[4] < 128)
  {
    hide XorByte, LittleEndian, PackageNonce, KeyNonce;
    if |piece| > 32 {
      KeyNonceIs(piece, st.seqNum);
      var h: Header := piece[..16];
      assert h[4..] == piece[4..16] && h[..4] == piece[..4] && h[5..] == piece[5..16];
      var ref := if st.refHeader.None? then h else st.refHeader.value;
      NonceCompared(h, ref);
      assert ref[4 := ref[4] % 128 + 128][5..] == ref[5..];
    }
  }

  /** One piece: the decrypter of a stream that has not ended accepts exactly what is in order and opens. */
  lemma OpenPiece(d: DecConfig, st: DecState, first: u32, s: seq<byte>, k: nat)
    requires k * 65568 < |s| && Behind(st, first, s, k)
    ensures var (st', r) := Open(d, st, Piece(s, k));
            var fault := Fault(d.suites, Piece(s, 0), Piece(s, k));
            if Ended(s, k) then r == Failed(UnexpectedData)
            else if fault != Nil then r == Failed(fault)
            else match Unsealed(d.aead, Piece(s, k), AddU32(first, k))
                 case None => r == Failed(TagMismatch)
                 case Some(m) => r == Opened(m) && Behind(st', first, s, k + 1)
  {
    hide Piece, Open, Unsealed, Fault;
    if st.finalized {
      OpenFinalized(d, st, Piece(s, k));
    } else {
      var piece := Piece(s, k);
      if |s| >= 16 {
        FirstPiece(s);
      }
      OpenAgainst(d, st, Piece(s, 0), piece);
      NextNumber(first, k);
      FaultSize(d.suites, Piece(s, 0), piece);
    }
  }

  lemma NextNumber(first: u32, k: nat)
    ensures AddU32(AddU32(first, k), 1) == AddU32(first, k + 1)
  {
  }

  lemma FaultSize(suites: set<byte>, first: seq<byte>, piece: seq<byte>)
    requires |piece| <= |first|
    ensures Fault(suites, first, piece) == Nil ==> |piece| > 32
    ensures Fault(suites, first, piece) in {Nil, InvalidPayloadSize, UnsupportedVersion, UnsupportedCipher, NonceMismatch}
  {
  }

  /** The bytes behind k pieces. */
  function From(s: seq<byte>, k: nat): seq<byte> {
    if k * 65568 <= |s| then s[k * 65568..] else []
  }

  /** Accepted pieces are decoded to their payloads. */
  lemma {:induction false} AcceptedDecode(d: DecConfig, first: u32, s: seq<byte>, tail: Err, ms: seq<seq<byte>>) returns (st: DecState)
    requires Accepted(d, first, s, tail, ms)
    ensures (|ms| - 1) * 65568 < |s| && Behind(st, first, s, |ms|)
    ensures Decode(d, Start(first), s, tail) == Decode(d, st, From(s, |ms|), tail).After(Flatten(ms))
    decreases |ms|
  {
    hide Open, Behind, Opens, Piece, Unsealed, Fault;
    var k := |ms|;
    st := Start(first);
    if k == 0 {
      AfterNothing(Decode(d, st, s, tail));
      assert From(s, 0) == s && ms == [];
      BehindNothing(first, s);
    } else {
      var before := ms[..k - 1];
      assert Accepted(d, first, s, tail, before);
      var st0 := AcceptedDecode(d, first, s, tail, before);
      st := DecodePiece(d, st0, first, s, tail, k - 1, ms[k - 1]);
      assert ms == before + [ms[k - 1]];
      FlattenSnoc(before, ms[k - 1]);
      AfterAfter(Decode(d, st, From(s, k), tail), Flatten(before), ms[k - 1]);
    }
  }

  lemma BehindNothing(first: u32, s: seq<byte>)
    ensures Behind(Start(first), first, s, 0)
  {
  }

  lemma FromPiece(s: seq<byte>, k: nat)
    requires k * 65568 < |s|
    ensures var rest := From(s, k);
            rest != [] && rest[..Min(65568, |rest|)] == Piece(s, k) && rest[Min(65568, |rest|)..] == From(s, k + 1)
  {
  }

  lemma DecodePiece(d: DecConfig, st: DecState, first: u32, s: seq<byte>, tail: Err, k: nat, m: seq<byte>) returns (st': DecState)
    requires k * 65568 < |s| && k < Pieces(s, tail) && Behind(st, first, s, k) && !Ended(s, k) && Opens(d, first, s, k, m)
    ensures Behind(st', first, s, k + 1)
    ensures Decode(d, st, From(s, k), tail) == Decode(d, st', From(s, k + 1), tail).After(m)
  {
    hide Open, Behind, Piece, Unsealed, Fault, Ended, FinalPiece;
    OpenPiece(d, st, first, s, k);
    FromPiece(s, k);
    st' := Open(d, st, Piece(s, k)).0;
  }

  /** How decoding ends behind ms: at the end of the ciphertext, behind the final piece, or at a piece that is
      not in order or that the AEAD does not open. */
  function End(d: DecConfig, first: u32, s: seq<byte>, tail: Err, k: nat): Err
    requires k <= Pieces(s, tail) && (k - 1) * 65568 < |s|
  {
    if k == Pieces(s, tail) then if tail != EOF then tail else if Ended(s, k) then EOF else UnexpectedEOF
    else if Ended(s, k) then UnexpectedData
    else if Fault(d.suites, Piece(s, 0), Piece(s, k)) != Nil then Fault(d.suites, Piece(s, 0), Piece(s, k))
    else TagMismatch
  }

  /** Nothing more is accepted. */
  ghost predicate Complete(d: DecConfig, first: u32, s: seq<byte>, tail: Err, ms: seq<seq<byte>>)
    requires Accepted(d, first, s, tail, ms)
  {
    var k := |ms|;
    k == Pieces(s, tail) || Ended(s, k) || forall m :: !Opens(d, first, s, k, m)
  }

  /** Decoding stops where nothing more is accepted. */
  lemma DecodeStops(d: DecConfig, first: u32, s: seq<byte>, tail: Err, ms: seq<seq<byte>>)
    requires Accepted(d, first, s, tail, ms) && Complete(d, first, s, tail, ms)
    ensures Decode(d, Start(first), s, tail) == Decoded(Flatten(ms), End(d, first, s, tail, |ms|))
  {
    hide Open, Piece, Unsealed, Fault, FinalPiece;
    var k := |ms|;
    var st := AcceptedDecode(d, first, s, tail, ms);
    assert Flatten(ms) + [] == Flatten(ms);
    if k < Pieces(s, tail) {
      OpenPiece(d, st, first, s, k);
      FromPiece(s, k);
      FaultSize(d.suites, Piece(s, 0), Piece(s, k));
      if !Ended(s, k) && Fault(d.suites, Piece(s, 0), Piece(s, k)) == Nil {
        var o := Unsealed(d.aead, Piece(s, k), AddU32(first, k));
        assert o.Some? ==> Opens(d, first, s, k, o.value);
      }
    }
  }

  lemma {:induction false} Extended(d: DecConfig, first: u32, s: seq<byte>, tail: Err, ms: seq<seq<byte>>) returns (all: seq<seq<byte>>)
    requires Accepted(d, first, s, tail, ms)
    ensures Accepted(d, first, s, tail, all) && Complete(d, first, s, tail, all)
    decreases Pieces(s, tail) - |ms|
  {
    hide Piece, Fault, FinalPiece, Unsealed, Opens;
    var k := |ms|;
    if k < Pieces(s, tail) && !Ended(s, k) && exists m :: Opens(d, first, s, k, m) {
      var m :| Opens(d, first, s, k, m);
      all := Extended(d, first, s, tail, ms + [m]);
    } else {
      all := ms;
    }
  }

  /** Whatever the ciphertext, what is released is the concatenation of the payloads of its accepted pieces, each as
      the AEAD opens it under the piece's own header and number, and the error is that of the piece behind them. */
  lemma Released(d: DecConfig, first: u32, s: seq<byte>, tail: Err) returns (ms: seq<seq<byte>>)
    ensures Accepted(d, first, s, tail, ms) && Complete(d, first, s, tail, ms)
    ensures Decode(d, Start(first), s, tail) == Decoded(Flatten(ms), End(d, first, s, tail, |ms|))
  {
    hide Decode;
    ms := Extended(d, first, s, tail, []);
    DecodeStops(d, first, s, tail, ms);
  }

  /** A piece that is in order but does not open is a tag mismatch, and nothing of it is released. */
  lemma ForgedPiece(d: DecConfig, first: u32, s: seq<byte>, tail: Err, ms: seq<seq<byte>>)
    requires Accepted(d, first, s, tail, ms) && |ms| < Pieces(s, tail) && !Ended(s, |ms|)
    requires Fault(d.suites, Piece(s, 0), Piece(s, |ms|)) == Nil && |Piece(s, |ms|)| > 32
    requires Unsealed(d.aead, Piece(s, |ms|), AddU32(first, |ms|)) == None
    ensures Decode(d, Start(first), s, tail) == Decoded(Flatten(ms), TagMismatch)
  {
    hide Decode, Piece, Fault, FinalPiece, Unsealed;
    DecodeStops(d, first, s, tail, ms);
  }

  /** A clean end means that all of the ciphertext was accepted and that its last piece is the final one. */
  lemma CleanEndExactly(d: DecConfig, first: u32, s: seq<byte>)
    ensures Decode(d, Start(first), s, EOF).err == EOF
       <==> exists ms :: Accepted(d, first, s, EOF, ms) && |ms| == Pieces(s, EOF) && Ended(s, |ms|)
  {
    hide Decode, Piece, Fault, FinalPiece, Unsealed, Opens;
    var all := Released(d, first, s, EOF);
    if |all| < Pieces(s, EOF) {
      FaultSize(d.suites, Piece(s, 0), Piece(s, |all|));
    }
    forall ms | Accepted(d, first, s, EOF, ms) && |ms| == Pieces(s, EOF) && Ended(s, |ms|)
      ensures Decode(d, Start(first), s, EOF).err == EOF
    {
      DecodeStops(d, first, s, EOF, ms);
    }
  }

  // ----- DARE 1.0

  /** Byte by byte: version, cipher, length, the sequence number and the random value, and the payload sealed under
      those last twelve bytes. */
  lemma PackageBytes10(c: EncConfig10, seqNum: u32, data: seq<byte>)
    requires c.Valid() && 1 <= |data| <= 65536
    ensures var pkg := Package10(c, seqNum, data);
            && |pkg| == 32 + |data|
            && pkg[0] == 0x10 && pkg[1] == c.suite && Announced(pkg) == |data|
            && Number(pkg) == seqNum && pkg[8..16] == c.rand
            && pkg[16..] == c.aead.seal(c.suite, pkg[4..16], pkg[..4], data)
  {
    hide LittleEndian;
    var pkg, h := Package10(c, seqNum, data), MakeHeader10(c.suite, |data|, seqNum, c.rand);
    HeaderFields10(c.suite, |data|, seqNum, c.rand);
    PackageLength10(c, seqNum, data);
    assert pkg[..16] == h;
    assert pkg[4..16] == h[4..] && pkg[..4] == h[..4];
    assert pkg[8..16] == h[4..][4..];
    NumberIs(pkg);
  }

  function Number(pkg: seq<byte>): nat
    requires |pkg| >= 16
  {
    (pkg[4] as int) + 0x100 * (pkg[5] as int) + 0x1_0000 * (pkg[6] as int) + 0x100_0000 * (pkg[7] as int)
  }

  lemma NumberIs(pkg: seq<byte>)
    requires |pkg| >= 16
    ensures Number(pkg) == SequenceNumber(pkg[..16])
  {
    FourBytes(pkg[..16][4..8]);
  }

  lemma FourBytes(b: seq<byte>)
    requires |b| == 4
    ensures FromLittleEndian(b)
         == (b[0] as int) + 0x100 * (b[1] as int) + 0x1_0000 * (b[2] as int) + 0x100_0000 * (b[3] as int)
  {
    assert b[1..][1..] == b[2..] && b[2..][1..] == b[3..] && b[3..][1..] == [];
    assert FromLittleEndian(b[3..]) == b[3];
    assert FromLittleEndian(b[2..]) == b[2] + 256 * FromLittleEndian(b[3..]);
    assert FromLittleEndian(b[1..]) == b[1] + 256 * FromLittleEndian(b[2..]);
  }

  function Fault10(suites: set<byte>, seqNum: u32, pkg: seq<byte>): Err
    requires |pkg| > 32
  {
    if pkg[0] != 0x10 then UnsupportedVersion
    else if pkg[1] > 1 || pkg[1] !in suites then UnsupportedCipher
    else if Number(pkg) != seqNum then PackageOutOfOrder
    else Nil
  }

  function Unsealed10(aead: Aead, pkg: seq<byte>): Option<seq<byte>>
    requires |pkg| > 32
  {
    aead.open(pkg[1], pkg[4..16], pkg[..4], pkg[16..])
  }

  /** A package has the announced length, is in order and opens to its payload. */
  predicate Opens10(d: DecConfig, seqNum: u32, pkg: seq<byte>, m: seq<byte>) {
    && |pkg| > 32 && |pkg| == 32 + Announced(pkg)
    && Fault10(d.suites, seqNum, pkg) == Nil && Unsealed10(d.aead, pkg) == Some(m)
  }

  /** The packages are numbered in order and open to their payloads. */
  ghost predicate Accepted10(d: DecConfig, first: u32, pkgs: seq<seq<byte>>, ms: seq<seq<byte>>) {
    |pkgs| == |ms| && forall i :: 0 <= i < |pkgs| ==> Opens10(d, AddU32(first, i), pkgs[i], ms[i])
  }

  predicate Whole(s: seq<byte>) {
    |s| >= 16 && |s| >= 32 + Announced(s)
  }

  lemma OpenExactly10(d: DecConfig, seqNum: u32, pkg: seq<byte>)
    requires |pkg| >= 16 && |pkg| == 32 + Announced(pkg)
    ensures Open10(d, seqNum, pkg)
         == if Fault10(d.suites, seqNum, pkg) != Nil then Failed(Fault10(d.suites, seqNum, pkg))
            else match Unsealed10(d.aead, pkg)
                 case None => Failed(TagMismatch)
                 case Some(m) => Opened(m)
  {
    hide SequenceNumber, Number;
    var h: Header := pkg[..16];
    NumberIs(pkg);
    assert h[4..] == pkg[4..16] && h[..4] == pkg[..4];
  }

  /** How decoding ends at `rest`. */
  function End10(d: DecConfig, seqNum: u32, rest: seq<byte>, tail: Err): Err {
    if rest == [] then tail
    else if !Whole(rest) then if tail == EOF then InvalidPayloadSize else tail
    else
      var pkg := rest[..32 + Announced(rest)];
      if Fault10(d.suites, seqNum, pkg) != Nil then Fault10(d.suites, seqNum, pkg) else TagMismatch
  }

  /** The package that starts `rest`, if there is one, is not in order or does not open. */
  predicate Stuck10(d: DecConfig, seqNum: u32, rest: seq<byte>) {
    Whole(rest) ==>
      var pkg := rest[..32 + Announced(rest)];
      Fault10(d.suites, seqNum, pkg) != Nil || Unsealed10(d.aead, pkg) == None
  }

  lemma WholeIs(s: seq<byte>)
    requires |s| >= 16
    ensures PackageSize10(s) == 32 + Announced(s)
    ensures Whole(s) ==> Announced(s[..32 + Announced(s)]) == Announced(s)
  {
  }

  lemma DecodeStuck10(d: DecConfig, seqNum: u32, rest: seq<byte>, tail: Err)
    requires Stuck10(d, seqNum, rest)
    ensures Decode10(d, seqNum, rest, tail) == Decoded([], End10(d, seqNum, rest, tail))
  {
    hide Open10, Announced, PackageSize10, Fault10, Unsealed10;
    if |rest| >= 16 {
      WholeIs(rest);
      if Whole(rest) {
        OpenExactly10(d, seqNum, rest[..32 + Announced(rest)]);
      }
    }
  }

  /** Decoding over an accepted package. */
  lemma DecodeAccepted10(d: DecConfig, seqNum: u32, pkg: seq<byte>, m: seq<byte>, more: seq<byte>, tail: Err)
    requires Opens10(d, seqNum, pkg, m)
    ensures Decode10(d, seqNum, pkg + more, tail) == Decode10(d, AddU32(seqNum, 1), more, tail).After(m)
  {
    hide Open10, Announced, PackageSize10, Fault10, Unsealed10;
    WholeIs(pkg);
    PackageSizeAppend(pkg, more);
    OpenExactly10(d, seqNum, pkg);
    assert (pkg + more)[..|pkg|] == pkg && (pkg + more)[|pkg|..] == more;
  }

  lemma AcceptedRest10(d: DecConfig, first: u32, pkgs: seq<seq<byte>>, ms: seq<seq<byte>>)
    requires pkgs != [] && Accepted10(d, first, pkgs, ms)
    ensures Accepted10(d, AddU32(first, 1), pkgs[1..], ms[1..])
    ensures AddU32(first, 0) == first && AddU32(AddU32(first, 1), |ms| - 1) == AddU32(first, |ms|)
  {
    hide Opens10, AddU32;
    NoneAccepted10(d, first);
    NextNumber10(first, |ms| - 1);
    forall i | 0 <= i < |pkgs| - 1
      ensures Opens10(d, AddU32(AddU32(first, 1), i), pkgs[1..][i], ms[1..][i])
    {
      NextNumber10(first, i);
      assert Opens10(d, AddU32(first, i + 1), pkgs[i + 1], ms[i + 1]);
    }
  }

  /** Accepted packages are decoded to their payloads, and what follows them behind. */
  lemma {:induction false} AcceptedDecode10(d: DecConfig, first: u32, pkgs: seq<seq<byte>>, ms: seq<seq<byte>>, rest: seq<byte>, tail: Err)
    requires Accepted10(d, first, pkgs, ms)
    ensures Decode10(d, first, Flatten(pkgs) + rest, tail)
         == Decode10(d, AddU32(first, |ms|), rest, tail).After(Flatten(ms))
    decreases |pkgs|
  {
    hide Decode10, Announced, Fault10, Unsealed10, AddU32;
    if pkgs == [] {
      NoneAccepted10(d, first);
      assert Flatten(pkgs) + rest == rest;
      AfterNothing(Decode10(d, first, rest, tail));
    } else {
      AcceptedRest10(d, first, pkgs, ms);
      AcceptedDecode10(d, AddU32(first, 1), pkgs[1..], ms[1..], rest, tail);
      DecodeAccepted10(d, first, pkgs[0], ms[0], Flatten(pkgs[1..]) + rest, tail);
      Assoc(pkgs[0], Flatten(pkgs[1..]), rest);
      AfterAfter(Decode10(d, AddU32(first, |ms|), rest, tail), ms[0], Flatten(ms[1..]));
    }
  }

  /** Whatever the ciphertext, it is a sequence of accepted packages and a rest that starts with none; what is
      released is their payloads, and the error is that of the rest. */
  lemma Released10(d: DecConfig, first: u32, s: seq<byte>, tail: Err)
    returns (pkgs: seq<seq<byte>>, ms: seq<seq<byte>>, rest: seq<byte>)
    ensures s == Flatten(pkgs) + rest && Accepted10(d, first, pkgs, ms) && Stuck10(d, AddU32(first, |ms|), rest)
    ensures Decode10(d, first, s, tail) == Decoded(Flatten(ms), End10(d, AddU32(first, |ms|), rest, tail))
  {
    hide Decode10, Accepted10, Stuck10;
    pkgs, ms, rest := Cut10(d, first, s);
    AcceptedDecode10(d, first, pkgs, ms, rest, tail);
    DecodeStuck10(d, AddU32(first, |ms|), rest, tail);
    assert Flatten(ms) + [] == Flatten(ms);
  }

  lemma {:induction false} Cut10(d: DecConfig, first: u32, s: seq<byte>)
    returns (pkgs: seq<seq<byte>>, ms: seq<seq<byte>>, rest: seq<byte>)
    ensures s == Flatten(pkgs) + rest && Accepted10(d, first, pkgs, ms) && Stuck10(d, AddU32(first, |ms|), rest)
    decreases |s|
  {
    hide Announced, Fault10, Unsealed10, Accepted10, AddU32;
    if Stuck10(d, first, s) {
      NoneAccepted10(d, first);
      pkgs, ms, rest := [], [], s;
      assert Flatten([]) + s == s;
    } else {
      WholeIs(s);
      var pkg, more := s[..32 + Announced(s)], s[32 + Announced(s)..];
      pkgs, ms, rest := Cut10(d, AddU32(first, 1), more);
      AcceptedMore10(d, first, pkg, Unsealed10(d.aead, pkg).value, pkgs, ms);
      NextNumber10(first, |ms|);
      FlattenMore(pkg, pkgs, rest);
      pkgs, ms := [pkg] + pkgs, [Unsealed10(d.aead, pkg).value] + ms;
      assert s == pkg + more;
    }
  }

  lemma NoneAccepted10(d: DecConfig, first: u32)
    ensures Accepted10(d, first, [], []) && AddU32(first, 0) == first
  {
  }

  lemma NextNumber10(first: u32, i: nat)
    ensures AddU32(AddU32(first, 1), i) == AddU32(first, i + 1)
  {
  }

  lemma AcceptedMore10(d: DecConfig, first: u32, pkg: seq<byte>, m: seq<byte>, pkgs: seq<seq<byte>>, ms: seq<seq<byte>>)
    requires Opens10(d, first, pkg, m)
    requires Accepted10(d, AddU32(first, 1), pkgs, ms)
    ensures Accepted10(d, first, [pkg] + pkgs, [m] + ms)
  {
    hide Opens10, AddU32;
    NoneAccepted10(d, first);
    forall i | 0 <= i <= |pkgs|
      ensures Opens10(d, AddU32(first, i), ([pkg] + pkgs)[i], ([m] + ms)[i])
    {
      if i > 0 {
        NextNumber10(first, i - 1);
      }
    }
  }

  /** A package that is in order but does not open is a tag mismatch, and nothing of it is released. */
  lemma ForgedPackage10(d: DecConfig, first: u32, pkgs: seq<seq<byte>>, ms: seq<seq<byte>>, forged: seq<byte>, more: seq<byte>, tail: Err)
    requires Accepted10(d, first, pkgs, ms) && |forged| > 32 && |forged| == 32 + Announced(forged)
    requires Fault10(d.suites, AddU32(first, |ms|), forged) == Nil && Unsealed10(d.aead, forged) == None
    ensures Decode10(d, first, Flatten(pkgs) + (forged + more), tail) == Decoded(Flatten(ms), TagMismatch)
  {
    hide Decode10, Accepted10, Fault10, Unsealed10, Announced;
    var rest := forged + more;
    AnnouncedStart(forged, more);
    assert rest[..|forged|] == forged;
    AcceptedDecode10(d, first, pkgs, ms, rest, tail);
    DecodeStuck10(d, AddU32(first, |ms|), rest, tail);
    assert Flatten(ms) + [] == Flatten(ms);
  }

  lemma AnnouncedStart(pkg: seq<byte>, more: seq<byte>)
    requires |pkg| >= 16
    ensures Announced(pkg + more) == Announced(pkg)
  {
  }
}
