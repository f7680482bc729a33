/** The receiver accepts what the sender sends. */
module ChunkRoundTrip {
  import opened Basics
  import opened Bytes
  import opened ChunkFraming
  import opened ChunkParsing

  /** The header line of a frame. */
  function Line(signer: Signer, prev: seq<byte>, data: seq<byte>): seq<byte> {
    Hex(|data|) + CHUNK_SIGNATURE + signer.sign(prev, data) + CRLF
  }

  predicate Plain(b: byte) {
    !IsSpace(b)
  }

  lemma {:induction false} HexPlain(n: nat)
    ensures forall i :: 0 <= i < |Hex(n)| ==> Plain(Hex(n)[i]) && Hex(n)[i] != ';' as int
  {
    if n >= 16 {
      HexPlain(n / 16);
    }
  }

  lemma SignaturePlain(s: seq<byte>)
    requires LowerHex(s)
    ensures forall i :: 0 <= i < |s| ==> Plain(s[i])
  {
  }

  lemma MarkPlain()
    ensures |CHUNK_SIGNATURE| == MARK_LENGTH && CHUNK_SIGNATURE[0] == ';' as int
    ensures forall i :: 0 <= i < |CHUNK_SIGNATURE| ==> Plain(CHUNK_SIGNATURE[i])
  {
  }

  lemma {:induction false} FindLFAt(b: seq<byte>, k: nat)
    requires k < |b| && b[k] == LF && forall i :: 0 <= i < k ==> b[i] != LF
    ensures FindLF(b) == k
  {
    if k > 0 {
      FindLFAt(b[1..], k - 1);
    }
  }

  lemma {:induction false} FindMarkAt(h: seq<byte>, more: seq<byte>)
    requires forall i :: 0 <= i < |h| ==> h[i] != ';' as int
    ensures FindMark(h + CHUNK_SIGNATURE + more) == |h|
  {
    hide Plain;
    MarkPlain();
    var b := h + CHUNK_SIGNATURE + more;
    if h == [] {
      assert b[..MARK_LENGTH] == CHUNK_SIGNATURE;
    } else {
      FindMarkAt(h[1..], more);
      assert b[1..] == h[1..] + CHUNK_SIGNATURE + more;
      assert b[..MARK_LENGTH][0] == h[0];
    }
  }

  lemma TrimCRLF(b: seq<byte>)
    requires |b| > 0 && Plain(b[|b| - 1])
    ensures Trim(b + CRLF) == b
  {
    var c := b + [CR];
    assert (b + CRLF)[..|b| + 1] == c && c[..|b|] == b;
    assert Trim(b + CRLF) == Trim(c) == Trim(b);
  }

  /** The frame of the data is one accepted line, the data and the trailer. */
  lemma FrameAccepted(signer: Signer, prev: seq<byte>, data: seq<byte>)
    requires signer.Lawful() && |data| < TWO64
    ensures Accepts(signer, prev, Piece(Line(signer, prev, data), data))
    ensures Frame(signer, prev, data) == Piece(Line(signer, prev, data), data).Text()
  {
    hide Hex, Trim, FindMark, FindLF;
    var h, s := Hex(|data|), signer.sign(prev, data);
    var line := Line(signer, prev, data);
    Pow16Is64Bits();
    HexLength(|data|, 16);
    HexRoundTrip(|data|);
    HexPlain(|data|);
    MarkPlain();
    SignaturePlain(s);
    FindLFAt(line, |line| - 1);
    var b := h + CHUNK_SIGNATURE + s;
    assert b[|b| - 1] == s[|s| - 1];
    TrimCRLF(b);
    assert line == b + CRLF;
    FindMarkAt(h, s);
    assert b[..|h|] == h && b[|h| + MARK_LENGTH..] == s;
  }

  /** A header line without any digits, with the signature of the empty chunk, ends the stream like the
      sender's terminator. */
  lemma EmptyLengthEnds(signer: Signer, prev: seq<byte>, more: seq<byte>)
    requires signer.Lawful()
    ensures Decode(signer, prev, CHUNK_SIGNATURE + signer.sign(prev, []) + CRLF + CRLF + more) == Decoded([], End)
  {
    hide Trim, FindMark, FindLF, Decode;
    var s := signer.sign(prev, []);
    var line := CHUNK_SIGNATURE + s + CRLF;
    MarkPlain();
    SignaturePlain(s);
    FindLFAt(line, |line| - 1);
    var b := CHUNK_SIGNATURE + s;
    assert b[|b| - 1] == s[|s| - 1];
    TrimCRLF(b);
    assert line == b + CRLF;
    FindMarkAt([], s);
    assert [] + CHUNK_SIGNATURE + s == b;
    assert b[..0] == [] && b[MARK_LENGTH..] == s;
    assert Accepts(signer, prev, Piece(line, []));
    assert line + CRLF + more == Piece(line, []).Text() + more;
    DecodePiece(signer, prev, Piece(line, []), more);
  }

  /** The receiver reads the stream of a payload, whatever follows it, as the payload and then EOF. */
  lemma {:induction false} StreamDecodes(signer: Signer, prev: seq<byte>, payload: seq<byte>, more: seq<byte>)
    requires signer.Lawful()
    ensures Decode(signer, prev, ChunkStream(signer, prev, payload) + more) == Decoded(payload, End)
    decreases |payload|
  {
    hide Decode, Accepts, Frame;
    var k := Min(CHUNK_SIZE, |payload|);
    var first := payload[..k];
    var p := Piece(Line(signer, prev, first), first);
    FrameAccepted(signer, prev, first);
    if k == 0 {
      DecodePiece(signer, prev, p, more);
    } else {
      var next := signer.sign(prev, first);
      var tail := ChunkStream(signer, next, payload[k..]);
      assert ChunkStream(signer, prev, payload) + more == p.Text() + (tail + more);
      DecodePiece(signer, prev, p, tail + more);
      StreamDecodes(signer, next, payload[k..], more);
      assert first + payload[k..] == payload;
    }
  }
}
