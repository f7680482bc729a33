/** What the receiver makes of a chunk-signed stream, as a function of its bytes: `Decode` for any input,
    the grammar of the inputs it accepts, and the proof that they are the same. */
module ChunkParsing {
  import opened Bytes
  import opened ChunkFraming

  const MARK_LENGTH: nat := 17

  predicate IsSpace(b: byte) {
    b == 32 || b == 9 || b == LF || b == CR
  }

  /** The bytes without the spaces at their end. */
  function Trim(b: seq<byte>): (r: seq<byte>)
    ensures r <= b && (r == [] || !IsSpace(r[|r| - 1]))
    ensures forall i :: |r| <= i < |b| ==> IsSpace(b[i])
  {
    if |b| > 0 && IsSpace(b[|b| - 1]) then Trim(b[..|b| - 1]) else b
  }

  /** The first occurrence of ";chunk-signature=", or -1. */
  function FindMark(b: seq<byte>): (k: int)
    ensures -1 <= k <= |b| - MARK_LENGTH || k == -1
  {
    if |b| < MARK_LENGTH then -1
    else if b[..MARK_LENGTH] == CHUNK_SIGNATURE then 0
    else
      var k := FindMark(b[1..]);
      if k < 0 then -1 else k + 1
  }

  datatype Header = Header(size: Length, signature: seq<byte>)

  function ParseLine(line: seq<byte>): Header {
    var b := Trim(line);
    var semi := FindMark(b);
    if semi < 0 then Header(ParseLength(b), [])
    else Header(ParseLength(b[..semi]), b[semi + MARK_LENGTH..])
  }

  /** The first line feed, or -1. */
  function FindLF(b: seq<byte>): (k: int)
    ensures -1 <= k < |b|
    ensures k >= 0 ==> b[k] == LF
  {
    if b == [] then -1
    else if b[0] == LF then 0
    else
      var k := FindLF(b[1..]);
      if k < 0 then -1 else k + 1
  }

  /** How a stream ends for the receiver: EOF after the verified empty chunk; or a header line is cut short, fills
      the line buffer to its last byte when the stream ends, or is too long; or chunk data is cut short, is the last
      of the stream, or is not followed by CR LF; or a length does not parse; or a signature does not match. */
  datatype Outcome = End | CutLine | FullLine | LongLine | CutData | NoTrailer | BadTrailer | BadLength(size: Length) | Mismatch

  /** What is wrong with a header line that is none. */
  function LineFault(rest: seq<byte>): (fault: Outcome)
    ensures fault in {CutLine, FullLine, LongLine}
  {
    if FindLF(rest) < 0 && |rest| < MAX_LINE_LENGTH then CutLine
    else if FindLF(rest) < 0 && |rest| == MAX_LINE_LENGTH then FullLine
    else LongLine
  }

  /** The stream from a chunk header on; `prev` is the last verified signature. */
  function Decode(signer: Signer, prev: seq<byte>, rest: seq<byte>): Decoded<Outcome>
    decreases |rest|, 1
  {
    var k := FindLF(rest);
    if k < 0 || k + 1 >= MAX_LINE_LENGTH then Decoded([], LineFault(rest))
    else
      var h := ParseLine(rest[..k + 1]);
      if !h.size.Length? then Decoded([], BadLength(h.size))
      else DecodeChunk(signer, prev, h.signature, [], h.size.value, rest[k + 1..])
  }

  /** The stream inside a chunk: `hashed` is read, n bytes and the trailer are to come. */
  function DecodeChunk(signer: Signer, prev: seq<byte>, signature: seq<byte>, hashed: seq<byte>, n: nat, rest: seq<byte>): Decoded<Outcome>
    decreases |rest|, 3
  {
    if |rest| <= n then Decoded(rest, if |rest| < n then CutData else NoTrailer)
    else if |rest| < n + 2 || rest[n..n + 2] != CRLF then Decoded(rest[..n], BadTrailer)
    else DecodeVerify(signer, prev, signature, hashed + rest[..n], rest[n + 2..]).After(rest[..n])
  }

  /** The stream after the trailer of a chunk; the empty chunk is the last one. */
  function DecodeVerify(signer: Signer, prev: seq<byte>, signature: seq<byte>, data: seq<byte>, rest: seq<byte>): Decoded<Outcome>
    decreases |rest|, 2
  {
    if signer.sign(prev, data) != signature then Decoded([], Mismatch)
    else if data == [] then Decoded([], End)
    else Decode(signer, signature, rest)
  }

  // ------------------------------------------------------------ the accepted grammar

  /** A header line and the data it announces. */
  datatype Piece = Piece(line: seq<byte>, data: seq<byte>) {
    function Text(): seq<byte> {
      line + data + CRLF
    }
  }

  /** One line, not too long, that announces exactly the data and carries its signature. */
  predicate Accepts(signer: Signer, prev: seq<byte>, p: Piece) {
    && 0 < |p.line| < MAX_LINE_LENGTH
    && FindLF(p.line) == |p.line| - 1
    && ParseLine(p.line) == Header(Length(|p.data|), signer.sign(prev, p.data))
  }

  /** Nonempty pieces, each accepted after the signature of the one before. */
  predicate Chain(signer: Signer, prev: seq<byte>, ps: seq<Piece>)
    decreases |ps|
  {
    ps == [] ||
    (Accepts(signer, prev, ps[0]) && ps[0].data != [] && Chain(signer, signer.sign(prev, ps[0].data), ps[1..]))
  }

  function LastSignature(signer: Signer, prev: seq<byte>, ps: seq<Piece>): seq<byte>
    decreases |ps|
  {
    if ps == [] then prev else LastSignature(signer, signer.sign(prev, ps[0].data), ps[1..])
  }

  function Texts(ps: seq<Piece>): seq<byte> {
    if ps == [] then [] else ps[0].Text() + Texts(ps[1..])
  }

  function Data(ps: seq<Piece>): seq<byte> {
    if ps == [] then [] else ps[0].data + Data(ps[1..])
  }

  /** The input starts with a chain of signed chunks that carry `data` and the signed empty chunk. */
  ghost predicate SignedStream(signer: Signer, prev: seq<byte>, input: seq<byte>, data: seq<byte>) {
    exists ps, line, more ::
      && Chain(signer, prev, ps)
      && Accepts(signer, LastSignature(signer, prev, ps), Piece(line, []))
      && input == Texts(ps) + (Piece(line, []).Text() + more)
      && data == Data(ps)
  }

  lemma {:induction false} FindLFAppend(b: seq<byte>, more: seq<byte>)
    requires FindLF(b) >= 0
    ensures FindLF(b + more) == FindLF(b)
  {
    if b[0] != LF {
      FindLFAppend(b[1..], more);
      assert (b + more)[1..] == b[1..] + more;
    }
  }

  lemma {:induction false} FindLFPrefix(b: seq<byte>)
    requires FindLF(b) >= 0
    ensures FindLF(b[..FindLF(b) + 1]) == FindLF(b)
  {
    if b[0] != LF {
      FindLFPrefix(b[1..]);
      assert b[..FindLF(b) + 1][1..] == b[1..][..FindLF(b[1..]) + 1];
    }
  }

  /** An accepted piece is read as its data. */
  lemma DecodePiece(signer: Signer, prev: seq<byte>, p: Piece, more: seq<byte>)
    requires Accepts(signer, prev, p)
    ensures Decode(signer, prev, p.Text() + more)
         == DecodeVerify(signer, prev, signer.sign(prev, p.data), p.data, more).After(p.data)
  {
    hide ParseLine, DecodeVerify, FindLF, Min;
    var input := p.Text() + more;
    assert input == p.line + (p.data + CRLF + more);
    FindLFAppend(p.line, p.data + CRLF + more);
    assert input[..|p.line|] == p.line;
    var rest := input[|p.line|..];
    var n := |p.data|;
    assert rest == p.data + CRLF + more;
    assert rest[..n] == p.data && rest[n..n + 2] == CRLF && rest[n + 2..] == more;
    assert [] + p.data == p.data;
  }

  lemma {:induction false} DecodeChain(signer: Signer, prev: seq<byte>, ps: seq<Piece>, more: seq<byte>)
    requires Chain(signer, prev, ps)
    ensures Decode(signer, prev, Texts(ps) + more)
         == Decode(signer, LastSignature(signer, prev, ps), more).After(Data(ps))
    decreases |ps|
  {
    hide Decode, Accepts;
    if ps == [] {
      assert [] + more == more;
    } else {
      var next := signer.sign(prev, ps[0].data);
      assert Texts(ps) + more == ps[0].Text() + (Texts(ps[1..]) + more);
      DecodePiece(signer, prev, ps[0], Texts(ps[1..]) + more);
      DecodeChain(signer, next, ps[1..], more);
    }
  }

  /** What an input starts with when its first piece is verified. */
  lemma FirstPiece(signer: Signer, prev: seq<byte>, input: seq<byte>) returns (p: Piece, more: seq<byte>)
    requires Decode(signer, prev, input).err.End?
    ensures Accepts(signer, prev, p) && input == p.Text() + more
  {
    hide ParseLine, DecodeVerify, DecodeChunk, LineFault, FindLF;
    var k := FindLF(input);
    FindLFPrefix(input);
    var line := input[..k + 1];
    var h := ParseLine(line);
    p, more := FirstChunk(signer, prev, line, h.signature, h.size.value, input[k + 1..]);
    assert input == line + input[k + 1..];
  }

  lemma FirstChunk(signer: Signer, prev: seq<byte>, line: seq<byte>, signature: seq<byte>, n: nat, rest: seq<byte>)
    returns (p: Piece, more: seq<byte>)
    requires DecodeChunk(signer, prev, signature, [], n, rest).err.End?
    ensures p.line == line && |p.data| == n && signer.sign(prev, p.data) == signature
    ensures line + rest == p.Text() + more
  {
    hide Decode;
    p, more := Piece(line, rest[..n]), rest[n + 2..];
    assert [] + rest[..n] == rest[..n];
    assert rest == rest[..n] + CRLF + more;
  }

  lemma {:induction false} EndIsSigned(signer: Signer, prev: seq<byte>, input: seq<byte>)
    returns (ps: seq<Piece>, line: seq<byte>, more: seq<byte>)
    requires Decode(signer, prev, input).err.End?
    ensures Chain(signer, prev, ps)
    ensures Accepts(signer, LastSignature(signer, prev, ps), Piece(line, []))
    ensures input == Texts(ps) + (Piece(line, []).Text() + more)
    decreases |input|
  {
    hide Decode, Accepts;
    var p, rest := FirstPiece(signer, prev, input);
    DecodePiece(signer, prev, p, rest);
    if p.data == [] {
      ps, line, more := [], p.line, rest;
      assert p == Piece(line, []);
    } else {
      var next := signer.sign(prev, p.data);
      var ps';
      ps', line, more := EndIsSigned(signer, next, rest);
      ps := [p] + ps';
      assert ps[1..] == ps';
      assert input == p.Text() + (Texts(ps') + (Piece(line, []).Text() + more));
    }
  }

  /** The receiver reports EOF after delivering `data` exactly when the input starts with a signed stream of
      `data`. */
  lemma EndExactly(signer: Signer, prev: seq<byte>, input: seq<byte>, data: seq<byte>)
    ensures Decode(signer, prev, input) == Decoded(data, End) <==> SignedStream(signer, prev, input, data)
  {
    hide Decode, Accepts;
    if Decode(signer, prev, input).err.End? {
      var ps, line, more := EndIsSigned(signer, prev, input);
      SignedDecodes(signer, prev, ps, line, more);
    }
    forall ps, line, more | Chain(signer, prev, ps)
                         && Accepts(signer, LastSignature(signer, prev, ps), Piece(line, []))
                         && input == Texts(ps) + (Piece(line, []).Text() + more)
                         && data == Data(ps)
      ensures Decode(signer, prev, input) == Decoded(data, End)
    {
      SignedDecodes(signer, prev, ps, line, more);
    }
  }

  lemma SignedDecodes(signer: Signer, prev: seq<byte>, ps: seq<Piece>, line: seq<byte>, more: seq<byte>)
    requires Chain(signer, prev, ps)
    requires Accepts(signer, LastSignature(signer, prev, ps), Piece(line, []))
    ensures Decode(signer, prev, Texts(ps) + (Piece(line, []).Text() + more)) == Decoded(Data(ps), End)
  {
    hide Decode, Accepts;
    DecodeChain(signer, prev, ps, Piece(line, []).Text() + more);
    DecodePiece(signer, LastSignature(signer, prev, ps), Piece(line, []), more);
  }
}
