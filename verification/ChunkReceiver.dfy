/** s3ChunkedReader: it reads a chunk-signed stream and delivers the data of the chunks. */
module ChunkReceiver {
  import opened Basics
  import opened Bytes
  import opened Io
  import opened ChunkFraming
  import opened ChunkParsing

  // ------------------------------------------------------------ the parsers

  method TrimTrailingWhitespace(line: seq<byte>) returns (b: seq<byte>)
    ensures b == Trim(line)
    ensures b <= line && (b == [] || !IsSpace(b[|b| - 1])) && forall i :: |b| <= i < |line| ==> IsSpace(line[i])
  {
    b := line;
    while |b| > 0 && IsSpace(b[|b| - 1])
      invariant Trim(b) == Trim(line)
    {
      b := b[..|b| - 1];
    }
  }

  function LengthErr(l: Length): Err {
    match l
    case Length(_) => Nil
    case InvalidByte => InvalidByteInLength
    case TooLarge => LengthTooLarge
  }

  /** parseHexUint. The shift never loses a bit. */
  method ParseHexUint(v: seq<byte>) returns (n: nat, err: Err)
    ensures err == LengthErr(ParseLength(v)) && n < TWO64
    ensures err == Nil ==> ParseLength(v) == Length(n)
  {
    hide AllHex, HexValue, Pow16;
    n := 0;
    NoDigits();
    assert v[..0] == [];
    for i := 0 to |v|
      invariant i <= 16 && AllHex(v[..i]) && n == HexValue(v[..i]) && n < TWO64
    {
      DigitStep(v, i);
      var d := DigitValue(v[i]);
      if d < 0 {
        return 0, InvalidByteInLength;
      }
      if i == 16 {
        return 0, LengthTooLarge;
      }
      n := n * 16 % TWO64 + d;
    }
    assert v[..|v|] == v;
    err := Nil;
  }

  lemma DigitStep(v: seq<byte>, i: nat)
    requires i < |v| && i <= 16 && AllHex(v[..i])
    ensures DigitValue(v[i]) < 0 ==> ParseLength(v) == InvalidByte
    ensures DigitValue(v[i]) >= 0 ==>
              && AllHex(v[..i + 1])
              && HexValue(v[..i + 1]) == 16 * HexValue(v[..i]) + DigitValue(v[i])
              && if i == 16 then ParseLength(v) == TooLarge else HexValue(v[..i + 1]) < TWO64
  {
    hide HexValue, Pow16, DigitValue;
    if DigitValue(v[i]) < 0 {
      assert |v| > 16 ==> v[..17][i] == v[i];
    } else {
      assert v[..i + 1][..i] == v[..i];
      assert AllHex(v[..i + 1]);
      ValueStep(v[..i + 1]);
      if i < 16 {
        Pow16Is64Bits();
        HexValueBound(v[..i + 1]);
        Pow16Monotone(i + 1, 16);
      }
    }
  }

  lemma NoDigits()
    ensures AllHex([]) && HexValue([]) == 0
  {
  }

  lemma ValueStep(v: seq<byte>)
    requires AllHex(v) && v != []
    ensures HexValue(v) == 16 * HexValue(v[..|v| - 1]) + DigitValue(v[|v| - 1])
  {
  }

  /** parseS3ChunkExtension and the length parser. */
  method ParseHeader(text: seq<byte>) returns (n: nat, signature: seq<byte>, err: Err)
    ensures n < TWO64 && err == LengthErr(ParseLine(text).size)
    ensures err == Nil ==> ParseLine(text) == Header(Length(n), signature)
  {
    hide ParseLength, Trim, FindMark;
    var b := TrimTrailingWhitespace(text);
    var semi := FindMark(b);
    var hexChunkSize;
    hexChunkSize, signature := b, [];
    if semi >= 0 {
      hexChunkSize, signature := b[..semi], b[semi + MARK_LENGTH..];
    }
    n, err := ParseHexUint(hexChunkSize);
  }

  /** bufio ReadSlice up to a line feed, within a buffer of 4096 bytes, and the errors readChunkLine makes of
      its errors. */
  method ReadLine(src: Source) returns (line: seq<byte>, err: Err)
    requires src.tail == EOF || src.tail == ReadFailed
    modifies src`rest
    ensures err == Nil <==> 0 <= FindLF(old(src.rest)) < MAX_LINE_LENGTH - 1
    ensures err == Nil ==> line + src.rest == old(src.rest) && |line| == FindLF(old(src.rest)) + 1
    ensures err != Nil ==> err != EOF && Reports(LineFault(old(src.rest)), src.tail, err)
  {
    var i := 0;
    while i < |src.rest| && i < MAX_LINE_LENGTH && src.rest[i] != LF
      invariant 0 <= i <= |src.rest| && i <= MAX_LINE_LENGTH
      invariant FindLF(src.rest) == if FindLF(src.rest[i..]) < 0 then -1 else i + FindLF(src.rest[i..])
    {
      assert src.rest[i..][1..] == src.rest[i + 1..];
      i := i + 1;
    }
    line, err := [], Nil;
    if i < |src.rest| && i < MAX_LINE_LENGTH {
      line := src.rest[..i + 1];
      src.rest := src.rest[i + 1..];
      if |line| >= MAX_LINE_LENGTH {
        line, err := [], LineTooLong;
      }
    } else {
      var full := i == MAX_LINE_LENGTH;
      if i == |src.rest| {
        full :| full ==> i == MAX_LINE_LENGTH;
      }
      err := if full then LineTooLong else if src.tail == EOF then IoUnexpectedEOF else src.tail;
      src.rest := src.rest[i..];
    }
  }

  method ReadCRLF(src: Source) returns (err: Err)
    requires src.tail == EOF || src.tail == ReadFailed
    modifies src`rest
    ensures err == Nil <==> CRLF <= old(src.rest)
    ensures err == Nil ==> src.rest == old(src.rest)[2..]
  {
    var buf := new byte[2];
    var n;
    n, err := src.ReadFull(buf, 0, 2);
    if err != Nil {
      return;
    }
    SpliceAll(buf[..], old(src.rest)[..2]);
    if buf[0] != CR || buf[1] != LF {
      assert buf[..] == old(src.rest)[..2];
      return MalformedEncoding;
    }
    assert buf[..] == old(src.rest)[..2] == CRLF;
  }

  // ------------------------------------------------------------ the state machine

  datatype ChunkState = ReadHeader | ReadTrailer | ReadData | Verify | AtEnd

  /** An end of input in the middle is unexpected; another error of the source is passed on. */
  function CutErr(tail: Err): Err {
    if tail == EOF then IoUnexpectedEOF else tail
  }

  /** The error that a stream's outcome makes the reader return. */
  predicate Reports(outcome: Outcome, tail: Err, err: Err) {
    match outcome
    case End => err == EOF
    case CutLine => err == CutErr(tail)
    case FullLine => err == CutErr(tail) || err == LineTooLong
    case LongLine => err == LineTooLong
    case CutData => err == CutErr(tail)
    case NoTrailer => err == CutErr(tail) || err == MalformedEncoding
    case BadTrailer => err == MalformedEncoding
    case BadLength(size) => err == LengthErr(size) && err != Nil
    case Mismatch => err == SignatureMismatch
  }

  /** A header line that announces `size` bytes and their signature. */
  ghost predicate Announces(line: seq<byte>, size: nat, signature: seq<byte>) {
    && 0 < |line| < MAX_LINE_LENGTH
    && FindLF(line) == |line| - 1
    && ParseLine(line) == Header(Length(size), signature)
  }

  /** The input is a chain of verified chunks, what is read of the current chunk, and the rest. */
  ghost predicate LogFits(signer: Signer, seed: seq<byte>, input: seq<byte>, verified: seq<Piece>, line: seq<byte>,
                          state: ChunkState, last: seq<byte>, signature: seq<byte>, hashed: seq<byte>, n: nat, rest: seq<byte>) {
    && Chain(signer, seed, verified)
    && (state != AtEnd ==> LastSignature(signer, seed, verified) == last)
    && match state
       case ReadHeader => input == Texts(verified) + rest
       case ReadData => input == Texts(verified) + (line + hashed + rest) && Announces(line, |hashed| + n, signature)
       case ReadTrailer => input == Texts(verified) + (line + hashed + rest) && Announces(line, |hashed|, signature)
       case Verify => input == Texts(verified) + (line + hashed + CRLF + rest) && Announces(line, |hashed|, signature)
       case AtEnd =>
         && input == Texts(verified) + (Piece(line, []).Text() + rest)
         && Accepts(signer, LastSignature(signer, seed, verified), Piece(line, []))
  }

  /** A header line is read. */
  lemma LogOpens(signer: Signer, seed: seq<byte>, input: seq<byte>, verified: seq<Piece>, earlier: seq<byte>, line: seq<byte>,
                 last: seq<byte>, before: seq<byte>, signature: seq<byte>, k: nat, n: nat, all: seq<byte>, rest: seq<byte>)
    requires LogFits(signer, seed, input, verified, earlier, ReadHeader, last, before, [], k, all)
    requires all == line + rest && Announces(line, n, signature)
    ensures LogFits(signer, seed, input, verified, line, if n == 0 then ReadTrailer else ReadData, last, signature, [], n, rest)
  {
    hide Chain, Texts, LastSignature, Announces;
    assert line + [] + rest == all;
  }

  /** A part of the data is read. */
  lemma LogReads(signer: Signer, seed: seq<byte>, input: seq<byte>, verified: seq<Piece>, line: seq<byte>, last: seq<byte>,
                 signature: seq<byte>, hashed: seq<byte>, n: nat, all: seq<byte>, part: seq<byte>, rest: seq<byte>)
    requires LogFits(signer, seed, input, verified, line, ReadData, last, signature, hashed, n, all)
    requires all == part + rest && |part| <= n
    ensures LogFits(signer, seed, input, verified, line, if |part| == n then ReadTrailer else ReadData, last, signature,
                    hashed + part, n - |part|, rest)
  {
    hide Chain, Texts, LastSignature, Announces;
    assert line + hashed + all == line + (hashed + part) + rest;
  }

  /** The trailer is read. */
  lemma LogEnds(signer: Signer, seed: seq<byte>, input: seq<byte>, verified: seq<Piece>, line: seq<byte>, last: seq<byte>,
                signature: seq<byte>, hashed: seq<byte>, n: nat, all: seq<byte>, rest: seq<byte>)
    requires LogFits(signer, seed, input, verified, line, ReadTrailer, last, signature, hashed, n, all) && all == CRLF + rest
    ensures LogFits(signer, seed, input, verified, line, Verify, last, signature, hashed, n, rest)
  {
    hide Chain, Texts, LastSignature, Announces;
    assert line + hashed + all == line + hashed + CRLF + rest;
  }

  /** The signature is right. */
  lemma LogVerifies(signer: Signer, seed: seq<byte>, input: seq<byte>, verified: seq<Piece>, line: seq<byte>, last: seq<byte>,
                    signature: seq<byte>, hashed: seq<byte>, n: nat, rest: seq<byte>)
    requires LogFits(signer, seed, input, verified, line, Verify, last, signature, hashed, n, rest)
    requires signature == signer.sign(last, hashed)
    ensures hashed == [] ==> LogFits(signer, seed, input, verified, line, AtEnd, signature, signature, [], n, rest)
    ensures var piece := Piece(line, hashed);
            hashed != [] ==>
              && LogFits(signer, seed, input, verified + [piece], line, ReadHeader, signature, signature, [], n, rest)
              && Data(verified + [piece]) == Data(verified) + hashed
  {
    hide Chain, Texts, LastSignature, ParseLine, FindLF;
    if hashed != [] {
      var piece := Piece(line, hashed);
      ChainSnoc(signer, seed, verified, piece);
      Assoc(Texts(verified), piece.Text(), rest);
    }
  }

  /** The error of a length that does not parse. */
  lemma ReportsLength(size: Length, tail: Err, err: Err)
    requires err == LengthErr(size)
    ensures err == Nil <==> size.Length?
    ensures err != Nil ==> err != EOF && Reports(BadLength(size), tail, err)
  {
  }

  lemma ReportsCut(tail: Err, outcome: Outcome)
    requires tail in {EOF, ReadFailed} && outcome in {CutData, NoTrailer}
    ensures Reports(outcome, tail, if tail == EOF then IoUnexpectedEOF else tail)
  {
  }

  class ChunkedReader {
    const src: Source
    const signer: Signer
    var seedSignature: seq<byte>
    var state: ChunkState
    var lastChunk: bool
    var chunkSignature: seq<byte>
    /** The bytes written to the chunk's hash. */
    var hashed: seq<byte>
    var n: nat

    ghost const seed: seq<byte>
    ghost const input: seq<byte>
    /** The verified chunks so far, and the current header line. */
    ghost var verified: seq<Piece>
    ghost var line: seq<byte>

    constructor (src: Source, signer: Signer, seedSignature: seq<byte>)
      requires src.tail == EOF || src.tail == ReadFailed
      ensures Valid() && Logged() && this.src == src && this.signer == signer && this.input == src.rest && this.seed == seedSignature
      ensures Pending() == Decode(signer, seedSignature, src.rest) && Delivered() == []
    {
      this.src, this.signer, this.seedSignature := src, signer, seedSignature;
      state, lastChunk, chunkSignature, hashed, n := ReadHeader, false, [], [], 0;
      seed, input, verified, line := seedSignature, src.rest, [], [];
    }

    predicate Valid()
      reads this, src
    {
      && (src.tail == EOF || src.tail == ReadFailed)
      && n < TWO64
      && match state
         case ReadHeader => hashed == [] && !lastChunk
         case ReadData => n > 0 && !lastChunk
         case ReadTrailer => n == 0 && (lastChunk <==> hashed == [])
         case Verify => n == 0 && (lastChunk <==> hashed == [])
         case AtEnd => hashed == []
    }

    /** What is still to be delivered, and how the stream will end. */
    function Pending(): Decoded<Outcome>
      reads this, src
    {
      match state
      case ReadHeader => Decode(signer, seedSignature, src.rest)
      case ReadData => DecodeChunk(signer, seedSignature, chunkSignature, hashed, n, src.rest)
      case ReadTrailer => DecodeChunk(signer, seedSignature, chunkSignature, hashed, 0, src.rest)
      case Verify => DecodeVerify(signer, seedSignature, chunkSignature, hashed, src.rest)
      case AtEnd => Decoded([], End)
    }

    /** All that was delivered: the data of the verified chunks and a part of the current one. */
    ghost function Delivered(): seq<byte>
      reads this
    {
      Data(verified) + hashed
    }

    /** The input read so far is a chain of verified chunks and the beginning of the current one. */
    ghost predicate Logged()
      reads this, src
    {
      LogFits(signer, seed, input, verified, line, state, seedSignature, chunkSignature, hashed, n, src.rest)
    }

    /** readS3ChunkHeader and what Read makes of its result. */
    method StepHeader() returns (err: Err)
      requires Valid() && Logged() && state == ReadHeader
      modifies this, src`rest
      ensures err == Nil ==> Valid() && Logged() && Pending() == old(Pending()) && |src.rest| < |old(src.rest)|
      ensures err == Nil ==> Delivered() == old(Delivered()) && state in {ReadData, ReadTrailer}
      ensures err != Nil ==> err != EOF && Reports(old(Pending()).err, src.tail, err)
    {
      hide Decode, DecodeChunk, ParseLine, FindLF, ParseLength, LogFits, Reports, LineFault, LengthErr, DecodeVerify;
      ghost var all := src.rest;
      var text, signature;
      text, err := ReadLine(src);
      DecodeHeader(signer, seedSignature, all);
      if err != Nil {
        return;
      }
      FindLFPrefix(all);
      assert all[..|text|] == text && all[|text|..] == src.rest;
      var size;
      size, signature, err := ParseHeader(text);
      ReportsLength(ParseLine(text).size, src.tail, err);
      if err != Nil {
        n := size;
        return;
      }
      LogOpens(signer, seed, input, verified, line, text, seedSignature, chunkSignature, signature, n, size, all, src.rest);
      n, chunkSignature := size, signature;
      line := text;
      if n == 0 {
        state, lastChunk := ReadTrailer, true;
      } else {
        state := ReadData;
      }
    }

    method StepTrailer() returns (err: Err)
      requires Valid() && Logged() && state == ReadTrailer
      modifies this`state, src`rest
      ensures err == Nil ==> Valid() && Logged() && Pending() == old(Pending()) && |src.rest| < |old(src.rest)|
      ensures err == Nil ==> state == Verify && Delivered() == old(Delivered())
      ensures err != Nil ==> err != EOF && Reports(old(Pending()).err, src.tail, err)
    {
      hide Decode, DecodeVerify, LogFits;
      ghost var all := src.rest;
      err := ReadCRLF(src);
      if err != Nil {
        return MalformedEncoding;
      }
      assert all == CRLF + src.rest;
      assert all[0..0 + 2] == CRLF;
      assert hashed + all[..0] == hashed;
      LogEnds(signer, seed, input, verified, line, seedSignature, chunkSignature, hashed, n, all, src.rest);
      state := Verify;
    }

    /** One read of chunk data into p[lo..]. The bytes that come with an error are not delivered. */
    method StepData(p: array<byte>, lo: nat) returns (n0: nat, err: Err)
      requires Valid() && Logged() && state == ReadData && lo < p.Length
      modifies this`hashed, this`n, this`state, src`rest, p
      ensures err == Nil ==> Valid() && Logged() && 0 < n0 <= p.Length - lo && |src.rest| < |old(src.rest)|
      ensures err == Nil ==> p[..lo + n0] == old(p[..lo]) + p[lo..lo + n0]
      ensures err == Nil ==> old(Pending()) == Pending().After(p[lo..lo + n0])
      ensures err == Nil ==> Delivered() == old(Delivered()) + p[lo..lo + n0]
      ensures err == Nil ==> state in {ReadData, ReadTrailer} && (lo + n0 < p.Length && n > 0 ==> state == ReadData)
      ensures err != Nil ==> err != EOF && Reports(old(Pending()).err, src.tail, err)
    {
      hide Decode, DecodeVerify, DecodeChunk, Data, LogFits, Decoded.After, Reports;
      ghost var all := src.rest;
      n0, err := src.Read(p, lo, lo + Min(p.Length - lo, n));
      if err != Nil {
        ShortChunk(signer, seedSignature, chunkSignature, hashed, n, all);
        ReportsCut(src.tail, if |all| < n then CutData else NoTrailer);
        if err == EOF {
          err := IoUnexpectedEOF;
        }
        return;
      }
      assert p[lo..lo + n0] == all[..n0];
      DecodeChunkPart(signer, seedSignature, chunkSignature, hashed, n, all, n0);
      LogReads(signer, seed, input, verified, line, seedSignature, chunkSignature, hashed, n, all, p[lo..lo + n0], src.rest);
      Assoc(Data(verified), hashed, p[lo..lo + n0]);
      hashed := hashed + p[lo..lo + n0];
      n := n - n0;
      if n == 0 {
        state := ReadTrailer;
      }
    }

    method StepVerify() returns (err: Err)
      requires Valid() && Logged() && state == Verify
      modifies this
      ensures err == Nil ==> Valid() && Logged() && Pending() == old(Pending())
      ensures err == Nil ==> Delivered() == old(Delivered()) && state in {ReadHeader, AtEnd}
      ensures err != Nil ==> err != EOF && Reports(old(Pending()).err, src.tail, err)
    {
      hide Decode, Data, LogFits, Decoded.After;
      var newSignature := signer.sign(seedSignature, hashed);
      if chunkSignature != newSignature {
        return SignatureMismatch;
      }
      LogVerifies(signer, seed, input, verified, line, seedSignature, chunkSignature, hashed, n, src.rest);
      if !lastChunk {
        verified := verified + [Piece(line, hashed)];
      }
      seedSignature := newSignature;
      hashed := [];
      err := Nil;
      if lastChunk {
        state := AtEnd;
      } else {
        state := ReadHeader;
      }
    }

    /** One read of chunk data, for a Read that delivered p[..k] before. */
    method ReadPart(p: array<byte>, k: nat, ghost all: Decoded<Outcome>, ghost had: seq<byte>) returns (n0: nat, err: Err)
      requires Valid() && Logged() && state == ReadData && k < p.Length
      requires all == Pending().After(p[..k]) && Delivered() == had + p[..k]
      modifies this`hashed, this`n, this`state, src`rest, p
      ensures err == Nil ==> Valid() && Logged() && n0 <= p.Length - k && |src.rest| < |old(src.rest)|
      ensures err == Nil ==> all == Pending().After(p[..k + n0]) && Delivered() == had + p[..k + n0]
      ensures err != Nil ==> err != EOF && Reports(all.err, src.tail, err)
    {
      hide Decode, DecodeChunk, DecodeVerify, Delivered, Reports, Valid, Logged, Pending;
      ghost var before := p[..k];
      n0, err := StepData(p, k);
      if err == Nil {
        assert had + before + p[k..k + n0] == had + p[..k + n0];
        assert before + (p[k..k + n0] + Pending().plain) == p[..k + n0] + Pending().plain;
      }
    }

    lemma NothingPending()
      requires state == AtEnd
      ensures Pending() == Decoded([], End)
    {
    }

    /** One Read. What it delivers is the next part of the data; when it succeeds, all that was delivered is
        the data of verified chunks and a proper part of the current one; EOF comes only after the verified
        empty chunk; any other error is the one the input calls for. */
    method Read(p: array<byte>) returns (k: nat, err: Err)
      requires Valid() && Logged()
      modifies this, src`rest, p
      ensures k <= p.Length && (err in {Nil, EOF} ==> Valid() && Logged())
      ensures err in {Nil, EOF} ==> old(Pending()) == Pending().After(p[..k]) && Delivered() == old(Delivered()) + p[..k]
      ensures err == Nil ==> state == ReadData && k == p.Length
      ensures err == EOF ==> state == AtEnd && Pending() == Decoded([], End)
      ensures err !in {Nil, EOF} ==> k == 0 && Reports(old(Pending()).err, src.tail, err)
    {
      hide Decode, DecodeChunk, DecodeVerify, Delivered, Reports, Valid, Logged, Pending;
      ghost var all, had := Pending(), Delivered();
      k, err := 0, Nil;
      while true
        invariant Valid() && Logged() && k <= p.Length
        invariant all == Pending().After(p[..k]) && Delivered() == had + p[..k]
        decreases |src.rest|, state == Verify
      {
        match state
        case ReadHeader =>
          err := StepHeader();
          if err != Nil {
            return 0, err;
          }
        case ReadTrailer =>
          err := StepTrailer();
          if err != Nil {
            return 0, err;
          }
        case ReadData =>
          if k == p.Length {
            return k, Nil;
          }
          var n0;
          n0, err := ReadPart(p, k, all, had);
          if err != Nil {
            return 0, err;
          }
          k := k + n0;
        case Verify =>
          err := StepVerify();
          if err != Nil {
            return 0, err;
          }
        case AtEnd =>
          NothingPending();
          return k, EOF;
      }
    }
  }

  lemma DecodeHeader(signer: Signer, prev: seq<byte>, rest: seq<byte>)
    ensures var k := FindLF(rest);
            Decode(signer, prev, rest) ==
            if k < 0 || k + 1 >= MAX_LINE_LENGTH then Decoded([], LineFault(rest))
            else
              var h := ParseLine(rest[..k + 1]);
              if !h.size.Length? then Decoded([], BadLength(h.size))
              else DecodeChunk(signer, prev, h.signature, [], h.size.value, rest[k + 1..])
  {
  }

  lemma ShortChunk(signer: Signer, prev: seq<byte>, signature: seq<byte>, hashed: seq<byte>, n: nat, rest: seq<byte>)
    requires |rest| <= n
    ensures DecodeChunk(signer, prev, signature, hashed, n, rest).err == if |rest| < n then CutData else NoTrailer
  {
  }

  /** Reading a part of the chunk's data leaves the rest of the chunk. */
  lemma DecodeChunkPart(signer: Signer, prev: seq<byte>, signature: seq<byte>, hashed: seq<byte>, n: nat, rest: seq<byte>, k: nat)
    requires k <= n && k <= |rest|
    ensures DecodeChunk(signer, prev, signature, hashed, n, rest)
         == DecodeChunk(signer, prev, signature, hashed + rest[..k], n - k, rest[k..]).After(rest[..k])
  {
    hide DecodeVerify;
    var after := rest[k..];
    if |rest| < n + 2 {
      assert rest[..Min(n, |rest|)] == rest[..k] + after[..Min(n - k, |after|)];
    } else {
      assert after[n - k..n - k + 2] == rest[n..n + 2];
      assert rest[..n] == rest[..k] + after[..n - k];
      assert hashed + rest[..n] == hashed + rest[..k] + after[..n - k];
      assert after[n - k + 2..] == rest[n + 2..];
    }
  }

  lemma {:induction false} ChainSnoc(signer: Signer, prev: seq<byte>, ps: seq<Piece>, p: Piece)
    requires Chain(signer, prev, ps) && p.data != [] && Accepts(signer, LastSignature(signer, prev, ps), p)
    ensures Chain(signer, prev, ps + [p]) && Texts(ps + [p]) == Texts(ps) + p.Text() && Data(ps + [p]) == Data(ps) + p.data
    ensures LastSignature(signer, prev, ps + [p]) == signer.sign(LastSignature(signer, prev, ps), p.data)
  {
    ChainLonger(signer, prev, ps, p);
    TextsLonger(ps, p);
  }

  lemma {:induction false} ChainLonger(signer: Signer, prev: seq<byte>, ps: seq<Piece>, p: Piece)
    requires Chain(signer, prev, ps) && p.data != [] && Accepts(signer, LastSignature(signer, prev, ps), p)
    ensures Chain(signer, prev, ps + [p])
    ensures LastSignature(signer, prev, ps + [p]) == signer.sign(LastSignature(signer, prev, ps), p.data)
    decreases |ps|
  {
    hide Accepts;
    if ps == [] {
      assert (ps + [p])[1..] == [];
    } else {
      ChainLonger(signer, signer.sign(prev, ps[0].data), ps[1..], p);
      assert (ps + [p])[1..] == ps[1..] + [p];
    }
  }

  lemma {:induction false} TextsLonger(ps: seq<Piece>, p: Piece)
    ensures Texts(ps + [p]) == Texts(ps) + p.Text() && Data(ps + [p]) == Data(ps) + p.data
  {
    hide Piece.Text;
    if ps == [] {
      assert (ps + [p])[1..] == [];
    } else {
      TextsLonger(ps[1..], p);
      assert (ps + [p])[1..] == ps[1..] + [p];
    }
  }
}
