/** How a chunk-signed stream ends for the receiver, for every input: each outcome, what it means for the bytes of
    the input, and how much is delivered before it. */
module ChunkOutcomes {
  import opened Basics
  import opened Bytes
  import opened ChunkFraming
  import opened ChunkParsing

  // ----- what the parsers find

  /** A digit of either case has its value, and no other byte has one. */
  lemma DigitValues(d: nat, b: byte)
    ensures d < 10 ==> DigitValue('0' as int + d) == d
    ensures d < 6 ==> DigitValue('a' as int + d) == 10 + d && DigitValue('A' as int + d) == 10 + d
    ensures DigitValue(b) >= 0 <==> '0' as int <= b <= '9' as int || 'a' as int <= b <= 'f' as int || 'A' as int <= b <= 'F' as int
  {
  }

  /** Every string of digits of either case is a number in positional notation. */
  lemma {:induction false} DigitsValue(v: seq<byte>, w: seq<byte>)
    requires AllHex(v) && AllHex(w)
    ensures AllHex(v + w) && HexValue(v + w) == HexValue(v) * Pow16(|w|) + HexValue(w)
    decreases |w|
  {
    hide DigitValue;
    if w == [] {
      assert v + w == v;
    } else {
      var w', d := w[..|w| - 1], DigitValue(w[|w| - 1]);
      DigitsValue(v, w');
      assert (v + w)[..|v + w| - 1] == v + w';
      OneDigitMore(HexValue(v), Pow16(|w'|), HexValue(w'), d);
    }
  }

  lemma OneDigitMore(x: nat, p: nat, y: nat, d: nat)
    ensures 16 * (x * p + y) + d == x * (16 * p) + (16 * y + d)
  {
  }

  /** When a length is refused, and for which reason. */
  lemma LengthRefused(v: seq<byte>)
    ensures ParseLength(v) == TooLarge <==> |v| > 16 && AllHex(v[..17])
    ensures ParseLength(v) == InvalidByte <==> exists i :: 0 <= i < |v| && i <= 16 && DigitValue(v[i]) < 0
    ensures ParseLength(v).Length? ==> AllHex(v) && ParseLength(v).value == HexValue(v)
  {
    hide DigitValue;
    if |v| > 16 {
      var w := v[..17];
      assert AllHex(w) <==> forall i :: 0 <= i < |v| && i <= 16 ==> DigitValue(v[i]) >= 0 by {
        assert forall i :: 0 <= i <= 16 ==> w[i] == v[i];
      }
    }
  }

  /** The first line feed. */
  lemma {:induction false} FirstLF(b: seq<byte>)
    ensures FindLF(b) >= 0 ==> b[FindLF(b)] == 10 && 10 !in b[..FindLF(b)]
    ensures FindLF(b) < 0 ==> 10 !in b
  {
    if b != [] && b[0] != LF {
      FirstLF(b[1..]);
      assert b == [b[0]] + b[1..];
      if FindLF(b[1..]) >= 0 {
        assert b[..FindLF(b)] == [b[0]] + b[1..][..FindLF(b[1..])];
      }
    }
  }

  predicate MarkAt(b: seq<byte>, i: nat) {
    i + 17 <= |b| && b[i..i + 17] == CHUNK_SIGNATURE
  }

  /** The first signature mark. */
  lemma {:induction false} FirstMark(b: seq<byte>)
    ensures FindMark(b) >= 0 ==> MarkAt(b, FindMark(b))
    ensures forall i: nat :: FindMark(b) < 0 || i < FindMark(b) ==> !MarkAt(b, i)
  {
    if |b| >= 17 && b[..17] != CHUNK_SIGNATURE {
      FirstMark(b[1..]);
      forall i: nat | i > 0
        ensures MarkAt(b, i) <==> MarkAt(b[1..], i - 1)
      {
        if i + 17 <= |b| {
          assert b[i..i + 17] == b[1..][i - 1..i - 1 + 17];
        }
      }
      assert !MarkAt(b, 0);
    }
  }

  /** 32, 9, 10 and 13 are the whitespace of a line. */
  predicate Whitespace(b: seq<byte>) {
    forall i :: 0 <= i < |b| ==> b[i] in {32, 9, 10, 13}
  }

  lemma {:induction false} TrimmedExactly(b: seq<byte>, spaces: seq<byte>)
    requires (b == [] || b[|b| - 1] !in {32, 9, 10, 13}) && Whitespace(spaces)
    ensures Trim(b + spaces) == b
    decreases |spaces|
  {
    if spaces == [] {
      assert b + spaces == b;
    } else {
      TrimmedExactly(b, spaces[..|spaces| - 1]);
      assert (b + spaces)[..|b + spaces| - 1] == b + spaces[..|spaces| - 1];
    }
  }

  lemma MarkFound(b: seq<byte>, k: nat)
    requires MarkAt(b, k) && forall i: nat :: i < k ==> !MarkAt(b, i)
    ensures FindMark(b) == k
  {
    hide FindMark;
    FirstMark(b);
  }

  lemma NoMark(b: seq<byte>)
    requires forall i: nat :: !MarkAt(b, i)
    ensures FindMark(b) < 0
  {
    hide FindMark;
    FirstMark(b);
  }

  /** A line with a mark: the length is what stands before the first mark, the signature what stands behind it up to
      the whitespace at the end. */
  lemma MarkedLine(digits: seq<byte>, signature: seq<byte>, spaces: seq<byte>)
    requires var b := digits + CHUNK_SIGNATURE + signature;
             b[|b| - 1] !in {32, 9, 10, 13} && forall i: nat :: i < |digits| ==> !MarkAt(b, i)
    requires Whitespace(spaces)
    ensures ParseLine(digits + CHUNK_SIGNATURE + signature + spaces) == Header(ParseLength(digits), signature)
  {
    hide ParseLength, Trim, FindMark;
    var b := digits + CHUNK_SIGNATURE + signature;
    TrimmedExactly(b, spaces);
    assert b[|digits|..|digits| + 17] == CHUNK_SIGNATURE;
    MarkFound(b, |digits|);
    assert b[..|digits|] == digits && b[|digits| + 17..] == signature;
  }

  /** A line without a mark is a length without a signature. */
  lemma UnmarkedLine(b: seq<byte>, spaces: seq<byte>)
    requires (b == [] || b[|b| - 1] !in {32, 9, 10, 13}) && (forall i: nat :: !MarkAt(b, i)) && Whitespace(spaces)
    ensures ParseLine(b + spaces) == Header(ParseLength(b), [])
  {
    hide ParseLength, Trim, FindMark;
    TrimmedExactly(b, spaces);
    NoMark(b);
  }

  // ----- outcomes

  /** One line, not too long, that announces n bytes and a signature. */
  predicate Heads(line: seq<byte>, n: nat, signature: seq<byte>) {
    && 0 < |line| < MAX_LINE_LENGTH
    && FindLF(line) == |line| - 1
    && ParseLine(line) == Header(Length(n), signature)
  }

  /** What is behind the last verified chunk, and what becomes of it. */
  ghost predicate EndsAs(signer: Signer, last: seq<byte>, rest: seq<byte>, end: Decoded<Outcome>) {
    match end.err
    case End =>
      end.plain == [] && exists line, more :: Heads(line, 0, signer.sign(last, [])) && rest == line + (CRLF + more)
    case Mismatch =>
      exists line, signature, more ::
        && Heads(line, |end.plain|, signature) && signature != signer.sign(last, end.plain)
        && rest == line + (end.plain + CRLF + more)
    case BadLength(size) =>
      && end.plain == [] && !size.Length?
      && exists line, more ::
           && 0 < |line| < MAX_LINE_LENGTH && FindLF(line) == |line| - 1 && ParseLine(line).size == size
           && rest == line + more
    case CutLine => end.plain == [] && 10 !in rest && |rest| < 4096
    case FullLine => end.plain == [] && 10 !in rest && |rest| == 4096
    case LongLine => end.plain == [] && |rest| >= 4096 && 10 !in rest[..4095] && (|rest| == 4096 ==> rest[4095] == 10)
    case CutData =>
      exists line, n: nat, signature :: Heads(line, n, signature) && rest == line + end.plain && |end.plain| < n
    case NoTrailer =>
      exists line, signature :: Heads(line, |end.plain|, signature) && rest == line + end.plain
    case BadTrailer =>
      exists line, signature, more ::
        Heads(line, |end.plain|, signature) && rest == line + (end.plain + more) && more != [] && !(CRLF <= more)
  }

  /** Decoding from a header line on. */
  lemma DecodeLine(signer: Signer, prev: seq<byte>, line: seq<byte>, more: seq<byte>)
    requires 0 < |line| < MAX_LINE_LENGTH && FindLF(line) == |line| - 1
    ensures Decode(signer, prev, line + more)
         == if !ParseLine(line).size.Length? then Decoded([], BadLength(ParseLine(line).size))
            else DecodeChunk(signer, prev, ParseLine(line).signature, [], ParseLine(line).size.value, more)
  {
    hide ParseLine, FindLF, DecodeChunk;
    FindLFAppend(line, more);
    assert (line + more)[..|line|] == line && (line + more)[|line|..] == more;
  }

  lemma DecodeHeaded(signer: Signer, prev: seq<byte>, line: seq<byte>, n: nat, signature: seq<byte>, more: seq<byte>)
    requires Heads(line, n, signature)
    ensures Decode(signer, prev, line + more)
         == if |more| <= n then Decoded(more, if |more| < n then CutData else NoTrailer)
            else if |more| < n + 2 || more[n..n + 2] != CRLF then Decoded(more[..n], BadTrailer)
            else DecodeVerify(signer, prev, signature, more[..n], more[n + 2..]).After(more[..n])
  {
    hide ParseLine, FindLF, Decode, DecodeVerify;
    DecodeLine(signer, prev, line, more);
    if |more| >= n + 2 {
      assert [] + more[..n] == more[..n];
    }
  }

  lemma EndSigned(signer: Signer, last: seq<byte>, line: seq<byte>, more: seq<byte>)
    requires Heads(line, 0, signer.sign(last, []))
    ensures Decode(signer, last, line + (CRLF + more)) == Decoded([], End)
  {
    hide Decode, Heads;
    DecodeHeaded(signer, last, line, 0, signer.sign(last, []), CRLF + more);
  }

  /** A chunk that does not carry its signature is delivered, but not accepted. */
  lemma ForgedChunk(signer: Signer, last: seq<byte>, line: seq<byte>, data: seq<byte>, signature: seq<byte>, more: seq<byte>)
    requires Heads(line, |data|, signature) && signature != signer.sign(last, data)
    ensures Decode(signer, last, line + (data + CRLF + more)) == Decoded(data, Mismatch)
  {
    hide Decode, Heads;
    var behind := data + CRLF + more;
    DecodeHeaded(signer, last, line, |data|, signature, behind);
    assert behind[|data|..|data| + 2] == CRLF && behind[..|data|] == data && behind[|data| + 2..] == more;
    assert data + [] == data;
  }

  lemma NoLine(signer: Signer, last: seq<byte>, rest: seq<byte>)
    requires FindLF(rest) < 0 || FindLF(rest) >= MAX_LINE_LENGTH - 1
    ensures Decode(signer, last, rest) == Decoded([], LineFault(rest))
  {
  }

  /** What is wrong with the line, in terms of its bytes. */
  lemma LineFaults(rest: seq<byte>)
    ensures FindLF(rest) < 0 || FindLF(rest) >= MAX_LINE_LENGTH - 1 <==>
              (10 !in rest && |rest| <= 4096) || (|rest| >= 4096 && 10 !in rest[..4095])
    ensures var noLine := FindLF(rest) < 0 || FindLF(rest) >= MAX_LINE_LENGTH - 1;
            && (noLine && LineFault(rest) == CutLine <==> 10 !in rest && |rest| < 4096)
            && (noLine && LineFault(rest) == FullLine <==> 10 !in rest && |rest| == 4096)
            && (noLine && LineFault(rest) == LongLine <==>
                  |rest| >= 4096 && 10 !in rest[..4095] && (|rest| == 4096 ==> rest[4095] == 10))
  {
    hide FindLF;
    FirstLF(rest);
    var k := FindLF(rest);
    if k >= 0 {
      assert 10 in rest;
      if |rest| >= 4096 {
        assert k < 4095 ==> rest[..4095][k] == 10;
        assert k >= 4095 ==> forall i :: 0 <= i < 4095 ==> rest[..4095][i] == rest[..k][i];
      }
    } else if |rest| >= 4096 {
      assert forall i :: 0 <= i < 4095 ==> rest[..4095][i] == rest[i];
    }
  }

  lemma DataCut(signer: Signer, last: seq<byte>, line: seq<byte>, n: nat, signature: seq<byte>, data: seq<byte>)
    requires Heads(line, n, signature) && |data| <= n
    ensures Decode(signer, last, line + data) == Decoded(data, if |data| < n then CutData else NoTrailer)
  {
    hide Decode, Heads;
    DecodeHeaded(signer, last, line, n, signature, data);
  }

  lemma TrailerBad(signer: Signer, last: seq<byte>, line: seq<byte>, signature: seq<byte>, data: seq<byte>, more: seq<byte>)
    requires Heads(line, |data|, signature) && more != [] && !(CRLF <= more)
    ensures Decode(signer, last, line + (data + more)) == Decoded(data, BadTrailer)
  {
    hide Decode, Heads;
    DecodeHeaded(signer, last, line, |data|, signature, data + more);
    assert (data + more)[..|data|] == data;
    if |more| >= 2 {
      assert (data + more)[|data|..|data| + 2] == more[..2];
    }
  }

  lemma EndsDecode(signer: Signer, last: seq<byte>, rest: seq<byte>, end: Decoded<Outcome>)
    requires EndsAs(signer, last, rest, end)
    ensures Decode(signer, last, rest) == end
  {
    hide Decode, Heads, FindLF, ParseLine, DecodeChunk;
    match end.err
    case End =>
      var line, more :| Heads(line, 0, signer.sign(last, [])) && rest == line + (CRLF + more);
      EndSigned(signer, last, line, more);
    case Mismatch =>
      var line, signature, more :| Heads(line, |end.plain|, signature) && signature != signer.sign(last, end.plain)
                                   && rest == line + (end.plain + CRLF + more);
      ForgedChunk(signer, last, line, end.plain, signature, more);
    case BadLength(size) =>
      var line, more :| 0 < |line| < MAX_LINE_LENGTH && FindLF(line) == |line| - 1 && ParseLine(line).size == size
                        && rest == line + more;
      DecodeLine(signer, last, line, more);
    case CutLine =>
      LineFaults(rest);
      NoLine(signer, last, rest);
    case FullLine =>
      LineFaults(rest);
      NoLine(signer, last, rest);
    case LongLine =>
      LineFaults(rest);
      NoLine(signer, last, rest);
    case CutData =>
      var line, n: nat, signature :| Heads(line, n, signature) && rest == line + end.plain && |end.plain| < n;
      DataCut(signer, last, line, n, signature, end.plain);
    case NoTrailer =>
      var line, signature :| Heads(line, |end.plain|, signature) && rest == line + end.plain;
      DataCut(signer, last, line, |end.plain|, signature, end.plain);
    case BadTrailer =>
      var line, signature, more :| Heads(line, |end.plain|, signature) && rest == line + (end.plain + more) && more != [] && !(CRLF <= more);
      TrailerBad(signer, last, line, signature, end.plain, more);
  }

  /** The first line of the input, and whether what it heads is an accepted nonempty chunk. */
  lemma FirstEnd(signer: Signer, prev: seq<byte>, input: seq<byte>) returns (p: Piece, more: seq<byte>, end: Decoded<Outcome>)
    ensures || EndsAs(signer, prev, input, end)
            || (Accepts(signer, prev, p) && p.data != [] && input == p.Text() + more)
  {
    hide ParseLine, Decode, DecodeChunk, DecodeVerify;
    p, more, end := Piece([], []), [], Decoded([], LineFault(input));
    LineFaults(input);
    var k := FindLF(input);
    if 0 <= k < MAX_LINE_LENGTH - 1 {
      FindLFPrefix(input);
      var line, behind := input[..k + 1], input[k + 1..];
      assert input == line + behind;
      var h := ParseLine(line);
      if !h.size.Length? {
        end := Decoded([], BadLength(h.size));
      } else {
        p, more, end := FirstHeaded(signer, prev, line, h.size.value, h.signature, behind);
      }
    }
  }

  lemma TrailerThere(s: seq<byte>, n: nat)
    requires n <= |s|
    ensures CRLF <= s[n..] <==> |s| >= n + 2 && s[n..n + 2] == CRLF
  {
    if |s| >= n + 2 {
      assert s[n..n + 2] == s[n..][..2];
    }
  }

  /** A headed chunk that is not whole. */
  lemma HeadedCut(signer: Signer, prev: seq<byte>, line: seq<byte>, n: nat, signature: seq<byte>, behind: seq<byte>)
    returns (end: Decoded<Outcome>)
    requires Heads(line, n, signature) && (|behind| < n + 2 || behind[n..n + 2] != CRLF)
    ensures EndsAs(signer, prev, line + behind, end)
  {
    hide Heads;
    if |behind| <= n {
      end := Decoded(behind, if |behind| < n then CutData else NoTrailer);
    } else {
      end := Decoded(behind[..n], BadTrailer);
      assert behind == behind[..n] + behind[n..];
      TrailerThere(behind, n);
    }
  }

  lemma FirstHeaded(signer: Signer, prev: seq<byte>, line: seq<byte>, n: nat, signature: seq<byte>, behind: seq<byte>)
    returns (p: Piece, more: seq<byte>, end: Decoded<Outcome>)
    requires Heads(line, n, signature)
    ensures || EndsAs(signer, prev, line + behind, end)
            || (Accepts(signer, prev, p) && p.data != [] && line + behind == p.Text() + more)
  {
    hide ParseLine, FindLF;
    p, more, end := Piece(line, []), [], Decoded([], End);
    if |behind| < n + 2 || behind[n..n + 2] != CRLF {
      end := HeadedCut(signer, prev, line, n, signature, behind);
    } else {
      p, more := Piece(line, behind[..n]), behind[n + 2..];
      assert behind == p.data + CRLF + more;
      if signature != signer.sign(prev, p.data) {
        end := Decoded(p.data, Mismatch);
      } else if n == 0 {
        assert p.data == [] && behind == CRLF + more;
      } else {
        assert line + behind == p.Text() + more;
      }
    }
  }

  /** Any input is a chain of verified chunks and an ending. */
  lemma {:induction false} Ending(signer: Signer, prev: seq<byte>, input: seq<byte>)
    returns (ps: seq<Piece>, rest: seq<byte>, end: Decoded<Outcome>)
    ensures Chain(signer, prev, ps) && input == Texts(ps) + rest
    ensures EndsAs(signer, LastSignature(signer, prev, ps), rest, end)
    decreases |input|
  {
    hide EndsAs, Accepts, Decode;
    var p, more;
    p, more, end := FirstEnd(signer, prev, input);
    if EndsAs(signer, prev, input, end) {
      ps, rest := [], input;
      assert Texts([]) + input == input;
    } else {
      var next := signer.sign(prev, p.data);
      ps, rest, end := Ending(signer, next, more);
      assert ([p] + ps)[1..] == ps;
      assert input == p.Text() + (Texts(ps) + rest);
      ps := [p] + ps;
    }
  }

  /** The receiver delivers the data of the verified chunks and what the ending adds to it, and the outcome is the
      ending's; nothing else, for every input. */
  lemma DecodeExactly(signer: Signer, prev: seq<byte>, input: seq<byte>, all: Decoded<Outcome>)
    ensures Decode(signer, prev, input) == all
       <==> exists ps, rest, end ::
              && Chain(signer, prev, ps) && input == Texts(ps) + rest
              && EndsAs(signer, LastSignature(signer, prev, ps), rest, end) && all == end.After(Data(ps))
  {
    hide EndsAs, Chain, Decode;
    var ps0, rest0, end0 := Ending(signer, prev, input);
    EndingDecodes(signer, prev, ps0, rest0, end0);
    forall ps, rest, end | Chain(signer, prev, ps) && input == Texts(ps) + rest
                        && EndsAs(signer, LastSignature(signer, prev, ps), rest, end) && all == end.After(Data(ps))
      ensures Decode(signer, prev, input) == all
    {
      EndingDecodes(signer, prev, ps, rest, end);
    }
  }

  lemma EndingDecodes(signer: Signer, prev: seq<byte>, ps: seq<Piece>, rest: seq<byte>, end: Decoded<Outcome>)
    requires Chain(signer, prev, ps) && EndsAs(signer, LastSignature(signer, prev, ps), rest, end)
    ensures Decode(signer, prev, Texts(ps) + rest) == end.After(Data(ps))
  {
    hide EndsAs, Chain, Decode;
    DecodeChain(signer, prev, ps, rest);
    EndsDecode(signer, LastSignature(signer, prev, ps), rest, end);
  }
}
