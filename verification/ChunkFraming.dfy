/** The aws-chunked framing: a payload is cut into chunks, each signed over its data and the signature of the
    chunk before it. What the sender writes, what the receiver accepts, and why the two agree. */
module ChunkFraming {
  import opened Basics
  import opened Bytes

  const CHUNK_SIZE: nat := 64 * 1024
  const CHUNK_SIGNATURE: seq<byte> := Ascii(";chunk-signature=")
  const SIGNATURE_LENGTH: nat := 64
  const MAX_LINE_LENGTH: nat := 4096
  const LF: byte := 10
  const CR: byte := 13
  const CRLF: seq<byte> := [CR, LF]

  function Ascii(s: string): (r: seq<byte>)
    requires forall i :: 0 <= i < |s| ==> s[i] as int < 128
    ensures |r| == |s|
  {
    seq(|s|, i requires 0 <= i < |s| => s[i] as int)
  }

  // ------------------------------------------------------------ hexadecimal numbers

  function HexDigit(d: int): byte
    requires 0 <= d < 16
  {
    if d < 10 then '0' as int + d else 'a' as int + d - 10
  }

  /** The value of a digit of either case, or -1. */
  function DigitValue(b: byte): (d: int)
    ensures -1 <= d < 16
  {
    if '0' as int <= b <= '9' as int then b - '0' as int
    else if 'a' as int <= b <= 'f' as int then b - 'a' as int + 10
    else if 'A' as int <= b <= 'F' as int then b - 'A' as int + 10
    else -1
  }

  predicate AllHex(v: seq<byte>) {
    forall i :: 0 <= i < |v| ==> DigitValue(v[i]) >= 0
  }

  /** A number in lower-case hexadecimal without leading zeros. */
  function Hex(n: nat): seq<byte> {
    if n < 16 then [HexDigit(n)] else Hex(n / 16) + [HexDigit(n % 16)]
  }

  function HexValue(v: seq<byte>): nat
    requires AllHex(v)
  {
    if v == [] then 0 else 16 * HexValue(v[..|v| - 1]) + DigitValue(v[|v| - 1])
  }

  function Pow16(k: nat): nat {
    if k == 0 then 1 else 16 * Pow16(k - 1)
  }

  lemma {:induction false} HexValueBound(v: seq<byte>)
    requires AllHex(v)
    ensures HexValue(v) < Pow16(|v|)
  {
    if v != [] {
      HexValueBound(v[..|v| - 1]);
    }
  }

  lemma Pow16Is64Bits()
    ensures Pow16(16) == TWO64
  {
    assert Pow16(4) == 0x10000;
    assert Pow16(8) == 0x1_0000_0000;
    assert Pow16(12) == 0x1_0000_0000_0000;
  }

  lemma {:induction false} HexRoundTrip(n: nat)
    ensures AllHex(Hex(n)) && HexValue(Hex(n)) == n && |Hex(n)| > 0
  {
    if n >= 16 {
      HexRoundTrip(n / 16);
      assert Hex(n)[..|Hex(n)| - 1] == Hex(n / 16);
    } else {
      assert Hex(n)[..0] == [];
    }
  }

  /** The digits are lower-case, and the first one is 0 for the number 0 only. */
  lemma {:induction false} HexDigits(n: nat)
    ensures |Hex(n)| > 0 && (Hex(n)[0] == '0' as int <==> n == 0)
    ensures forall i :: 0 <= i < |Hex(n)| ==> '0' as int <= Hex(n)[i] <= '9' as int || 'a' as int <= Hex(n)[i] <= 'f' as int
  {
    if n >= 16 {
      HexDigits(n / 16);
    }
  }

  lemma {:induction false} HexLength(n: nat, k: nat)
    requires n < Pow16(k) && k > 0
    ensures |Hex(n)| <= k
  {
    if n >= 16 {
      HexLength(n / 16, k - 1);
    }
  }

  /** What parseHexUint accepts: at most 16 digits of either case. */
  datatype Length = Length(value: nat) | InvalidByte | TooLarge

  function ParseLength(v: seq<byte>): (r: Length)
    ensures r.Length? ==> r.value < TWO64
  {
    if AllHex(v) && |v| <= 16 then
      HexValueBound(v);
      Pow16Is64Bits();
      Pow16Monotone(|v|, 16);
      Length(HexValue(v))
    else if |v| > 16 && AllHex(v[..17]) then TooLarge
    else InvalidByte
  }

  lemma {:induction false} Pow16Monotone(j: nat, k: nat)
    requires j <= k
    ensures Pow16(j) <= Pow16(k)
  {
    if j < k {
      Pow16Monotone(j, k - 1);
    }
  }

  // ------------------------------------------------------------ signatures and frames

  predicate LowerHex(s: seq<byte>) {
    forall i :: 0 <= i < |s| ==> exists d :: 0 <= d < 16 && s[i] == HexDigit(d)
  }

  /** The signature of a chunk, given the signature before it: a keyed hash in lower-case hexadecimal, with
      key, date, region and scope fixed. */
  datatype Signer = Signer(sign: (seq<byte>, seq<byte>) -> seq<byte>) {
    ghost predicate Lawful() {
      forall prev, data :: |sign(prev, data)| == SIGNATURE_LENGTH && LowerHex(sign(prev, data))
    }
  }

  /** buildChunkHeader followed by the data, as signChunk writes them. */
  function Frame(signer: Signer, prev: seq<byte>, data: seq<byte>): seq<byte> {
    Hex(|data|) + CHUNK_SIGNATURE + signer.sign(prev, data) + CRLF + data + CRLF
  }

  /** All that is sent for a payload: full chunks, a shorter last one, and the empty one. */
  function ChunkStream(signer: Signer, prev: seq<byte>, payload: seq<byte>): seq<byte>
    decreases |payload|
  {
    var k := Min(CHUNK_SIZE, |payload|);
    if k == 0 then Frame(signer, prev, [])
    else Frame(signer, prev, payload[..k]) + ChunkStream(signer, signer.sign(prev, payload[..k]), payload[k..])
  }

  function SignedChunkLength(dataSize: nat): nat {
    |Hex(dataSize)| + 17 + SIGNATURE_LENGTH + 2 + dataSize + 2
  }

  /** The announced content length. */
  function StreamLength(dataLen: int, chunkSize: nat): int
    requires chunkSize > 0
  {
    if dataLen <= 0 then 0
    else
      var chunksCount, remainingBytes := dataLen / chunkSize, dataLen % chunkSize;
      chunksCount * SignedChunkLength(chunkSize)
      + (if remainingBytes > 0 then SignedChunkLength(remainingBytes) else 0)
      + SignedChunkLength(0)
  }

  lemma TerminatorLength()
    ensures SignedChunkLength(0) == 86 && StreamLength(0, CHUNK_SIZE) == 0
  {
  }

  lemma LastChunkLength(n: nat)
    requires 0 < n < CHUNK_SIZE
    ensures StreamLength(n, CHUNK_SIZE) == SignedChunkLength(n) + SignedChunkLength(0)
  {
    hide SignedChunkLength;
  }

  lemma FrameLength(signer: Signer, prev: seq<byte>, data: seq<byte>)
    requires signer.Lawful()
    ensures |Frame(signer, prev, data)| == SignedChunkLength(|data|)
  {
  }

  /** One full chunk more. */
  lemma StreamLengthStep(n: nat)
    requires n >= CHUNK_SIZE
    ensures StreamLength(n, CHUNK_SIZE)
         == SignedChunkLength(CHUNK_SIZE)
          + (if n == CHUNK_SIZE then SignedChunkLength(0) else StreamLength(n - CHUNK_SIZE, CHUNK_SIZE))
  {
    hide SignedChunkLength;
    var c, full := n / CHUNK_SIZE, SignedChunkLength(CHUNK_SIZE);
    assert (n - CHUNK_SIZE) / CHUNK_SIZE == c - 1;
    assert c * full == full + (c - 1) * full;
  }

  /** The announced length is the number of bytes sent, except that for an empty payload nothing is announced
      although 86 bytes are sent. */
  lemma {:induction false} StreamLengthExact(signer: Signer, prev: seq<byte>, payload: seq<byte>)
    requires signer.Lawful()
    ensures |ChunkStream(signer, prev, payload)|
         == StreamLength(|payload|, CHUNK_SIZE) + (if payload == [] then 86 else 0)
    decreases |payload|
  {
    hide SignedChunkLength, Frame, StreamLength;
    TerminatorLength();
    var k := Min(CHUNK_SIZE, |payload|);
    FrameLength(signer, prev, payload[..k]);
    if k > 0 {
      StreamLengthExact(signer, signer.sign(prev, payload[..k]), payload[k..]);
      if k == CHUNK_SIZE {
        StreamLengthStep(|payload|);
      } else {
        LastChunkLength(k);
      }
    }
  }
}
