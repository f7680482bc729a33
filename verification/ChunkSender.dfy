/** pkg/signer StreamingReader: it reads a payload and delivers the chunk-signed stream. */
module ChunkSender {
  import opened Bytes
  import opened Io
  import opened ChunkFraming

  class StreamingReader {
    const src: Source
    const signer: Signer
    const contentLen: nat
    const totalChunks: nat
    const lastChunkSize: nat
    const chunkBuf: array<byte>
    var prevSignature: seq<byte>
    var bytesRead: nat
    var buf: seq<byte>
    var chunkBufLen: nat
    var done: bool
    var chunkNum: nat

    constructor (src: Source, signer: Signer, seedSignature: seq<byte>, dataLen: nat)
      requires src.tail == EOF || src.tail == ReadFailed
      ensures Valid() && fresh(chunkBuf) && this.src == src && this.signer == signer
      ensures Exact() <==> |src.rest| == dataLen && src.tail == EOF
      ensures Pending() == ChunkStream(signer, seedSignature, src.rest) && !done && buf == []
    {
      this.src, this.signer, this.contentLen := src, signer, dataLen;
      totalChunks, lastChunkSize := (dataLen + CHUNK_SIZE - 1) / CHUNK_SIZE + 1, dataLen % CHUNK_SIZE;
      chunkBuf := new byte[CHUNK_SIZE];
      prevSignature, bytesRead, buf, chunkBufLen, done, chunkNum := seedSignature, 0, [], 0, false, 1;
    }

    /** The body has exactly the announced length. */
    predicate Exact()
      reads this, src
    {
      bytesRead + |src.rest| == contentLen && src.tail == EOF
    }

    ghost predicate Valid()
      reads this, src
    {
      && chunkBuf.Length == CHUNK_SIZE
      && (src.tail == EOF || src.tail == ReadFailed)
      && totalChunks == (contentLen + CHUNK_SIZE - 1) / CHUNK_SIZE + 1
      && lastChunkSize == contentLen % CHUNK_SIZE
      && chunkNum > 0
      && (done ==> Exact() && src.rest == [])
      && (Exact() && src.rest != [] ==> bytesRead == (chunkNum - 1) * CHUNK_SIZE)
    }

    /** The bytes that are still to be delivered for an exact body. */
    function Pending(): seq<byte>
      reads this, src
    {
      buf + (if done then [] else ChunkStream(signer, prevSignature, src.rest))
    }

    method SignChunk(chunkLen: nat)
      requires chunkLen <= chunkBuf.Length
      modifies this`prevSignature, this`buf, this`chunkBufLen, this`chunkNum
      ensures buf == old(buf) + Frame(signer, old(prevSignature), chunkBuf[..chunkLen])
      ensures prevSignature == signer.sign(old(prevSignature), chunkBuf[..chunkLen])
      ensures chunkBufLen == 0 && chunkNum == old(chunkNum) + 1
    {
      var data := chunkBuf[..chunkLen];
      var signature := signer.sign(prevSignature, data);
      var header := Hex(chunkLen) + CHUNK_SIGNATURE + signature + CRLF;
      assert buf + header + data + CRLF == buf + Frame(signer, prevSignature, data);
      prevSignature := signature;
      buf := buf + header + data + CRLF;
      chunkBufLen := 0;
      chunkNum := chunkNum + 1;
    }

    /** Whether the chunk in the buffer is complete. */
    predicate ChunkIsComplete()
      reads this
    {
      chunkBufLen == CHUNK_SIZE || (chunkNum == totalChunks - 1 && chunkBufLen == lastChunkSize)
    }

    /** For an exact body of which k bytes of the chunk are read, the chunk is complete when it is full or
        the body is at its end. */
    lemma CompleteExactly(k: nat, left: nat)
      requires totalChunks == (contentLen + CHUNK_SIZE - 1) / CHUNK_SIZE + 1 && lastChunkSize == contentLen % CHUNK_SIZE
      requires chunkBufLen == k && 0 < k <= CHUNK_SIZE
      ensures k == CHUNK_SIZE ==> ChunkIsComplete()
      ensures contentLen == (chunkNum - 1) * CHUNK_SIZE + k + left ==>
                (ChunkIsComplete() <==> k == CHUNK_SIZE || left == 0)
    {
    }

    /** Reads and signs the next chunk, or the empty one at the end of the body. */
    method NextChunk() returns (err: Err)
      requires Valid() && !done
      modifies this, src`rest, chunkBuf
      ensures err == Nil ==> Valid() && Exact() == old(Exact())
      ensures err == Nil ==> |buf| > |old(buf)|
      ensures err == Nil ==> |src.rest| < |old(src.rest)| || (done && src.rest == old(src.rest))
      ensures old(Exact()) ==> err == Nil && Pending() == old(Pending())
      ensures err in {Nil, ReadFailed, ContentLengthMismatch}
    {
      hide ChunkStream, Frame;
      ghost var all := src.rest;
      var end;
      end, err := FillChunk();
      if err != Nil {
        return;
      }
      ghost var k := chunkBufLen;
      if end {
        done := true;
        if bytesRead != contentLen {
          return ContentLengthMismatch;
        }
        SignChunk(0);
      } else {
        SignChunk(chunkBufLen);
      }
      StreamStep(signer, old(prevSignature), all);
      FrameNonempty(signer, old(prevSignature), all[..k]);
    }

    /** One read of the body into the free part of the chunk buffer. */
    method ReadMore(ghost all: seq<byte>) returns (n1: nat, e: Err)
      requires chunkBuf.Length == CHUNK_SIZE && chunkBufLen < CHUNK_SIZE && chunkBufLen <= |all|
      requires src.rest == all[chunkBufLen..] && chunkBuf[..chunkBufLen] == all[..chunkBufLen]
      modifies this`chunkBufLen, this`bytesRead, src`rest, chunkBuf
      ensures chunkBufLen == old(chunkBufLen) + n1 <= CHUNK_SIZE && chunkBufLen <= |all|
      ensures src.rest == all[chunkBufLen..] && chunkBuf[..chunkBufLen] == all[..chunkBufLen]
      ensures bytesRead == old(bytesRead) + n1
      ensures n1 == 0 ==> e == src.tail
      ensures e == Nil || (e == src.tail && src.rest == [])
    {
      ghost var more, had := src.rest, chunkBuf[..chunkBufLen];
      n1, e := src.Read(chunkBuf, chunkBufLen, CHUNK_SIZE);
      assert chunkBuf[..chunkBufLen + n1] == had + more[..n1] == all[..chunkBufLen + n1];
      chunkBufLen := chunkBufLen + n1;
      bytesRead := bytesRead + n1;
    }

    /** Fills the chunk buffer until the chunk is complete; `end` says that the body ended before that. */
    method FillChunk() returns (end: bool, err: Err)
      requires Valid() && !done
      modifies this`chunkBufLen, this`bytesRead, src`rest, chunkBuf
      ensures chunkBufLen <= CHUNK_SIZE && chunkBufLen <= |old(src.rest)| && src.rest == old(src.rest)[chunkBufLen..]
      ensures bytesRead == old(bytesRead) + chunkBufLen
      ensures chunkBuf[..chunkBufLen] == old(src.rest)[..chunkBufLen]
      ensures err in {Nil, ReadFailed} && (src.tail == EOF ==> err == Nil)
      ensures err == Nil && end ==> src.tail == EOF && src.rest == []
      ensures err == Nil && !end ==> chunkBufLen > 0
      ensures err == Nil && old(Exact()) ==>
                if end then chunkBufLen == 0 else chunkBufLen == CHUNK_SIZE || src.rest == []
    {
      hide ChunkStream, Frame, ChunkIsComplete;
      ghost var all, start := src.rest, bytesRead;
      chunkBufLen := 0;
      while true
        invariant chunkBufLen < CHUNK_SIZE && chunkBufLen <= |all| && src.rest == all[chunkBufLen..]
        invariant chunkBuf[..chunkBufLen] == all[..chunkBufLen]
        invariant bytesRead == start + chunkBufLen
        invariant old(Exact()) && src.rest == [] ==> chunkBufLen == 0
        decreases |src.rest|
      {
        var n1, e := ReadMore(all);
        if n1 > 0 {
          CompleteExactly(chunkBufLen, |src.rest|);
          if ChunkIsComplete() {
            return false, Nil;
          }
        }
        if e != Nil {
          if e == EOF {
            return true, Nil;
          }
          return false, e;
        }
      }
    }

    /** bytes.Buffer Read. */
    method ReadBuffer(p: array<byte>) returns (n: nat, err: Err)
      modifies this`buf, p
      ensures n == Min(|old(buf)|, p.Length) && buf == old(buf)[n..] && p[..n] == old(buf)[..n]
      ensures err == if old(buf) == [] && p.Length > 0 then EOF else Nil
    {
      n, err := Min(|buf|, p.Length), Nil;
      if buf == [] && p.Length > 0 {
        err := EOF;
      }
      Put(p, 0, buf[..n]);
      SpliceWindow(p[..], 0, []);
      buf := buf[n..];
    }

    /** One Read. For an exact body the calls deliver the stream piece by piece and then EOF; for any other
        body EOF is never reported. */
    method Read(p: array<byte>) returns (n: nat, err: Err)
      requires Valid() && p != chunkBuf
      modifies this, src`rest, chunkBuf, p
      ensures n <= p.Length && (err in {Nil, EOF} ==> Valid() && Exact() == old(Exact()))
      ensures old(Exact()) ==> err in {Nil, EOF} && old(Pending()) == p[..n] + Pending()
      ensures err == EOF ==> n == 0 && Exact() && Pending() == []
      ensures err == Nil && p.Length > 0 ==> n > 0
      ensures err == Nil && p.Length > 0 ==>
                || |src.rest| < |old(src.rest)|
                || (src.rest == old(src.rest) && (if done == old(done) then |buf| < |old(buf)| else done))
    {
      hide ChunkStream;
      if !done && |buf| < p.Length {
        err := NextChunk();
        if err != Nil {
          return 0, err;
        }
      }
      n, err := ReadBuffer(p);
    }
  }

  lemma StreamStep(signer: Signer, prev: seq<byte>, payload: seq<byte>)
    ensures var k := Min(CHUNK_SIZE, |payload|);
            ChunkStream(signer, prev, payload)
            == Frame(signer, prev, payload[..k])
             + (if k == 0 then [] else ChunkStream(signer, signer.sign(prev, payload[..k]), payload[k..]))
  {
  }

  lemma FrameNonempty(signer: Signer, prev: seq<byte>, data: seq<byte>)
    ensures |Frame(signer, prev, data)| > 0
  {
  }

  /** Drains a StreamingReader with buffers of any sizes. */
  method SendStream(signer: Signer, seedSignature: seq<byte>, dataLen: nat, src: Source) returns (out: seq<byte>, err: Err)
    requires src.tail == EOF || src.tail == ReadFailed
    modifies src`rest
    ensures err == EOF <==> |old(src.rest)| == dataLen && src.tail == EOF
    ensures err == EOF ==> out == ChunkStream(signer, seedSignature, old(src.rest))
  {
    hide ChunkStream, StreamingReader.Pending, StreamingReader.Valid;
    var r := new StreamingReader(src, signer, seedSignature, dataLen);
    ghost var exact, all := r.Exact(), r.Pending();
    out, err := [], Nil;
    while err == Nil
      invariant err in {Nil, EOF} ==> r.Valid() && r.Exact() == exact && fresh(r) && fresh(r.chunkBuf)
      invariant r.src == src
      invariant exact ==> err in {Nil, EOF} && all == out + r.Pending()
      invariant err == EOF ==> exact && r.Pending() == []
      decreases err == Nil, |src.rest|, !r.done, |r.buf|
    {
      var size: nat :| size > 0;
      var p := new byte[size];
      var n;
      n, err := r.Read(p);
      out := out + p[..n];
    }
  }
}
