/** Sender and receiver together. */
module ChunkTransfer {
  import opened Bytes
  import opened Io
  import opened ChunkFraming
  import opened ChunkParsing
  import opened ChunkRoundTrip
  import opened ChunkSender
  import opened ChunkReceiver

  /** Drains a ChunkedReader with buffers of any sizes. EOF means that the input is a signed stream of what
      was delivered; any other error is the one the input calls for, after a part of its data. */
  method ReceiveStream(signer: Signer, seedSignature: seq<byte>, src: Source) returns (out: seq<byte>, err: Err)
    requires src.tail == EOF || src.tail == ReadFailed
    modifies src`rest
    ensures err == EOF <==> SignedStream(signer, seedSignature, old(src.rest), Decode(signer, seedSignature, old(src.rest)).plain)
    ensures err == EOF ==> SignedStream(signer, seedSignature, old(src.rest), out)
    ensures err != EOF ==> out <= Decode(signer, seedSignature, old(src.rest)).plain
    ensures Reports(Decode(signer, seedSignature, old(src.rest)).err, src.tail, err)
  {
    hide Decode, SignedStream;
    var r := new ChunkedReader(src, signer, seedSignature);
    ghost var all := r.Pending();
    EndExactly(signer, seedSignature, src.rest, all.plain);
    out, err := Receive(r);
  }

  method Receive(r: ChunkedReader) returns (out: seq<byte>, err: Err)
    requires r.Valid() && r.Logged()
    modifies r, r.src`rest
    ensures err == EOF ==> old(r.Pending()) == Decoded(out, End)
    ensures err != EOF ==> out <= old(r.Pending()).plain && !old(r.Pending()).err.End?
    ensures Reports(old(r.Pending()).err, r.src.tail, err)
  {
    hide Decode, DecodeChunk, DecodeVerify, ChunkedReader.Valid, ChunkedReader.Logged, ChunkedReader.Pending, ChunkedReader.Delivered;
    ghost var all := r.Pending();
    out, err := [], Nil;
    while err == Nil
      invariant err == Nil ==> r.Valid() && r.Logged() && all == r.Pending().After(out)
      invariant err == EOF ==> all == Decoded(out, End)
      invariant err !in {Nil, EOF} ==> out <= all.plain && Reports(all.err, r.src.tail, err)
      decreases err == Nil, |r.Pending().plain|
    {
      var size: nat :| size > 0;
      var p := new byte[size];
      var k;
      k, err := r.Read(p);
      if err == Nil || err == EOF {
        AfterAfter(r.Pending(), out, p[..k]);
      }
      out := out + p[..k];
    }
  }

  /** The payload arrives whole, then EOF, whatever the buffer sizes and the pieces in which the body and the
      connection are read. */
  method Transfer(signer: Signer, seedSignature: seq<byte>, payload: seq<byte>) returns (received: seq<byte>, err: Err)
    requires signer.Lawful()
    ensures received == payload && err == EOF
  {
    hide Decode, SignedStream, ChunkStream;
    var body := new Source(payload, EOF);
    var stream, _ := SendStream(signer, seedSignature, |payload|, body);
    StreamDecodes(signer, seedSignature, payload, []);
    assert stream + [] == stream;
    EndExactly(signer, seedSignature, stream, payload);
    var src := new Source(stream, EOF);
    received, err := ReceiveStream(signer, seedSignature, src);
    EndExactly(signer, seedSignature, stream, received);
  }
}
