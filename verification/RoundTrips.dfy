/** The four stream machines of each version together. */
module RoundTrips {
  import opened Bytes
  import opened Io
  import opened Dare
  import opened EncryptingWriter
  import opened EncryptingReader
  import opened DecryptingReader
  import opened DecryptingWriter
  import opened DareV10
  import opened WritersV10
  import opened ReadersV10

  /** Any sequence of chunks that concatenates to s. */
  method AnyChunks(s: seq<byte>) returns (chunks: seq<seq<byte>>)
    ensures Flatten(chunks) == s
  {
    assert Flatten([s]) == s + [];
    chunks :| Flatten(chunks) == s;
  }

  /** DARE 2.0: however a nonempty plaintext is written or read, the ciphertext is the same, and however the
      ciphertext is written or read, the plaintext comes back, unless a sink fails. */
  method RoundTrip20(d: DecConfig, c: EncConfig, seqNum: u32, plain: seq<byte>, dst: Sink, back: Sink)
    returns (sealed: seq<byte>, read: seq<byte>)
    requires c.Valid() && d.aead == c.aead && c.suite in d.suites && plain != []
    requires dst != back && dst.data == back.data == [] && !dst.failed && !back.failed
    modifies dst, back
    ensures read == plain
    ensures !dst.failed ==> dst.data == sealed
    ensures !back.failed ==> back.data == plain
  {
    hide Stream, Decode, EncConfig10.Valid, Flatten, Aead.Lawful, Min;
    var src := new Source(plain, EOF);
    var end;
    sealed, end := EncryptDrain(c, seqNum, src);
    DecodeStream(d, c, Start(seqNum), seqNum, plain);
    var chunks := AnyChunks(plain);
    var err := EncryptChunks(c, seqNum, dst, chunks);
    assert err == Nil ==> [] + Stream(c, seqNum, plain, EOF) == dst.data == sealed;
    var cipher := new Source(sealed, EOF);
    read, err := DecryptDrain(d, seqNum, cipher);
    var pieces := AnyChunks(sealed);
    err := DecryptChunks(d, seqNum, back, pieces);
    assert [] + plain == plain;
  }

  /** DARE 1.0: the same for every payload size, and for the empty plaintext too. */
  method RoundTrip10(d: DecConfig, c: EncConfig10, seqNum: u32, plain: seq<byte>, dst: Sink, back: Sink)
    returns (sealed: seq<byte>, read: seq<byte>)
    requires c.Valid() && d.aead == c.aead && c.suite in d.suites
    requires dst != back && dst.data == back.data == [] && !dst.failed && !back.failed
    modifies dst, back
    ensures read == plain
    ensures !dst.failed ==> dst.data == sealed
    ensures !back.failed ==> back.data == plain
  {
    hide Stream10, Decode10, Flatten, Aead.Lawful;
    var src := new Source(plain, EOF);
    var end;
    sealed, end := EncryptDrain10(c, seqNum, src);
    DecodeStream10(d, c, seqNum, plain);
    var chunks := AnyChunks(plain);
    var err := EncryptChunks10(c, seqNum, dst, chunks);
    assert err == Nil ==> [] + Stream10(c, seqNum, plain, EOF) == dst.data == sealed;
    var cipher := new Source(sealed, EOF);
    read, err := DecryptDrain10(d, seqNum, cipher);
    var pieces := AnyChunks(sealed);
    err := DecryptChunks10(d, seqNum, back, pieces);
    assert [] + plain == plain;
  }
}
