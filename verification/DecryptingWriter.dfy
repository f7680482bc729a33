/** decWriterV20: the decrypting io.WriteCloser of DARE 2.0, on any ciphertext. */
module DecryptingWriter {
  import opened Basics
  import opened Bytes
  import opened Io
  import opened Dare

  class DecWriterV20 {
    const config: DecConfig
    var ad: DecState
    const dst: Sink
    const buffer: array<byte>
    var offset: nat

    /** The first `offset` bytes of the buffer are an incomplete package; nothing is kept after the final one. */
    ghost predicate Valid()
      reads this, dst
    {
      && config.aead.Lawful() && buffer.Length == MAX_PACKAGE_SIZE
      && offset < MAX_PACKAGE_SIZE && !dst.failed
      && (offset > 0 ==> !ad.finalized)
    }

    /** The bytes waiting for the rest of their package. */
    ghost function Kept(): seq<byte>
      requires offset <= buffer.Length
      reads this, buffer
    {
      buffer[..offset]
    }

    constructor (config: DecConfig, seqNum: u32, dst: Sink)
      requires config.aead.Lawful() && !dst.failed
      ensures Valid() && fresh(buffer) && this.dst == dst && this.config == config
      ensures ad == Start(seqNum) && Kept() == []
    {
      this.config := config;
      this.ad := Start(seqNum);
      this.dst := dst;
      this.buffer := new byte[MAX_PACKAGE_SIZE];
      this.offset := 0;
    }

    /** Opens one full-size package and flushes its plaintext. */
    method Release(pkg: seq<byte>) returns (err: Err, ghost plain: seq<byte>)
      requires config.aead.Lawful() && buffer.Length == MAX_PACKAGE_SIZE && !dst.failed
      requires |pkg| == MAX_PACKAGE_SIZE
      modifies this`ad, dst, buffer
      ensures plain == (match Open(config, old(ad), pkg).1 case Opened(m) => m case Failed(_) => [])
      ensures ad == Open(config, old(ad), pkg).0
      ensures old(dst.data) <= dst.data <= old(dst.data) + plain
      ensures dst.failed ==> err == WriteFailed || err == ShortWrite
      ensures !dst.failed ==> dst.data == old(dst.data) + plain
      ensures !dst.failed ==> err == (match Open(config, old(ad), pkg).1 case Opened(_) => Nil case Failed(e) => e)
    {
      hide Open;
      OpenedSize(config, ad, pkg);
      var (st, r) := Open(config, ad, pkg);
      ad := st;
      if r.Failed? {
        return r.err, [];
      }
      plain := r.payload;
      SpliceWindow(buffer[..], HEADER_SIZE, r.payload);
      Put(buffer, HEADER_SIZE, r.payload);
      assert buffer[HEADER_SIZE..HEADER_SIZE + MAX_PAYLOAD_SIZE] == plain;
      err := Flush(dst, buffer[HEADER_SIZE..HEADER_SIZE + MAX_PAYLOAD_SIZE]);
    }

    /** Releases the package in front of `next`, where f is what the whole Write amounts to and
        `done` the plaintext it has released so far. */
    method ReleaseNext(pkg: seq<byte>, ghost next: seq<byte>, ghost f: Fed, ghost base: seq<byte>, ghost done: seq<byte>)
      returns (err: Err, ghost done': seq<byte>)
      requires config.aead.Lawful() && buffer.Length == MAX_PACKAGE_SIZE && !dst.failed
      requires |pkg| == MAX_PACKAGE_SIZE
      requires f == Feed(config, ad, pkg + next).After(done) && dst.data == base + done
      modifies this`ad, dst, buffer
      ensures err == Nil ==> !dst.failed && dst.data == base + done' && f == Feed(config, ad, next).After(done')
      ensures err != Nil ==> base + done <= dst.data <= base + f.plain
      ensures err != Nil && dst.failed ==> err == WriteFailed || err == ShortWrite
      ensures err != Nil && !dst.failed ==> err == f.err && dst.data == base + f.plain
    {
      hide Open;
      OpenErrors(config, ad, pkg);
      assert (pkg + next)[..MAX_PACKAGE_SIZE] == pkg && (pkg + next)[MAX_PACKAGE_SIZE..] == next;
      ghost var more;
      err, more := Release(pkg);
      done' := done + more;
      Assoc(base, done, more);
      FedAfterAfter(Feed(config, ad, next), done, more);
      Assoc(base + done, more, Feed(config, ad, next).plain);
      Assoc(base, done', Feed(config, ad, next).plain);
    }

    /** Completes the package in the buffer. */
    method Fill(p: seq<byte>)
      requires buffer.Length == MAX_PACKAGE_SIZE && offset + |p| <= MAX_PACKAGE_SIZE
      modifies this`offset, buffer
      ensures offset == old(offset) + |p| && Kept() == old(Kept()) + p
    {
      SplicePrefix(buffer[..], offset, p);
      Put(buffer, offset, p);
      offset := offset + |p|;
    }

    method Write(p: seq<byte>) returns (n: nat, err: Err)
      requires Valid()
      modifies this`ad, this`offset, dst, buffer
      ensures var f := Feed(config, old(ad), old(Kept()) + p);
              && old(dst.data) <= dst.data <= old(dst.data) + f.plain
              && (!dst.failed ==> err == f.err && dst.data == old(dst.data) + f.plain)
              && (err == Nil ==> n == |p| && Valid() && ad == f.st && Kept() == f.rest)
      ensures dst.failed ==> err == WriteFailed || err == ShortWrite
    {
      hide Open, Feed, Aead.Lawful;
      n, err := 0, Nil;
      var rest := p;
      ghost var f := Feed(config, ad, Kept() + p);
      ghost var base, done := dst.data, [];
      assert [] + f.plain == f.plain && base + [] == base;
      if offset > 0 {
        var remaining := MAX_PACKAGE_SIZE - offset;
        if |p| < remaining {
          Fill(p);
          FeedShort(config, ad, Kept());
          return |p|, Nil;
        }
        ghost var all := Kept() + p;
        Fill(p[..remaining]);
        n := remaining;
        rest := p[remaining..];
        assert all == buffer[..] + rest;
        err, done := ReleaseNext(buffer[..], rest, f, base, done);
        if err != Nil {
          return;
        }
        offset := 0;
      } else {
        assert Kept() + p == p;
      }
      while |rest| >= MAX_PACKAGE_SIZE
        invariant buffer.Length == MAX_PACKAGE_SIZE && config.aead.Lawful() && !dst.failed && offset == 0 && err == Nil
        invariant n + |rest| == |p| && dst.data == base + done
        invariant f == Feed(config, ad, rest).After(done)
      {
        assert rest == rest[..MAX_PACKAGE_SIZE] + rest[MAX_PACKAGE_SIZE..];
        err, done := ReleaseNext(rest[..MAX_PACKAGE_SIZE], rest[MAX_PACKAGE_SIZE..], f, base, done);
        if err != Nil {
          return;
        }
        rest := rest[MAX_PACKAGE_SIZE..];
        n := n + MAX_PACKAGE_SIZE;
      }
      FeedShort(config, ad, rest);
      assert done + [] == done;
      assert Kept() == [];
      if |rest| > 0 {
        if ad.finalized {
          return n, UnexpectedData;
        }
        Fill(rest);
        assert [] + rest == rest;
        n := n + |rest|;
      }
    }

    /** Close opens what was kept. A stream that ended between two packages is not reported. */
    method Close() returns (err: Err)
      requires Valid()
      modifies this`ad, this`offset, dst, buffer
      ensures var end := Finish(config, old(ad), old(Kept()));
              && old(dst.data) <= dst.data <= old(dst.data) + end.plain
              && (!dst.failed ==> err == end.err && dst.data == old(dst.data) + end.plain)
      ensures dst.failed ==> err == WriteFailed || err == ShortWrite
    {
      hide Open;
      err := Nil;
      if offset > 0 {
        if offset <= HEADER_SIZE + TAG_SIZE {
          return InvalidPayloadSize;
        }
        OpenedSize(config, ad, buffer[..offset]);
        OpenErrors(config, ad, buffer[..offset]);
        var (st, r) := Open(config, ad, buffer[..offset]);
        ad := st;
        if r.Failed? {
          return r.err;
        }
        SpliceWindow(buffer[..], HEADER_SIZE, r.payload);
        Put(buffer, HEADER_SIZE, r.payload);
        assert buffer[HEADER_SIZE..offset - TAG_SIZE] == r.payload;
        err := Flush(dst, buffer[HEADER_SIZE..offset - TAG_SIZE]);
        if err != Nil {
          return;
        }
        offset := 0;
      }
    }
  }

  lemma FeedShort(d: DecConfig, st: DecState, s: seq<byte>)
    requires |s| < MAX_PACKAGE_SIZE
    ensures Feed(d, st, s) == Fed([], st, s, if s != [] && st.finalized then UnexpectedData else Nil)
  {
  }

  /** A writer fed any sequence of chunks and closed releases what Decode says, and fails exactly when
      Decode does, except that it does not notice a missing end. */
  method DecryptChunks(config: DecConfig, seqNum: u32, dst: Sink, chunks: seq<seq<byte>>) returns (err: Err)
    requires config.aead.Lawful() && !dst.failed
    modifies dst
    ensures var all := Decode(config, Start(seqNum), Flatten(chunks), EOF);
            !dst.failed ==>
              && dst.data == old(dst.data) + all.plain
              && (err == Nil <==> all.err == EOF || all.err == UnexpectedEOF)
              && (err != Nil ==> err == all.err)
    ensures dst.failed ==> err == WriteFailed || err == ShortWrite
  {
    hide Open, Feed, Decode, Finish;
    var w := new DecWriterV20(config, seqNum, dst);
    ghost var base, st0 := dst.data, w.ad;
    ghost var f := Fed([], st0, [], Nil);
    FeedShort(config, st0, []);
    for i := 0 to |chunks|
      invariant w.Valid() && w.dst == dst && w.config == config && fresh(w) && fresh(w.buffer)
      invariant f == Feed(config, st0, Flatten(chunks[..i])) && f.err == Nil
      invariant w.ad == f.st && w.Kept() == f.rest && dst.data == base + f.plain
    {
      var n;
      ghost var g := Feed(config, w.ad, w.Kept() + chunks[i]);
      FeedSplit(config, st0, Flatten(chunks[..i]), chunks[i]);
      FlattenSnoc(chunks[..i], chunks[i]);
      assert chunks[..i] + [chunks[i]] == chunks[..i + 1];
      Assoc(base, f.plain, g.plain);
      n, err := w.Write(chunks[i]);
      f := Feed(config, st0, Flatten(chunks[..i + 1]));
      if err != Nil {
        if !dst.failed {
          FlattenSplit(chunks, i + 1);
          FeedFails(config, st0, Flatten(chunks[..i + 1]), Flatten(chunks[i + 1..]));
          FeedMeansDecode(config, st0, Flatten(chunks));
        }
        return;
      }
    }
    assert chunks[..|chunks|] == chunks;
    FeedMeansDecode(config, st0, Flatten(chunks));
    Assoc(base, f.plain, Finish(config, f.st, f.rest).plain);
    err := w.Close();
  }
}
