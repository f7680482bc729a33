/** encWriterV10 and decWriterV10: the io.WriteClosers of DARE 1.0. */
module WritersV10 {
  import opened Basics
  import opened Bytes
  import opened Io
  import opened Dare
  import opened DareV10

  class EncWriterV10 {
    const config: EncConfig10
    const dst: Sink
    const buffer: array<byte>
    var seqNum: u32
    var offset: nat

    ghost predicate Valid()
      reads this, dst
    {
      config.Valid() && buffer.Length == MAX_PACKAGE_SIZE && offset < config.payloadSize && !dst.failed
    }

    /** The plaintext waiting for the rest of its package. */
    ghost function Kept(): seq<byte>
      requires HEADER_SIZE + offset <= buffer.Length
      reads this, buffer
    {
      buffer[HEADER_SIZE..HEADER_SIZE + offset]
    }

    constructor (config: EncConfig10, seqNum: u32, dst: Sink)
      requires config.Valid() && !dst.failed
      ensures Valid() && fresh(buffer) && this.dst == dst && this.config == config
      ensures this.seqNum == seqNum && Kept() == []
    {
      this.config, this.dst, this.seqNum, this.offset := config, dst, seqNum, 0;
      this.buffer := new byte[MAX_PACKAGE_SIZE];
    }

    /** Seals data, which lies outside the buffer or right behind its header, into the buffer. */
    method Seal(data: seq<byte>)
      requires config.Valid() && buffer.Length == MAX_PACKAGE_SIZE && 1 <= |data| <= MAX_PAYLOAD_SIZE
      modifies this`seqNum, buffer
      ensures seqNum == AddU32(old(seqNum), 1)
      ensures |Package10(config, old(seqNum), data)| == |data| + 32
      ensures buffer[..|data| + 32] == Package10(config, old(seqNum), data)
    {
      PackageLength10(config, seqNum, data);
      ghost var was := buffer[..];
      var header := MakeHeader10(config.suite, |data|, seqNum, config.rand);
      Put(buffer, 0, header);
      var sealed := config.aead.seal(config.suite, Nonce(header), AddData(header), data);
      Put(buffer, HEADER_SIZE, sealed);
      SpliceTwice(was, 0, header, sealed);
      SpliceWindow(was, 0, header + sealed);
      seqNum := AddU32(seqNum, 1);
    }

    /** Seals and flushes one block, where f is what the whole Write amounts to and `done` what it has
        flushed so far. */
    method SealNext(block: seq<byte>, ghost next: seq<byte>, ghost f: Framed, ghost base: seq<byte>, ghost done: seq<byte>)
      returns (err: Err, ghost done': seq<byte>)
      requires config.Valid() && buffer.Length == MAX_PACKAGE_SIZE && !dst.failed
      requires |block| == config.payloadSize
      requires f == Frame10(config, seqNum, block + next).After(done) && dst.data == base + done
      modifies this`seqNum, dst, buffer
      ensures err == Nil ==> !dst.failed && dst.data == base + done' && f == Frame10(config, seqNum, next).After(done')
      ensures err != Nil ==> dst.failed && base + done <= dst.data <= base + f.out
    {
      hide Package10;
      ghost var pkg := Package10(config, seqNum, block);
      ghost var g := Frame10(config, AddU32(seqNum, 1), next);
      assert (block + next)[..config.payloadSize] == block && (block + next)[config.payloadSize..] == next;
      Assoc(done, pkg, g.out);
      Assoc(base, done, pkg);
      Assoc(base, done + pkg, g.out);
      Seal(block);
      err := Flush(dst, buffer[..config.payloadSize + 32]);
      done' := done + pkg;
    }

    /** Copies plaintext behind the kept bytes. */
    method Fill(p: seq<byte>)
      requires buffer.Length == MAX_PACKAGE_SIZE && offset + |p| <= MAX_PAYLOAD_SIZE
      modifies this`offset, buffer
      ensures offset == old(offset) + |p| && Kept() == old(Kept()) + p
    {
      SpliceWindow(buffer[..], HEADER_SIZE + offset, p);
      SpliceOutside(buffer[..], HEADER_SIZE + offset, p, HEADER_SIZE, HEADER_SIZE + offset);
      Put(buffer, HEADER_SIZE + offset, p);
      offset := offset + |p|;
    }

    method Write(p: seq<byte>) returns (n: nat, err: Err)
      requires Valid()
      modifies this, dst, buffer
      ensures var f := Frame10(config, old(seqNum), old(Kept()) + p);
              && old(dst.data) <= dst.data <= old(dst.data) + f.out
              && (err == Nil ==> n == |p| && dst.data == old(dst.data) + f.out)
              && (err == Nil ==> Valid() && seqNum == f.seqNum && Kept() == f.rest)
      ensures err != Nil ==> dst.failed
    {
      hide Frame10;
      n, err := 0, Nil;
      var rest := p;
      ghost var f := Frame10(config, seqNum, Kept() + p);
      ghost var base, done := dst.data, [];
      assert [] + f.out == f.out && base + [] == base;
      if offset > 0 {
        var remaining := config.payloadSize - offset;
        if |p| < remaining {
          Fill(p);
          FrameShort(config, seqNum, Kept());
          return |p|, Nil;
        }
        ghost var all := Kept() + p;
        Fill(p[..remaining]);
        n := remaining;
        rest := p[remaining..];
        assert all == Kept() + rest;
        err, done := SealNext(buffer[HEADER_SIZE..HEADER_SIZE + config.payloadSize], rest, f, base, done);
        if err != Nil {
          return;
        }
        offset := 0;
      } else {
        assert Kept() + p == p;
      }
      var left;
      left, err, done := SealBlocks(rest, f, base, done);
      n := n + (|rest| - |left|);
      if err != Nil {
        return;
      }
      FrameShort(config, seqNum, left);
      assert done + [] == done;
      assert Kept() == [];
      if |left| > 0 {
        Fill(left);
        assert [] + left == left;
        n := n + |left|;
      }
    }

    /** The loop over the full blocks of p. */
    method SealBlocks(p: seq<byte>, ghost f: Framed, ghost base: seq<byte>, ghost done: seq<byte>)
      returns (rest: seq<byte>, err: Err, ghost done': seq<byte>)
      requires config.Valid() && buffer.Length == MAX_PACKAGE_SIZE && !dst.failed
      requires f == Frame10(config, seqNum, p).After(done) && dst.data == base + done
      modifies this`seqNum, dst, buffer
      ensures |rest| <= |p|
      ensures err == Nil ==> |rest| < config.payloadSize && !dst.failed && dst.data == base + done'
      ensures err == Nil ==> f == Frame10(config, seqNum, rest).After(done')
      ensures err != Nil ==> dst.failed && base <= dst.data <= base + f.out
    {
      hide Frame10;
      rest, err, done' := p, Nil, done;
      while |rest| >= config.payloadSize
        invariant buffer.Length == MAX_PACKAGE_SIZE && !dst.failed && err == Nil && |rest| <= |p|
        invariant dst.data == base + done' && f == Frame10(config, seqNum, rest).After(done')
        decreases |rest|
      {
        assert rest == rest[..config.payloadSize] + rest[config.payloadSize..];
        err, done' := SealNext(rest[..config.payloadSize], rest[config.payloadSize..], f, base, done');
        if err != Nil {
          return;
        }
        rest := rest[config.payloadSize..];
      }
    }

    /** Close seals the kept bytes as a last package. */
    method Close() returns (err: Err)
      requires Valid()
      modifies this, dst, buffer
      ensures var last := if old(Kept()) == [] then [] else Package10(config, old(seqNum), old(Kept()));
              && old(dst.data) <= dst.data <= old(dst.data) + last
              && (err == Nil ==> !dst.failed && dst.data == old(dst.data) + last)
      ensures err != Nil ==> dst.failed
    {
      hide Package10;
      err := Nil;
      if offset > 0 {
        Seal(buffer[HEADER_SIZE..HEADER_SIZE + offset]);
        err := Flush(dst, buffer[..offset + 32]);
      }
    }
  }

  lemma FrameShort(c: EncConfig10, seqNum: u32, p: seq<byte>)
    requires c.Valid() && |p| < c.payloadSize
    ensures Frame10(c, seqNum, p) == Framed([], seqNum, p)
  {
  }

  /** A writer fed any sequence of chunks and closed leaves the canonical stream behind. */
  method EncryptChunks10(config: EncConfig10, seqNum: u32, dst: Sink, chunks: seq<seq<byte>>) returns (err: Err)
    requires config.Valid() && !dst.failed
    modifies dst
    ensures err == Nil <==> !dst.failed
    ensures err == Nil ==> dst.data == old(dst.data) + Stream10(config, seqNum, Flatten(chunks), EOF)
  {
    hide Frame10, Stream10, Package10;
    var w := new EncWriterV10(config, seqNum, dst);
    ghost var base, f := dst.data, Framed([], seqNum, []);
    FrameShort(config, seqNum, []);
    for i := 0 to |chunks|
      invariant w.Valid() && w.dst == dst && w.config == config && fresh(w) && fresh(w.buffer)
      invariant f == Frame10(config, seqNum, Flatten(chunks[..i]))
      invariant w.seqNum == f.seqNum && w.Kept() == f.rest && dst.data == base + f.out
    {
      ghost var g := Frame10(config, w.seqNum, w.Kept() + chunks[i]);
      FrameSplit(config, seqNum, Flatten(chunks[..i]), chunks[i]);
      FlattenSnoc(chunks[..i], chunks[i]);
      assert chunks[..i] + [chunks[i]] == chunks[..i + 1];
      Assoc(base, f.out, g.out);
      var n;
      n, err := w.Write(chunks[i]);
      if err != Nil {
        return;
      }
      f := Frame10(config, seqNum, Flatten(chunks[..i + 1]));
    }
    assert chunks[..|chunks|] == chunks;
    FrameStream(config, seqNum, Flatten(chunks));
    Assoc(base, f.out, if f.rest == [] then [] else Package10(config, f.seqNum, f.rest));
    err := w.Close();
  }

  class DecWriterV10 {
    const config: DecConfig
    const dst: Sink
    const buffer: array<byte>
    var seqNum: u32
    var offset: nat

    /** The first `offset` bytes of the buffer are an incomplete package. */
    ghost predicate Valid()
      reads this, dst, buffer
    {
      config.aead.Lawful() && buffer.Length == MAX_PACKAGE_SIZE && !dst.failed && Incomplete()
    }

    predicate Incomplete()
      reads this, buffer
    {
      && offset <= buffer.Length
      && (offset >= HEADER_SIZE ==> offset < HEADER_SIZE + Length(buffer[..HEADER_SIZE]) + TAG_SIZE <= buffer.Length)
    }

    ghost function Kept(): seq<byte>
      requires offset <= buffer.Length
      reads this, buffer
    {
      buffer[..offset]
    }

    constructor (config: DecConfig, seqNum: u32, dst: Sink)
      requires config.aead.Lawful() && !dst.failed
      ensures Valid() && fresh(buffer) && this.dst == dst && this.config == config
      ensures this.seqNum == seqNum && Kept() == []
    {
      this.config, this.dst, this.seqNum, this.offset := config, dst, seqNum, 0;
      this.buffer := new byte[MAX_PACKAGE_SIZE];
    }

    /** Opens one whole package into the buffer and flushes its plaintext. */
    method Release(pkg: seq<byte>) returns (err: Err, ghost plain: seq<byte>)
      requires config.aead.Lawful() && buffer.Length == MAX_PACKAGE_SIZE && !dst.failed
      requires HEADER_SIZE <= |pkg| <= MAX_PACKAGE_SIZE
      modifies this`seqNum, dst, buffer
      ensures var r := Open10(config, old(seqNum), pkg);
              && plain == (if r.Opened? then r.payload else [])
              && seqNum == (if r.Opened? then AddU32(old(seqNum), 1) else old(seqNum))
              && (!dst.failed ==> err == (if r.Opened? then Nil else r.err))
      ensures old(dst.data) <= dst.data <= old(dst.data) + plain
      ensures dst.failed ==> err == WriteFailed || err == ShortWrite
      ensures !dst.failed ==> dst.data == old(dst.data) + plain
    {
      hide Open10;
      OpenedSize10(config, seqNum, pkg);
      var r := Open10(config, seqNum, pkg);
      if r.Failed? {
        return r.err, [];
      }
      seqNum := AddU32(seqNum, 1);
      plain := r.payload;
      SpliceWindow(buffer[..], HEADER_SIZE, r.payload);
      Put(buffer, HEADER_SIZE, r.payload);
      err := Flush(dst, buffer[HEADER_SIZE..|pkg| - TAG_SIZE]);
    }

    /** Releases the package in front of `next`, where f is what the whole Write amounts to and `done` the
        plaintext it has released so far. */
    method ReleaseNext(pkg: seq<byte>, ghost next: seq<byte>, ghost f: Fed10, ghost base: seq<byte>, ghost done: seq<byte>)
      returns (err: Err, ghost done': seq<byte>)
      requires config.aead.Lawful() && buffer.Length == MAX_PACKAGE_SIZE && !dst.failed
      requires HEADER_SIZE <= |pkg| <= MAX_PACKAGE_SIZE && |pkg| == PackageSize10(pkg)
      requires f == Feed10(config, seqNum, pkg + next).After(done) && dst.data == base + done
      modifies this`seqNum, dst, buffer
      ensures err == Nil ==> !dst.failed && dst.data == base + done' && f == Feed10(config, seqNum, next).After(done')
      ensures err != Nil ==> base + done <= dst.data <= base + f.plain
      ensures err != Nil && dst.failed ==> err == WriteFailed || err == ShortWrite
      ensures err != Nil && !dst.failed ==> err == f.err && dst.data == base + f.plain
    {
      hide Open10;
      OpenErrors10(config, seqNum, pkg);
      PackageSizeAppend(pkg, next);
      assert (pkg + next)[..|pkg|] == pkg && (pkg + next)[|pkg|..] == next;
      ghost var was := seqNum;
      ghost var more;
      err, more := Release(pkg);
      done' := done + more;
      ghost var g := Feed10(config, AddU32(was, 1), next);
      assert f.plain == done + (if Open10(config, was, pkg).Opened? then more + g.plain else []);
      Assoc(base, done, more);
      Assoc(done, more, g.plain);
      Assoc(base, done', g.plain);
      assert done + [] == done;
    }

    method Fill(p: seq<byte>)
      requires buffer.Length == MAX_PACKAGE_SIZE && offset + |p| <= MAX_PACKAGE_SIZE
      modifies this`offset, buffer
      ensures offset == old(offset) + |p| && Kept() == old(Kept()) + p
    {
      SplicePrefix(buffer[..], offset, p);
      Put(buffer, offset, p);
      offset := offset + |p|;
    }

    /** Completes the header and the package in the buffer as far as p reaches. */
    method Complete(p: seq<byte>) returns (n: nat, whole: bool)
      requires Valid() && offset > 0
      modifies this`offset, buffer
      ensures n <= |p| && buffer.Length == MAX_PACKAGE_SIZE && offset <= MAX_PACKAGE_SIZE
      ensures Kept() == old(Kept()) + p[..n]
      ensures !whole ==> n == |p| && Incomplete()
      ensures whole ==> offset >= HEADER_SIZE && offset == PackageSize10(Kept())
    {
      hide Length;
      n := 0;
      assert Kept() + p[..0] == Kept();
      if offset < HEADER_SIZE {
        n := Min(HEADER_SIZE - offset, |p|);
        Fill(p[..n]);
        if offset < HEADER_SIZE {
          return n, false;
        }
      }
      ghost var start, part := old(Kept()), p[..n];
      LengthRange(buffer[..HEADER_SIZE]);
      var k;
      k, whole := CompletePackage(p[n..]);
      assert p[..n + k] == part + p[n..][..k];
      Assoc(start, part, p[n..][..k]);
      n := n + k;
    }

    /** Completes the package whose header is in the buffer. */
    method CompletePackage(p: seq<byte>) returns (k: nat, whole: bool)
      requires buffer.Length == MAX_PACKAGE_SIZE && HEADER_SIZE <= offset
      requires offset < HEADER_SIZE + Length(buffer[..HEADER_SIZE]) + TAG_SIZE <= MAX_PACKAGE_SIZE
      modifies this`offset, buffer
      ensures k <= |p| && offset <= MAX_PACKAGE_SIZE && Kept() == old(Kept()) + p[..k]
      ensures !whole ==> k == |p| && Incomplete()
      ensures whole ==> offset >= HEADER_SIZE && offset == PackageSize10(Kept())
    {
      hide Length;
      ghost var kept, header := Kept(), buffer[..HEADER_SIZE];
      var remaining := HEADER_SIZE + Length(buffer[..HEADER_SIZE]) + TAG_SIZE - offset;
      k := Min(remaining, |p|);
      Fill(p[..k]);
      assert Kept()[..HEADER_SIZE] == kept[..HEADER_SIZE] == header == buffer[..HEADER_SIZE];
      whole := k == remaining;
    }

    method Write(p: seq<byte>) returns (n: nat, err: Err)
      requires Valid()
      modifies this, dst, buffer
      ensures var f := Feed10(config, old(seqNum), old(Kept()) + p);
              && old(dst.data) <= dst.data <= old(dst.data) + f.plain
              && (!dst.failed ==> err == f.err && dst.data == old(dst.data) + f.plain)
              && (err == Nil ==> n == |p| && Valid() && seqNum == f.seqNum && Kept() == f.rest)
      ensures dst.failed ==> err == WriteFailed || err == ShortWrite
    {
      hide Open10, Feed10;
      n, err := 0, Nil;
      var rest := p;
      ghost var f := Feed10(config, seqNum, Kept() + p);
      ghost var base, done := dst.data, [];
      assert [] + f.plain == f.plain && base + [] == base;
      if offset > 0 {
        ghost var all := Kept() + p;
        var whole;
        n, whole := Complete(p);
        rest := p[n..];
        assert all == Kept() + rest;
        if !whole {
          assert Kept() + [] == Kept();
          FeedShort10(config, seqNum, Kept());
          return;
        }
        err, done := ReleaseNext(buffer[..offset], rest, f, base, done);
        if err != Nil {
          return;
        }
        offset := 0;
      } else {
        assert Kept() + p == p;
      }
      var left;
      left, err, done := ReleaseWhole(rest, f, base, done);
      n := n + (|rest| - |left|);
      if err == Nil {
        Keep(left, f, done);
        n := n + |left|;
      }
    }

    /** The loop over the whole packages of p. */
    method ReleaseWhole(p: seq<byte>, ghost f: Fed10, ghost base: seq<byte>, ghost done: seq<byte>)
      returns (rest: seq<byte>, err: Err, ghost done': seq<byte>)
      requires config.aead.Lawful() && buffer.Length == MAX_PACKAGE_SIZE && !dst.failed
      requires f == Feed10(config, seqNum, p).After(done) && dst.data == base + done
      modifies this`seqNum, dst, buffer
      ensures |rest| <= |p|
      ensures err == Nil ==> !dst.failed && dst.data == base + done' && f == Feed10(config, seqNum, rest).After(done')
      ensures err == Nil ==> |rest| < HEADER_SIZE || |rest| < PackageSize10(rest)
      ensures err != Nil ==> base <= dst.data <= base + f.plain
      ensures err != Nil && dst.failed ==> err == WriteFailed || err == ShortWrite
      ensures err != Nil && !dst.failed ==> err == f.err && dst.data == base + f.plain
    {
      hide Open10, Feed10, Length, Aead.Lawful;
      rest, err, done' := p, Nil, done;
      while |rest| > HEADER_SIZE
        invariant buffer.Length == MAX_PACKAGE_SIZE && config.aead.Lawful() && !dst.failed && err == Nil && |rest| <= |p|
        invariant dst.data == base + done' && f == Feed10(config, seqNum, rest).After(done')
        decreases |rest|
      {
        LengthRange(rest[..HEADER_SIZE]);
        var packageLen := HEADER_SIZE + TAG_SIZE + Length(rest[..HEADER_SIZE]);
        if |rest| < packageLen {
          return;
        }
        err, done' := ReleaseFront(rest, packageLen, f, base, done');
        if err != Nil {
          return;
        }
        rest := rest[packageLen..];
      }
      if |rest| == HEADER_SIZE {
        LengthRange(rest[..HEADER_SIZE]);
      }
    }

    method ReleaseFront(rest: seq<byte>, packageLen: nat, ghost f: Fed10, ghost base: seq<byte>, ghost done: seq<byte>)
      returns (err: Err, ghost done': seq<byte>)
      requires config.aead.Lawful() && buffer.Length == MAX_PACKAGE_SIZE && !dst.failed
      requires |rest| >= HEADER_SIZE && packageLen == PackageSize10(rest) <= |rest|
      requires f == Feed10(config, seqNum, rest).After(done) && dst.data == base + done
      modifies this`seqNum, dst, buffer
      ensures err == Nil ==> !dst.failed && dst.data == base + done'
      ensures err == Nil ==> f == Feed10(config, seqNum, rest[packageLen..]).After(done')
      ensures err != Nil ==> base + done <= dst.data <= base + f.plain
      ensures err != Nil && dst.failed ==> err == WriteFailed || err == ShortWrite
      ensures err != Nil && !dst.failed ==> err == f.err && dst.data == base + f.plain
    {
      hide Open10, Feed10;
      assert rest == rest[..packageLen] + rest[packageLen..];
      assert rest[..packageLen][..HEADER_SIZE] == rest[..HEADER_SIZE];
      err, done' := ReleaseNext(rest[..packageLen], rest[packageLen..], f, base, done);
    }

    /** Keeps an incomplete package for the next call. */
    method Keep(rest: seq<byte>, ghost f: Fed10, ghost done: seq<byte>)
      requires config.aead.Lawful() && buffer.Length == MAX_PACKAGE_SIZE && !dst.failed && offset == 0
      requires |rest| < HEADER_SIZE || |rest| < PackageSize10(rest)
      requires f == Feed10(config, seqNum, rest).After(done)
      modifies this`offset, buffer
      ensures Valid() && Kept() == rest && f == Fed10(done, seqNum, rest, Nil)
    {
      hide Open10;
      FeedShort10(config, seqNum, rest);
      assert done + [] == done;
      assert Kept() == [];
      Fill(rest);
      assert [] + rest == rest;
      assert |rest| >= HEADER_SIZE ==> Kept()[..HEADER_SIZE] == buffer[..HEADER_SIZE];
    }

    /** What is kept is an incomplete package, so Close has nothing to open. */
    method Close() returns (err: Err)
      requires Valid()
      modifies this, dst, buffer
      ensures var end := Finish10(config, old(seqNum), old(Kept()));
              && dst.data == old(dst.data) && !dst.failed && err == end.err && end.plain == []
    {
      err := Nil;
      if offset > 0 {
        if offset <= HEADER_SIZE + TAG_SIZE {
          return InvalidPayloadSize;
        }
        assert Kept()[..HEADER_SIZE] == buffer[..HEADER_SIZE];
        if offset < HEADER_SIZE + Length(buffer[..HEADER_SIZE]) + TAG_SIZE {
          return InvalidPayloadSize;
        }
        assert false;
      }
    }
  }

  lemma FeedShort10(d: DecConfig, seqNum: u32, s: seq<byte>)
    requires |s| < HEADER_SIZE || |s| < PackageSize10(s)
    ensures Feed10(d, seqNum, s) == Fed10([], seqNum, s, Nil)
  {
  }

  /** A writer fed any sequence of chunks and closed releases what Decode10 says and fails exactly when it
      does. */
  method DecryptChunks10(config: DecConfig, seqNum: u32, dst: Sink, chunks: seq<seq<byte>>) returns (err: Err)
    requires config.aead.Lawful() && !dst.failed
    modifies dst
    ensures var all := Decode10(config, seqNum, Flatten(chunks), EOF);
            !dst.failed ==> dst.data == old(dst.data) + all.plain && err == (if all.err == EOF then Nil else all.err)
    ensures dst.failed ==> err == WriteFailed || err == ShortWrite
  {
    hide Open10, Feed10, Decode10, Finish10;
    var w := new DecWriterV10(config, seqNum, dst);
    ghost var base, f := dst.data, Fed10([], seqNum, [], Nil);
    FeedShort10(config, seqNum, []);
    for i := 0 to |chunks|
      invariant w.Valid() && w.dst == dst && w.config == config && fresh(w) && fresh(w.buffer)
      invariant f == Feed10(config, seqNum, Flatten(chunks[..i])) && f.err == Nil
      invariant w.seqNum == f.seqNum && w.Kept() == f.rest && dst.data == base + f.plain
    {
      ghost var g := Feed10(config, w.seqNum, w.Kept() + chunks[i]);
      FeedSplit10(config, seqNum, Flatten(chunks[..i]), chunks[i]);
      FlattenSnoc(chunks[..i], chunks[i]);
      assert chunks[..i] + [chunks[i]] == chunks[..i + 1];
      Assoc(base, f.plain, g.plain);
      var n;
      n, err := w.Write(chunks[i]);
      f := Feed10(config, seqNum, Flatten(chunks[..i + 1]));
      if err != Nil {
        if !dst.failed {
          FlattenSplit(chunks, i + 1);
          FeedFails10(config, seqNum, Flatten(chunks[..i + 1]), Flatten(chunks[i + 1..]));
          FeedMeansDecode10(config, seqNum, Flatten(chunks));
        }
        return;
      }
    }
    assert chunks[..|chunks|] == chunks;
    FeedMeansDecode10(config, seqNum, Flatten(chunks));
    err := w.Close();
  }
}
