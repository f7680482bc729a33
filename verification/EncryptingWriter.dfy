/** encWriterV20: the encrypting io.WriteCloser of DARE 2.0. */
module EncryptingWriter {
  import opened Basics
  import opened Bytes
  import opened Io
  import opened Dare
  import opened AuthEncryption

  class EncWriterV20 {
    const ae: AuthEncV20
    const dst: Sink
    const buffer: array<byte>
    var offset: nat

    ghost const base: seq<byte>   // what dst held before this writer
    ghost const first: u32        // the first sequence number
    ghost var written: seq<byte>  // the plaintext accepted so far
    ghost var count: nat          // the number of packages emitted

    /** count full packages are in dst, the last 1 to 65536 accepted bytes are in the buffer. */
    ghost predicate Valid()
      reads this, ae, dst, buffer
    {
      && ae.config.Valid() && !ae.finalized
      && buffer.Length == MAX_PACKAGE_SIZE && offset <= MAX_PAYLOAD_SIZE
      && (written != [] ==> offset > 0)
      && Emitted(buffer[HEADER_SIZE..HEADER_SIZE + offset])
    }

    /** All accepted bytes but the last ones, `pending`, have been sealed and flushed. */
    ghost predicate Emitted(pending: seq<byte>)
      reads this`count, this`written, ae, dst
    {
      && |ae.config.rand| == 12
      && count * MAX_PAYLOAD_SIZE <= |written|
      && written[count * MAX_PAYLOAD_SIZE..] == pending
      && !dst.failed && dst.data == base + Sealed(ae.config, first, written, count)
      && ae.seqNum == AddU32(first, count)
    }

    /** A failed flush leaves a prefix of the canonical stream behind. */
    ghost predicate Torn()
      reads this`count, this`written, dst
    {
      && |ae.config.rand| == 12
      && count * MAX_PAYLOAD_SIZE <= |written|
      && dst.failed && dst.data <= base + Sealed(ae.config, first, written, count)
    }

    constructor (config: EncConfig, seqNum: u32, dst: Sink)
      requires config.Valid() && !dst.failed
      ensures Valid() && fresh(ae) && fresh(buffer)
      ensures this.dst == dst && base == dst.data && first == seqNum && ae.config == config && written == []
    {
      this.ae := new AuthEncV20(config, seqNum);
      this.dst := dst;
      this.buffer := new byte[MAX_PACKAGE_SIZE];
      this.offset := 0;
      this.base := dst.data;
      this.first := seqNum;
      this.written := [];
      this.count := 0;
    }

    /** More plaintext arrives: what was emitted stays a prefix of the longer stream. */
    ghost method Accept(p: seq<byte>, pending: seq<byte>)
      requires Emitted(pending)
      modifies this`written
      ensures written == old(written) + p
      ensures Emitted(pending + p)
    {
      hide Sealed;
      SealedExtends(ae.config, first, written, p, count);
      written := written + p;
    }

    /** Copies plaintext behind the buffered bytes. */
    method Fill(p: seq<byte>)
      requires buffer.Length == MAX_PACKAGE_SIZE && offset + |p| <= MAX_PAYLOAD_SIZE
      modifies this`offset, buffer
      ensures offset == old(offset) + |p|
      ensures buffer[HEADER_SIZE..HEADER_SIZE + offset] == old(buffer[HEADER_SIZE..HEADER_SIZE + offset]) + p
    {
      SpliceWindow(buffer[..], HEADER_SIZE + offset, p);
      SpliceOutside(buffer[..], HEADER_SIZE + offset, p, HEADER_SIZE, HEADER_SIZE + offset);
      Put(buffer, HEADER_SIZE + offset, p);
      offset := offset + |p|;
    }

    /** Seals the full buffer where it lies and flushes it. */
    method SealBuffer(ghost rest: seq<byte>) returns (err: Err)
      requires ae.config.Valid() && !ae.finalized && buffer.Length == MAX_PACKAGE_SIZE
      requires Emitted(buffer[HEADER_SIZE..HEADER_SIZE + MAX_PAYLOAD_SIZE] + rest)
      modifies this`count, this`offset, ae, dst, buffer
      ensures !ae.finalized
      ensures err == Nil ==> Emitted(rest) && offset == 0
      ensures err != Nil ==> Torn()
    {
      hide Package, Sealed;
      ghost var block := buffer[HEADER_SIZE..HEADER_SIZE + MAX_PAYLOAD_SIZE];
      PackageSize(ae.config, ae.seqNum, block, false);
      SpliceAll(buffer[..], Package(ae.config, ae.seqNum, block, false));
      ae.SealInPlace(buffer, MAX_PAYLOAD_SIZE, false);
      err := FlushPackage(block, rest);
      if err == Nil {
        offset := 0;
      }
    }

    /** Flushes the package in the buffer, which holds the first pending block. */
    method FlushPackage(ghost block: seq<byte>, ghost rest: seq<byte>) returns (err: Err)
      requires |ae.config.rand| == 12 && |block| == MAX_PAYLOAD_SIZE
      requires count * MAX_PAYLOAD_SIZE <= |written| && written[count * MAX_PAYLOAD_SIZE..] == block + rest
      requires !dst.failed && dst.data == base + Sealed(ae.config, first, written, count)
      requires ae.seqNum == AddU32(first, count + 1)
      requires buffer[..] == Package(ae.config, AddU32(first, count), block, false)
      modifies this`count, dst
      ensures err == Nil ==> Emitted(rest)
      ensures err != Nil ==> Torn()
    {
      hide Package;
      err := Flush(dst, buffer[..]);
      TakeBlock(written, count, block, rest);
      Assoc(base, Sealed(ae.config, first, written, count), buffer[..]);
      count := count + 1;
    }

    /** Seals the first full block of `rest` into the buffer and flushes it. */
    method SealBlock(rest: seq<byte>) returns (err: Err)
      requires ae.config.Valid() && !ae.finalized && buffer.Length == MAX_PACKAGE_SIZE
      requires |rest| >= MAX_PAYLOAD_SIZE && Emitted(rest)
      modifies this`count, ae, dst, buffer
      ensures !ae.finalized
      ensures err == Nil ==> Emitted(rest[MAX_PAYLOAD_SIZE..])
      ensures err != Nil ==> Torn()
    {
      hide Package, Sealed;
      var block := rest[..MAX_PAYLOAD_SIZE];
      PackageSize(ae.config, ae.seqNum, block, false);
      SpliceAll(buffer[..], Package(ae.config, ae.seqNum, block, false));
      ae.Seal(buffer, 0, block, false);
      err := FlushPackage(block, rest[MAX_PAYLOAD_SIZE..]);
    }

    method Write(p: seq<byte>) returns (n: nat, err: Err)
      requires Valid()
      modifies this, ae, dst, buffer
      ensures written == old(written) + p
      ensures err == Nil ==> Valid() && n == |p|
      ensures err != Nil ==> Torn()
    {
      hide Package, Sealed, Torn, Emitted, EncConfig.Valid;
      n, err := 0, Nil;
      var rest := p;
      ghost var held := buffer[HEADER_SIZE..HEADER_SIZE + offset];
      Accept(p, held);
      assert offset == 0 ==> held + p == p;
      if offset > 0 {
        var remaining := MAX_PAYLOAD_SIZE - offset;
        if |p| <= remaining {
          Fill(p);
          assert buffer[HEADER_SIZE..HEADER_SIZE + offset] == held + p;
          return |p|, Nil;
        }
        Fill(p[..remaining]);
        n := remaining;
        rest := p[remaining..];
        assert held + p == buffer[16..16 + MAX_PAYLOAD_SIZE] + rest;
        err := SealBuffer(rest);
        if err != Nil {
          return;
        }
      }
      while |rest| > MAX_PAYLOAD_SIZE
        invariant ae.config.Valid() && !ae.finalized && offset == 0
        invariant err == Nil && n + |rest| == |p|
        invariant p != [] ==> rest != []
        invariant written == old(written) + p
        invariant Emitted(rest)
      {
        err := SealBlock(rest);
        if err != Nil {
          return;
        }
        rest := rest[MAX_PAYLOAD_SIZE..];
        n := n + MAX_PAYLOAD_SIZE;
      }
      assert rest == [] ==> buffer[HEADER_SIZE..HEADER_SIZE + offset] == rest;
      if |rest| > 0 {
        ghost var empty := buffer[HEADER_SIZE..HEADER_SIZE + offset];
        Fill(rest);
        assert empty + rest == rest;
        n := n + |rest|;
      }
    }

    /** Close seals the buffered bytes as the final package: the sink now holds the canonical stream. */
    method Close() returns (err: Err)
      requires Valid()
      modifies this, ae, dst, buffer
      ensures written == old(written)
      ensures err == Nil ==> !dst.failed && dst.data == base + Stream(ae.config, first, written, EOF)
      ensures err != Nil ==> dst.failed && dst.data <= base + Stream(ae.config, first, written, EOF)
    {
      hide Package, Sealed, EncConfig.Valid, Splice;
      err := Nil;
      if offset > 0 {
        ghost var last := buffer[HEADER_SIZE..HEADER_SIZE + offset];
        ghost var pkg := Package(ae.config, ae.seqNum, last, true);
        FinalSplit(ae.config, first, written, count, last);
        ae.SealInPlace(buffer, offset, true);
        SpliceWindow(old(buffer[..]), 0, pkg);
        err := Flush(dst, buffer[..HEADER_SIZE + offset + TAG_SIZE]);
        Assoc(base, Sealed(ae.config, first, written, count), pkg);
        if err != Nil {
          return;
        }
        offset := 0;
      } else {
        SealedNone(ae.config, first, written);
      }
    }
  }

  /** A writer fed any sequence of chunks and closed leaves one stream behind, which depends only on
      what the chunks concatenate to. */
  method EncryptChunks(config: EncConfig, seqNum: u32, dst: Sink, chunks: seq<seq<byte>>) returns (err: Err)
    requires config.Valid() && !dst.failed
    modifies dst
    ensures err == Nil <==> !dst.failed
    ensures err == Nil ==> dst.data == old(dst.data) + Stream(config, seqNum, Flatten(chunks), EOF)
  {
    hide Stream, EncWriterV20.Valid, Sealed;
    var w := new EncWriterV20(config, seqNum, dst);
    for i := 0 to |chunks|
      invariant w.Valid() && w.dst == dst && w.base == old(dst.data) && w.first == seqNum && w.ae.config == config
      invariant fresh(w) && fresh(w.ae) && fresh(w.buffer)
      invariant w.written == Flatten(chunks[..i])
    {
      var n;
      n, err := w.Write(chunks[i]);
      if err != Nil {
        return;
      }
      FlattenSnoc(chunks[..i], chunks[i]);
      assert chunks[..i] + [chunks[i]] == chunks[..i + 1];
    }
    assert chunks[..|chunks|] == chunks;
    err := w.Close();
  }

  /** Pending bytes that start with a full block: that block is the next one. */
  lemma TakeBlock(p: seq<byte>, k: nat, block: seq<byte>, rest: seq<byte>)
    requires k * MAX_PAYLOAD_SIZE <= |p| && p[k * MAX_PAYLOAD_SIZE..] == block + rest && |block| == MAX_PAYLOAD_SIZE
    ensures (k + 1) * MAX_PAYLOAD_SIZE <= |p|
    ensures Block(p, k) == block && p[(k + 1) * MAX_PAYLOAD_SIZE..] == rest
  {
    assert Block(p, k) == p[k * MAX_PAYLOAD_SIZE..][..MAX_PAYLOAD_SIZE];
    assert p[(k + 1) * MAX_PAYLOAD_SIZE..] == p[k * MAX_PAYLOAD_SIZE..][MAX_PAYLOAD_SIZE..];
  }
}
