/** encReaderV20: the encrypting io.Reader of DARE 2.0. It looks one byte ahead to learn whether
    a full block is the last one. */
module EncryptingReader {
  import opened Basics
  import opened Bytes
  import opened Io
  import opened Dare
  import opened AuthEncryption

  class EncReaderV20 {
    const ae: AuthEncV20
    const src: Source
    const buffer: array<byte>
    var offset: nat
    var lastByte: byte
    var firstRead: bool

    ghost const plain: seq<byte>  // everything src delivers
    ghost const first: u32        // the first sequence number
    ghost var count: nat          // the number of full packages sealed
    ghost var held: seq<byte>     // the package in the buffer while offset > 0
    ghost var out: seq<byte>      // the ciphertext delivered so far

    /** The ciphertext sealed so far. */
    ghost function Done(): seq<byte>
      requires |ae.config.rand| == 12 && count * MAX_PAYLOAD_SIZE <= |plain|
      reads this`count, ae
    {
      if ae.finalized then Stream(ae.config, first, plain, EOF) else Sealed(ae.config, first, plain, count)
    }

    /** Between packages the source stands one byte past the next block's start; that byte is lastByte. */
    ghost predicate Ahead()
      reads this`count, this`lastByte, src
    {
      && count * MAX_PAYLOAD_SIZE < |plain|
      && lastByte == plain[count * MAX_PAYLOAD_SIZE]
      && src.rest == plain[count * MAX_PAYLOAD_SIZE + 1..]
    }

    /** The source has failed before the next block was complete. */
    ghost predicate Broken()
      reads this`count, src
    {
      src.tail != EOF && src.rest == [] && |plain| <= (count + 1) * MAX_PAYLOAD_SIZE
    }

    ghost predicate Counted()
      reads this, ae, src
    {
      && ae.config.Valid() && buffer.Length == MAX_PACKAGE_SIZE
      && (src.tail == EOF || src.tail == ReadFailed)
      && count * MAX_PAYLOAD_SIZE <= |plain| && (count > 0 ==> count * MAX_PAYLOAD_SIZE < |plain|)
      && !firstRead
      && (ae.finalized ==> src.tail == EOF)
      && (!ae.finalized ==> ae.seqNum == AddU32(first, count))
    }

    /** The reader is past its first byte and may seal the next block. */
    ghost predicate Ready()
      reads this, ae, src
    {
      Counted() && (!ae.finalized ==> Ahead() || Broken())
    }

    ghost predicate Valid()
      reads this, ae, src, buffer
    {
      if firstRead then
        && ae.config.Valid() && buffer.Length == MAX_PACKAGE_SIZE
        && (src.tail == EOF || src.tail == ReadFailed)
        && !ae.finalized && ae.seqNum == first && src.rest == plain
        && count == 0 && offset == 0 && out == []
      else
        && Ready()
        && (offset == 0 ==> Done() == out)
        && (offset > 0 ==>
              && 32 < |held| <= MAX_PACKAGE_SIZE && offset <= |held|
              && Length(buffer[..HEADER_SIZE]) + 32 == |held| && buffer[..|held|] == held
              && Done() == out + held[offset..])
    }

    constructor (config: EncConfig, seqNum: u32, src: Source)
      requires config.Valid() && (src.tail == EOF || src.tail == ReadFailed)
      ensures Valid() && fresh(ae) && fresh(buffer)
      ensures this.src == src && plain == src.rest && first == seqNum && ae.config == config && out == []
    {
      this.ae := new AuthEncV20(config, seqNum);
      this.src := src;
      this.buffer := new byte[MAX_PACKAGE_SIZE];
      this.offset := 0;
      this.lastByte := 0;
      this.firstRead := true;
      this.plain := src.rest;
      this.first := seqNum;
      this.count := 0;
      this.held := [];
      this.out := [];
    }

    /** What has been delivered is a prefix of the canonical stream, and all of it at the end. */
    lemma OutIsPrefix()
      requires Valid() && !firstRead
      ensures Ready() && out <= Stream(ae.config, first, plain, src.tail)
      ensures offset == 0 && (ae.finalized || Broken()) ==> out == Stream(ae.config, first, plain, src.tail)
      ensures ae.finalized ==> src.tail == EOF
    {
      if !ae.finalized && count * MAX_PAYLOAD_SIZE < |plain| {
        hide Package, Sealed;
        StreamSplit(ae.config, first, plain, src.tail, count);
      }
    }

    /** The first call reads the first plaintext byte; an empty source ends the stream at once. */
    method ReadFirst() returns (err: Err)
      requires Valid() && firstRead
      modifies this`firstRead, this`lastByte, ae`finalized, src, buffer
      ensures Valid() && !firstRead && offset == 0 && Ready()
      ensures err != Nil ==> err == src.tail && out == Stream(ae.config, first, plain, src.tail)
    {
      hide Package, Sealed, Length, Splice;
      firstRead := false;
      SealedNone(ae.config, first, plain);
      ghost var was := buffer[..];
      var nn;
      nn, err := src.ReadFull(buffer, HEADER_SIZE, HEADER_SIZE + 1);
      if err != Nil && err != EOF {
        return;
      }
      if err == EOF {
        ae.finalized := true;
        return;
      }
      SpliceWindow(was, HEADER_SIZE, plain[..1]);
      lastByte := buffer[HEADER_SIZE];
      assert buffer[HEADER_SIZE..HEADER_SIZE + 1] == plain[..1];
      assert lastByte == buffer[HEADER_SIZE..HEADER_SIZE + 1][0];
    }

    /** Reads up to 65536 more bytes behind lastByte: a full block if a byte follows it,
        else the rest of the plaintext. */
    method Fetch() returns (size: nat, err: Err, ghost data: seq<byte>)
      requires Ready() && !ae.finalized
      modifies src, buffer
      ensures Counted() && !ae.finalized && Done() == old(Done())
      ensures 1 <= size <= MAX_PAYLOAD_SIZE + 1 && buffer[HEADER_SIZE..HEADER_SIZE + size] == data
      ensures err == Nil ==> size == MAX_PAYLOAD_SIZE + 1 && NextBlock(plain, count, data, src.rest)
      ensures err == EOF || err == IoUnexpectedEOF ==>
                && src.tail == EOF && size <= MAX_PAYLOAD_SIZE
                && count * MAX_PAYLOAD_SIZE < |plain| && data == plain[count * MAX_PAYLOAD_SIZE..]
      ensures err != Nil && err != EOF && err != IoUnexpectedEOF ==> err == src.tail && Broken()
    {
      hide Done, EncConfig.Valid, Block;
      ghost var ahead := Ahead();
      buffer[HEADER_SIZE] := lastByte;
      ghost var was, rest := buffer[..], src.rest;
      var nn;
      nn, err := src.ReadFull(buffer, HEADER_SIZE + 1, HEADER_SIZE + 1 + MAX_PAYLOAD_SIZE);
      size := nn + 1;
      data := [lastByte] + rest[..nn];
      SpliceWindow(was, HEADER_SIZE + 1, rest[..nn]);
      SpliceOutside(was, HEADER_SIZE + 1, rest[..nn], HEADER_SIZE, HEADER_SIZE + 1);
      assert buffer[HEADER_SIZE..HEADER_SIZE + size] == data by {
        assert was[HEADER_SIZE..HEADER_SIZE + 1] == [lastByte];
        assert buffer[..][HEADER_SIZE..HEADER_SIZE + size]
            == buffer[..][HEADER_SIZE..HEADER_SIZE + 1] + buffer[..][HEADER_SIZE + 1..HEADER_SIZE + 1 + nn];
      }
      if ahead {
        Lookahead(plain, count, rest, nn);
      }
    }

    /** The block in the buffer is sealed into p[lo..] as the next full package. */
    method SealInto(p: array<byte>, lo: nat, ghost data: seq<byte>) returns (ghost pkg: seq<byte>)
      requires p != buffer && lo + MAX_PACKAGE_SIZE <= p.Length
      requires Counted() && !ae.finalized && NextBlock(plain, count, data, src.rest)
      requires buffer[HEADER_SIZE..HEADER_SIZE + MAX_PAYLOAD_SIZE + 1] == data
      modifies this`count, this`lastByte, ae, p
      ensures Ready() && !ae.finalized
      ensures Done() == old(Done()) + pkg
      ensures |pkg| == MAX_PACKAGE_SIZE && p[..] == Splice(old(p[..]), lo, pkg)
    {
      hide Package, Sealed, Block, Stream, Splice, Ready, Broken;
      lastByte := buffer[HEADER_SIZE + MAX_PAYLOAD_SIZE];
      BlockParts(data);
      pkg := Package(ae.config, ae.seqNum, data[..MAX_PAYLOAD_SIZE], false);
      PackageSize(ae.config, ae.seqNum, data[..MAX_PAYLOAD_SIZE], false);
      ae.Seal(p, lo, buffer[HEADER_SIZE..HEADER_SIZE + MAX_PAYLOAD_SIZE], false);
      CountBlock(data);
    }

    /** The block and the byte behind it. */
    lemma BlockParts(data: seq<byte>)
      requires buffer.Length == MAX_PACKAGE_SIZE && |data| == MAX_PAYLOAD_SIZE + 1
      requires buffer[HEADER_SIZE..HEADER_SIZE + MAX_PAYLOAD_SIZE + 1] == data
      ensures buffer[HEADER_SIZE..HEADER_SIZE + MAX_PAYLOAD_SIZE] == data[..MAX_PAYLOAD_SIZE]
      ensures buffer[HEADER_SIZE + MAX_PAYLOAD_SIZE] == data[MAX_PAYLOAD_SIZE]
    {
      SliceParts(buffer, HEADER_SIZE, HEADER_SIZE + MAX_PAYLOAD_SIZE + 1, MAX_PAYLOAD_SIZE);
      assert data[MAX_PAYLOAD_SIZE] == buffer[HEADER_SIZE..HEADER_SIZE + MAX_PAYLOAD_SIZE + 1][MAX_PAYLOAD_SIZE];
    }

    /** The block is sealed: the source stands one byte past the start of the next one. */
    ghost method CountBlock(data: seq<byte>)
      requires ae.config.Valid() && buffer.Length == MAX_PACKAGE_SIZE && (src.tail == EOF || src.tail == ReadFailed)
      requires !firstRead && !ae.finalized && ae.seqNum == AddU32(first, count + 1)
      requires NextBlock(plain, count, data, src.rest) && lastByte == data[MAX_PAYLOAD_SIZE]
      modifies this`count
      ensures Ready() && Done() == old(Done()) + Package(ae.config, AddU32(first, old(count)), data[..MAX_PAYLOAD_SIZE], false)
    {
      hide Package, Sealed, Broken;
      SealedNext(ae.config, first, plain, count);
      count := count + 1;
    }

    /** The rest of the plaintext is in the buffer and is sealed into p[lo..] as the final package. */
    method SealFinalInto(p: array<byte>, lo: nat, size: nat) returns (ghost pkg: seq<byte>)
      requires p != buffer && lo + MAX_PACKAGE_SIZE <= p.Length
      requires Counted() && !ae.finalized && src.tail == EOF
      requires 1 <= size <= MAX_PAYLOAD_SIZE && count * MAX_PAYLOAD_SIZE < |plain|
      requires buffer[HEADER_SIZE..HEADER_SIZE + size] == plain[count * MAX_PAYLOAD_SIZE..]
      modifies ae, p
      ensures Ready() && ae.finalized
      ensures Done() == old(Done()) + pkg
      ensures |pkg| == size + 32 && p[..] == Splice(old(p[..]), lo, pkg)
    {
      hide Package, Sealed;
      ghost var last := buffer[HEADER_SIZE..HEADER_SIZE + size];
      pkg := Package(ae.config, ae.seqNum, last, true);
      PackageSize(ae.config, ae.seqNum, last, true);
      FinalSplit(ae.config, first, plain, count, last);
      ae.Seal(p, lo, buffer[HEADER_SIZE..HEADER_SIZE + size], true);
    }

    /** The block in the buffer is sealed where it lies. */
    method SealBuffer(ghost data: seq<byte>)
      requires Counted() && !ae.finalized && NextBlock(plain, count, data, src.rest)
      requires buffer[HEADER_SIZE..HEADER_SIZE + MAX_PAYLOAD_SIZE + 1] == data
      modifies this`count, this`lastByte, this`held, ae, buffer
      ensures Ready() && !ae.finalized && |held| == MAX_PACKAGE_SIZE
      ensures Length(buffer[..HEADER_SIZE]) + 32 == |held| && buffer[..|held|] == held
      ensures Done() == old(Done()) + held
    {
      hide Package, Sealed, Length, Broken, Ready;
      ghost var block := data[..MAX_PAYLOAD_SIZE];
      BlockParts(data);
      lastByte := buffer[HEADER_SIZE + MAX_PAYLOAD_SIZE];
      held := Package(ae.config, ae.seqNum, block, false);
      SealFull(block);
      CountBlock(data);
    }

    method SealFull(ghost block: seq<byte>)
      requires ae.config.Valid() && !ae.finalized && buffer.Length == MAX_PACKAGE_SIZE
      requires |block| == MAX_PAYLOAD_SIZE && buffer[HEADER_SIZE..HEADER_SIZE + MAX_PAYLOAD_SIZE] == block
      modifies ae, buffer
      ensures !ae.finalized && ae.seqNum == AddU32(old(ae.seqNum), 1)
      ensures buffer[..] == Package(ae.config, old(ae.seqNum), block, false)
      ensures buffer[..MAX_PACKAGE_SIZE] == buffer[..]
      ensures Length(buffer[..HEADER_SIZE]) == MAX_PAYLOAD_SIZE
    {
      hide Package;
      ghost var pkg := Package(ae.config, ae.seqNum, block, false);
      PackageSize(ae.config, ae.seqNum, block, false);
      PackageLength(ae.config, ae.seqNum, block, false);
      SpliceAll(buffer[..], pkg);
      ae.SealInPlace(buffer, MAX_PAYLOAD_SIZE, false);
      assert buffer[..HEADER_SIZE] == pkg[..HEADER_SIZE];
    }

    /** The rest of the plaintext is sealed where it lies. */
    method SealFinalBuffer(size: nat)
      requires Counted() && !ae.finalized && src.tail == EOF
      requires 1 <= size <= MAX_PAYLOAD_SIZE && count * MAX_PAYLOAD_SIZE < |plain|
      requires buffer[HEADER_SIZE..HEADER_SIZE + size] == plain[count * MAX_PAYLOAD_SIZE..]
      modifies this`held, ae, buffer
      ensures Ready() && ae.finalized && |held| == size + 32
      ensures Length(buffer[..HEADER_SIZE]) + 32 == |held| && buffer[..|held|] == held
      ensures Done() == old(Done()) + held
    {
      hide Package, Sealed;
      ghost var last := buffer[HEADER_SIZE..HEADER_SIZE + size];
      held := Package(ae.config, ae.seqNum, last, true);
      PackageSize(ae.config, ae.seqNum, last, true);
      PackageLength(ae.config, ae.seqNum, last, true);
      SplicePrefix(buffer[..], 0, held);
      FinalSplit(ae.config, first, plain, count, last);
      ae.SealInPlace(buffer, size, true);
      assert buffer[..|held|] == held;
      assert buffer[..HEADER_SIZE] == held[..HEADER_SIZE];
    }

    /** The package held in the buffer, of which the bytes from index `from` on are still to be delivered. */
    ghost predicate Holding(from: nat)
      reads this, ae, buffer
    {
      && |ae.config.rand| == 12 && count * MAX_PAYLOAD_SIZE <= |plain|
      && buffer.Length == MAX_PACKAGE_SIZE
      && 32 < |held| <= MAX_PACKAGE_SIZE && from <= |held|
      && Length(buffer[..HEADER_SIZE]) + 32 == |held| && buffer[..|held|] == held
      && Done() == out + held[from..]
    }

    /** Copies as many held bytes to p[lo..] as fit. */
    method CopyHeld(p: array<byte>, lo: nat, from: nat, ghost start: seq<byte>) returns (k: nat)
      requires Holding(from) && p != buffer && lo <= p.Length && out == start + p[..lo]
      modifies this`out, p
      ensures k == Min(p.Length - lo, |held| - from) && Holding(from + k)
      ensures out == start + p[..lo + k]
    {
      hide Package, Sealed, Stream, Done, Length;
      k := Min(p.Length - lo, Length(buffer[..HEADER_SIZE]) + 32 - from);
      ghost var piece := buffer[from..from + k];
      SliceOfStart(buffer, held, from, from + k);
      TailParts(held, from, k);
      SplicePrefix(p[..], lo, piece);
      Assoc(start, p[..lo], piece);
      Assoc(out, piece, held[from + k..]);
      Put(p, lo, buffer[from..from + k]);
      out := out + piece;
    }

    /** Delivers bytes of the package held in the buffer. */
    method DeliverHeld(p: array<byte>) returns (n: nat)
      requires Valid() && !firstRead && offset > 0 && p != buffer
      modifies this`offset, this`out, p
      ensures Valid() && (n == p.Length || offset == 0)
      ensures n <= p.Length && out == old(out) + p[..n]
    {
      hide Package, Sealed, Stream, Done;
      assert out == out + p[..0];
      var remaining := Length(buffer[..HEADER_SIZE]) + 32 - offset;
      n := CopyHeld(p, 0, offset, out);
      if p.Length < remaining {
        offset := offset + n;
      } else {
        assert held[|held|..] == [];
        offset := 0;
      }
    }

    lemma OutAfter(start: seq<byte>, was: seq<byte>, lo: nat, pkg: seq<byte>)
      requires lo + |pkg| <= |was|
      ensures (start + was[..lo]) + pkg == start + Splice(was, lo, pkg)[..lo + |pkg|]
    {
      hide Splice;
      SplicePrefix(was, lo, pkg);
      Assoc(start, was[..lo], pkg);
    }

    /** One turn of the loop: a whole package goes straight into p. */
    method ReadPackage(p: array<byte>, lo: nat, ghost start: seq<byte>) returns (k: nat, err: Err)
      requires Valid() && Ready() && offset == 0 && !ae.finalized
      requires p != buffer && lo + MAX_PACKAGE_SIZE <= p.Length && out == start + p[..lo]
      modifies this, ae, src, buffer, p
      ensures Valid() && !firstRead && offset == 0
      ensures lo + k <= p.Length && out == start + p[..lo + k]
      ensures err == Nil ==> k == MAX_PACKAGE_SIZE && Ready() && !ae.finalized
      ensures err != Nil ==> err == src.tail && (ae.finalized || Broken())
    {
      hide Package, Sealed, Stream, Broken, Length, EncConfig.Valid, Ahead, Splice;
      k := 0;
      ghost var data, pkg;
      var size;
      size, err, data := Fetch();
      if err != Nil && err != EOF && err != IoUnexpectedEOF {
        return;
      }
      if err == EOF || err == IoUnexpectedEOF {
        pkg := SealFinalInto(p, lo, size);
        k, err := HEADER_SIZE + TAG_SIZE + size, EOF;
      } else {
        pkg := SealInto(p, lo, data);
        k := MAX_PACKAGE_SIZE;
      }
      OutAfter(start, old(p[..]), lo, pkg);
      out := out + pkg;
    }

    /** Seals the next package in the buffer. */
    method SealNext() returns (err: Err)
      requires Valid() && Ready() && offset == 0 && !ae.finalized
      modifies this`count, this`lastByte, this`held, ae, src, buffer
      ensures Ready()
      ensures err == Nil ==> Holding(0) && |held| == MAX_PACKAGE_SIZE
      ensures err == EOF ==> Holding(0) && ae.finalized
      ensures err != Nil && err != EOF ==> err == src.tail && Broken() && Valid()
    {
      hide Package, Sealed, Stream;
      ghost var data;
      var size;
      size, err, data := Fetch();
      if err == EOF || err == IoUnexpectedEOF {
        SealFinalBuffer(size);
        err := EOF;
        assert held[0..] == held;
      } else if err == Nil {
        SealBuffer(data);
        assert held[0..] == held;
      }
    }

    /** The last turn: a package is sealed in the buffer and its first bytes fill p. */
    method ReadPart(p: array<byte>, lo: nat, ghost start: seq<byte>) returns (k: nat, err: Err)
      requires Valid() && Ready() && offset == 0 && !ae.finalized
      requires p != buffer && lo < p.Length < lo + MAX_PACKAGE_SIZE && out == start + p[..lo]
      modifies this, ae, src, buffer, p
      ensures Valid() && !firstRead
      ensures lo + k <= p.Length && out == start + p[..lo + k]
      ensures err == Nil ==> lo + k == p.Length
      ensures err != Nil ==> err == src.tail && offset == 0 && (ae.finalized || Broken())
    {
      hide Package, Sealed, Stream, Done, Broken, Length;
      err := SealNext();
      if err != Nil && err != EOF {
        return 0, err;
      }
      k := CopyHeld(p, lo, 0, start);
      if err == EOF && p.Length - lo > Length(buffer[..HEADER_SIZE]) + 32 {
        assert held[k..] == [];
        return;
      }
      err, offset := Nil, k;
    }

    /** The beginning of a Read: the first byte of the plaintext, or what is held of the last package. */
    method Begin(p: array<byte>) returns (n: nat, err: Err)
      requires Valid() && p != buffer
      modifies this, ae`finalized, src, buffer, p
      ensures Valid() && !firstRead && n <= p.Length && out == old(out) + p[..n]
      ensures err == Nil ==> n == p.Length || offset == 0
      ensures err != Nil ==> n == 0 && err == src.tail && out == Stream(ae.config, first, plain, src.tail)
    {
      hide Package, Sealed, Stream, Valid, Ready, Counted, Done;
      n, err := 0, Nil;
      assert out + p[..0] == out;
      if firstRead {
        err := ReadFirst();
        if err != Nil {
          return;
        }
      }
      if offset > 0 {
        n := DeliverHeld(p);
      }
    }

    method Read(p: array<byte>) returns (n: nat, err: Err)
      requires Valid() && p != buffer
      modifies this, ae, src, buffer, p
      ensures Valid()
      ensures n <= p.Length && out == old(out) + p[..n]
      ensures out <= Stream(ae.config, first, plain, src.tail)
      ensures err == Nil ==> n == p.Length
      ensures err != Nil ==> err == src.tail && out == Stream(ae.config, first, plain, src.tail)
    {
      hide Package, Sealed, Stream, Valid, Ready, Counted, Done, Broken;
      n, err := Begin(p);
      if err != Nil {
        return;
      }
      if offset > 0 {
        OutIsPrefix();
        return;
      }
      OutIsPrefix();
      if ae.finalized {
        return n, EOF;
      }
      var k;
      while p.Length - n >= MAX_PACKAGE_SIZE
        invariant Valid() && Ready() && !firstRead && offset == 0 && !ae.finalized
        invariant n <= p.Length && err == Nil && out == old(out) + p[..n]
      {
        k, err := ReadPackage(p, n, old(out));
        n := n + k;
        OutIsPrefix();
        if err != Nil {
          return;
        }
      }
      OutIsPrefix();
      if p.Length > n {
        k, err := ReadPart(p, n, old(out));
        n := n + k;
        OutIsPrefix();
      }
    }
  }

  /** A reader drained with buffers of any sizes delivers the canonical stream. */
  method EncryptDrain(config: EncConfig, seqNum: u32, src: Source) returns (out: seq<byte>, err: Err)
    requires config.Valid() && (src.tail == EOF || src.tail == ReadFailed)
    modifies src
    ensures out == Stream(config, seqNum, old(src.rest), src.tail) && err == src.tail
  {
    hide Stream, EncReaderV20.Valid, EncReaderV20.Done, EncReaderV20.Ready;
    var r := new EncReaderV20(config, seqNum, src);
    out, err := [], Nil;
    while err == Nil
      invariant r.Valid() && r.src == src && fresh(r) && fresh(r.ae) && fresh(r.buffer)
      invariant r.ae.config == config && r.first == seqNum && r.plain == old(src.rest)
      invariant out == r.out <= Stream(config, seqNum, old(src.rest), src.tail)
      invariant err != Nil ==> err == src.tail && out == Stream(config, seqNum, old(src.rest), src.tail)
      decreases |Stream(config, seqNum, old(src.rest), src.tail)| - |out|, err == Nil
    {
      var size: nat :| size > 0;
      var p := new byte[size];
      var n;
      n, err := r.Read(p);
      out := out + p[..n];
    }
  }

  /** data is the k-th full block and one more byte, and rest is what follows in p. */
  ghost predicate NextBlock(p: seq<byte>, k: nat, data: seq<byte>, rest: seq<byte>) {
    && (k + 1) * MAX_PAYLOAD_SIZE < |p| && |data| == MAX_PAYLOAD_SIZE + 1
    && data[..MAX_PAYLOAD_SIZE] == Block(p, k)
    && data[MAX_PAYLOAD_SIZE] == p[(k + 1) * MAX_PAYLOAD_SIZE]
    && rest == p[(k + 1) * MAX_PAYLOAD_SIZE + 1..]
  }

  /** One byte followed by nn more: a full block and its successor, or all that is left. */
  lemma Lookahead(p: seq<byte>, k: nat, rest: seq<byte>, nn: nat)
    requires k * MAX_PAYLOAD_SIZE < |p| && rest == p[k * MAX_PAYLOAD_SIZE + 1..] && nn <= |rest|
    ensures var t := [p[k * MAX_PAYLOAD_SIZE]] + rest[..nn];
            && (nn == |rest| ==> t == p[k * MAX_PAYLOAD_SIZE..])
            && (nn == MAX_PAYLOAD_SIZE ==> NextBlock(p, k, t, rest[nn..]))
  {
  }
}
