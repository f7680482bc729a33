/** encReaderV10 and decReaderV10: the io.Readers of DARE 1.0. */
module ReadersV10 {
  import opened Basics
  import opened Bytes
  import opened Io
  import opened Dare
  import opened DareV10

  /** Copies as much of s[from..to] as fits to p[lo..]. */
  method CopyOut(p: array<byte>, lo: nat, s: array<byte>, from: nat, to: nat) returns (k: nat)
    requires lo <= p.Length && from <= to <= s.Length && p != s
    modifies p
    ensures k == Min(p.Length - lo, to - from)
    ensures p[..lo + k] == old(p[..lo]) + s[from..from + k]
    ensures lo == 0 ==> p[..k] == s[from..from + k]
  {
    hide Splice;
    k := Min(p.Length - lo, to - from);
    ghost var piece := s[from..from + k];
    SplicePrefix(p[..], lo, piece);
    assert [] + piece == piece;
    Put(p, lo, s[from..from + k]);
  }

  class EncReaderV10 {
    const config: EncConfig10
    const src: Source
    const buffer: array<byte>
    var seqNum: u32
    var offset: nat

    /** While offset > 0 the buffer holds a package of which `offset` bytes are delivered. */
    ghost predicate Valid()
      reads this, src, buffer
    {
      && config.Valid() && buffer.Length == MAX_PACKAGE_SIZE
      && (src.tail == EOF || src.tail == ReadFailed)
      && (offset > 0 ==> offset <= HEADER_SIZE + Length(buffer[..HEADER_SIZE]) + TAG_SIZE <= MAX_PACKAGE_SIZE)
    }

    ghost function Held(): seq<byte>
      requires Valid()
      reads this, src, buffer
    {
      if offset == 0 then [] else buffer[offset..HEADER_SIZE + Length(buffer[..HEADER_SIZE]) + TAG_SIZE]
    }

    /** What this reader is going to deliver before it reports the end of its source. */
    ghost function Pending(): seq<byte>
      requires Valid()
      reads this, src, buffer
    {
      Held() + Stream10(config, seqNum, src.rest, src.tail)
    }

    constructor (config: EncConfig10, seqNum: u32, src: Source)
      requires config.Valid() && (src.tail == EOF || src.tail == ReadFailed)
      ensures Valid() && fresh(buffer) && this.src == src && this.config == config
      ensures Pending() == Stream10(config, seqNum, src.rest, src.tail)
    {
      this.config, this.src, this.seqNum, this.offset := config, src, seqNum, 0;
      this.buffer := new byte[MAX_PACKAGE_SIZE];
      new;
      assert [] + Stream10(config, seqNum, src.rest, src.tail) == Stream10(config, seqNum, src.rest, src.tail);
    }

    /** Seals dst[lo + 16..lo + 16 + size] where it lies, so that the package starts at lo. */
    method Seal(dst: array<byte>, lo: nat, size: nat)
      requires config.Valid() && 1 <= size <= MAX_PAYLOAD_SIZE && lo + size + 32 <= dst.Length
      modifies this`seqNum, dst
      ensures seqNum == AddU32(old(seqNum), 1)
      ensures var pkg := Package10(config, old(seqNum), old(dst[lo + 16..lo + 16 + size]));
              |pkg| == size + 32 && dst[..lo + size + 32] == old(dst[..lo]) + pkg && Length(pkg[..HEADER_SIZE]) == size
    {
      hide MakeHeader10, Aead.Lawful, Splice;
      ghost var was, data := dst[..], dst[lo + 16..lo + 16 + size];
      PackageLength10(config, seqNum, data);
      var header := MakeHeader10(config.suite, size, seqNum, config.rand);
      Put(dst, lo, header);
      SpliceOutside(was, lo, header, lo + 16, lo + 16 + size);
      assert dst[lo + 16..lo + 16 + size] == data;
      var sealed := config.aead.seal(config.suite, Nonce(header), AddData(header), dst[lo + 16..lo + 16 + size]);
      Put(dst, lo + HEADER_SIZE, sealed);
      SpliceTwice(was, lo, header, sealed);
      SplicePrefix(was, lo, header + sealed);
      seqNum := AddU32(seqNum, 1);
    }

    /** Reads the next payload into dst and seals it there, so that the package starts at lo. */
    method NextPackage(dst: array<byte>, lo: nat) returns (size: nat, err: Err, ghost pkg: seq<byte>)
      requires config.Valid() && (src.tail == EOF || src.tail == ReadFailed) && lo + config.payloadSize + 32 <= dst.Length
      modifies this`seqNum, src`rest, dst
      ensures dst[..lo] == old(dst[..lo])
      ensures err == Nil ==>
                && Stream10(config, old(seqNum), old(src.rest), src.tail) == pkg + Stream10(config, seqNum, src.rest, src.tail)
                && 32 < |pkg| == size <= config.payloadSize + 32
                && dst[..lo + size] == old(dst[..lo]) + pkg && Length(pkg[..HEADER_SIZE]) + 32 == size
      ensures err != Nil ==> err == src.tail && Stream10(config, old(seqNum), old(src.rest), src.tail) == []
    {
      hide Package10, Splice, Stream10, Length, Aead.Lawful;
      ghost var all, was := src.rest, dst[..];
      size, pkg := 0, [];
      var nn;
      nn, err := src.ReadFull(dst, lo + HEADER_SIZE, lo + HEADER_SIZE + config.payloadSize);
      SpliceWindow(was, lo + HEADER_SIZE, all[..nn]);
      SpliceOutside(was, lo + HEADER_SIZE, all[..nn], 0, lo);
      assert dst[..lo] == was[..lo] && dst[lo + 16..lo + 16 + nn] == all[..nn];
      StreamNext10(config, seqNum, all, src.tail);
      if err != Nil && err != IoUnexpectedEOF {
        return;
      }
      err := Nil;
      pkg := Package10(config, seqNum, all[..nn]);
      Seal(dst, lo, nn);
      size := nn + 32;
      assert dst[..lo] == dst[..lo + size][..lo];
    }

    /** Delivers bytes of the package sealed earlier. */
    method DeliverHeld(p: array<byte>) returns (n: nat)
      requires Valid() && offset > 0 && p != buffer
      modifies this`offset, p
      ensures Valid() && n <= p.Length && (n == p.Length || offset == 0)
      ensures old(Pending()) == p[..n] + Pending()
    {
      hide Stream10, Length;
      ghost var held, later := Held(), Stream10(config, seqNum, src.rest, src.tail);
      var end := HEADER_SIZE + Length(buffer[..HEADER_SIZE]) + TAG_SIZE;
      n := CopyOut(p, 0, buffer, offset, end);
      SliceParts(buffer, offset, end, n);
      assert p[..n] == held[..n];
      Assoc(held[..n], held[n..], later);
      offset := if p.Length < end - offset then offset + n else 0;
      assert Held() == held[n..];
    }

    /** One Read. The calls deliver the stream of the source's bytes piece by piece, then its error. */
    method Read(p: array<byte>) returns (n: nat, err: Err)
      requires Valid() && p != buffer
      modifies this`seqNum, this`offset, src`rest, buffer, p
      ensures Valid() && n <= p.Length
      ensures err == Nil ==> old(Pending()) == p[..n] + Pending() && (p.Length > 0 ==> n > 0)
      ensures err != Nil ==> err == src.tail && old(Pending()) == p[..n]
    {
      hide Stream10, Pending, Length;
      n, err := 0, Nil;
      ghost var all := Pending();
      assert p[..0] + all == all;
      if offset > 0 {
        n := DeliverHeld(p);
        if offset > 0 {
          return;
        }
      }
      while p.Length - n >= HEADER_SIZE + config.payloadSize + TAG_SIZE
        invariant Valid() && offset == 0 && n <= p.Length && err == Nil
        invariant all == p[..n] + Pending()
        decreases p.Length - n
      {
        var size;
        size, err := ReadWhole(p, n, all);
        if err != Nil {
          return;
        }
        n := n + size;
      }
      if p.Length > n {
        var k;
        k, err := ReadPart(p, n, all);
        n := n + k;
      }
    }

    /** One turn of the loop: a package is sealed straight into p. */
    method ReadWhole(p: array<byte>, lo: nat, ghost all: seq<byte>) returns (size: nat, err: Err)
      requires Valid() && offset == 0 && p != buffer && lo + config.payloadSize + 32 <= p.Length && all == p[..lo] + Pending()
      modifies this`seqNum, src`rest, p
      ensures Valid() && lo + size <= p.Length
      ensures err == Nil ==> all == p[..lo + size] + Pending() && size > 0
      ensures err != Nil ==> err == src.tail && all == p[..lo]
    {
      hide Stream10;
      ghost var before := p[..lo];
      ghost var pkg;
      size, err, pkg := NextPackage(p, lo);
      assert before + [] == before;
      if err != Nil {
        size := 0;
        return;
      }
      ghost var later := Stream10(config, seqNum, src.rest, src.tail);
      assert [] + (pkg + later) == pkg + later && [] + later == later;
      Assoc(before, pkg, later);
    }

    /** The end of a Read: a package is sealed in the buffer, and as much of it as fits is delivered. */
    method ReadPart(p: array<byte>, lo: nat, ghost all: seq<byte>) returns (k: nat, err: Err)
      requires Valid() && offset == 0 && p != buffer && lo < p.Length && all == p[..lo] + Pending()
      modifies this`seqNum, this`offset, src`rest, buffer, p
      ensures Valid() && lo + k <= p.Length
      ensures err == Nil ==> all == p[..lo + k] + Pending() && k > 0
      ensures err != Nil ==> k == 0 && err == src.tail && all == p[..lo]
    {
      hide Stream10, Pending, Held, Length;
      k := 0;
      ghost var before := p[..lo];
      AllPending();
      var size;
      ghost var pkg;
      size, err, pkg := NextPackage(buffer, 0);
      assert before + [] == before;
      if err != Nil {
        return;
      }
      ghost var later := Stream10(config, seqNum, src.rest, src.tail);
      assert buffer[..0 + size] == pkg;
      k := DeliverFirst(p, lo, size, pkg);
      SplitHeld(before, pkg, k, later);
    }

    /** What is pending while nothing is held. */
    lemma AllPending()
      requires Valid() && offset == 0
      ensures Pending() == Stream10(config, seqNum, src.rest, src.tail)
    {
      assert [] + Stream10(config, seqNum, src.rest, src.tail) == Stream10(config, seqNum, src.rest, src.tail);
    }

    /** Delivers as much of the package in the buffer as fits, and holds the rest. */
    method DeliverFirst(p: array<byte>, lo: nat, size: nat, ghost pkg: seq<byte>) returns (k: nat)
      requires Valid() && offset == 0 && p != buffer && lo < p.Length
      requires 32 < |pkg| == size <= MAX_PACKAGE_SIZE && buffer[..size] == pkg && Length(pkg[..HEADER_SIZE]) + 32 == size
      modifies this`offset, p
      ensures Valid() && 0 < k <= size && lo + k <= p.Length
      ensures p[..lo + k] == old(p[..lo]) + pkg[..k]
      ensures Pending() == pkg[k..] + Stream10(config, seqNum, src.rest, src.tail)
    {
      hide Stream10, Splice, Length;
      assert buffer[..HEADER_SIZE] == pkg[..HEADER_SIZE];
      k := CopyOut(p, lo, buffer, 0, size);
      SliceOfStart(buffer, pkg, 0, k);
      SliceOfStart(buffer, pkg, k, size);
      offset := k;
      assert Held() == pkg[k..];
    }
  }

  lemma SplitHeld(before: seq<byte>, pkg: seq<byte>, k: nat, later: seq<byte>)
    requires k <= |pkg|
    ensures before + (pkg + later) == (before + pkg[..k]) + (pkg[k..] + later)
  {
    assert pkg == pkg[..k] + pkg[k..];
  }

  /** A reader drained with buffers of any sizes delivers the canonical stream, then the source's error. */
  method EncryptDrain10(config: EncConfig10, seqNum: u32, src: Source) returns (out: seq<byte>, err: Err)
    requires config.Valid() && (src.tail == EOF || src.tail == ReadFailed)
    modifies src`rest
    ensures out == Stream10(config, seqNum, old(src.rest), src.tail) && err == src.tail
  {
    hide Stream10, EncReaderV10.Pending, EncReaderV10.Valid, Aead.Lawful;
    var r := new EncReaderV10(config, seqNum, src);
    ghost var all := r.Pending();
    out, err := [], Nil;
    assert [] + all == all;
    while err == Nil
      invariant r.Valid() && r.src == src && fresh(r) && fresh(r.buffer)
      invariant if err == Nil then all == out + r.Pending() else all == out && err == src.tail
      decreases err == Nil, |r.Pending()|
    {
      var size: nat :| size > 0;
      var p := new byte[size];
      ghost var before := out;
      var n;
      n, err := r.Read(p);
      out := out + p[..n];
      if err == Nil {
        Assoc(before, p[..n], r.Pending());
      }
    }
  }

  class DecReaderV10 {
    const config: DecConfig
    const src: Source
    const buffer: array<byte>
    var seqNum: u32
    var offset: nat

    ghost predicate Valid()
      reads this, src, buffer
    {
      && config.aead.Lawful() && buffer.Length == MAX_PACKAGE_SIZE
      && (src.tail == EOF || src.tail == ReadFailed)
      && (offset > 0 ==> offset <= Length(buffer[..HEADER_SIZE]) <= MAX_PAYLOAD_SIZE)
    }

    /** The opened plaintext not yet delivered. */
    ghost function Held(): seq<byte>
      requires Valid()
      reads this, src, buffer
    {
      if offset == 0 then [] else buffer[HEADER_SIZE + offset..HEADER_SIZE + Length(buffer[..HEADER_SIZE])]
    }

    /** What this reader is going to deliver, and the error that ends it. */
    ghost function Pending(): Decoded<Err>
      requires Valid()
      reads this, src, buffer
    {
      Decode10(config, seqNum, src.rest, src.tail).After(Held())
    }

    constructor (config: DecConfig, seqNum: u32, src: Source)
      requires config.aead.Lawful() && (src.tail == EOF || src.tail == ReadFailed)
      ensures Valid() && fresh(buffer) && this.src == src && this.config == config
      ensures Pending() == Decode10(config, seqNum, src.rest, src.tail)
    {
      this.config, this.src, this.seqNum, this.offset := config, src, seqNum, 0;
      this.buffer := new byte[MAX_PACKAGE_SIZE];
      new;
      AfterNothing(Decode10(config, seqNum, src.rest, src.tail));
    }

    /** readPackage: the header says how many bytes follow. */
    method ReadPackage() returns (size: nat, err: Err)
      requires Valid() && offset == 0
      modifies src`rest, buffer
      ensures var s := old(src.rest);
              && (err == Nil ==>
                    && HEADER_SIZE <= |s| && size == PackageSize10(s) <= |s| && size <= MAX_PACKAGE_SIZE
                    && buffer[..size] == s[..size] && src.rest == s[size..])
              && (err != Nil ==> Decode10(config, seqNum, s, src.tail) == Decoded([], err))
    {
      hide Open10, Decode10, AddU32, Decoded.After, Splice, Aead.Lawful, PackageSize10, Length;
      ghost var s := src.rest;
      size, err := ReadHeader();
      if err != Nil {
        return;
      }
      ghost var rest, now := src.rest, buffer[..];
      var nn;
      nn, err := src.ReadFull(buffer, HEADER_SIZE, size);
      DecodeShort10(config, seqNum, s, src.tail);
      if err == EOF || err == IoUnexpectedEOF {
        return 0, InvalidPayloadSize;
      }
      if err != Nil {
        return;
      }
      SplicePrefix(now, HEADER_SIZE, rest[..nn]);
      assert s[..size] == s[..HEADER_SIZE] + rest[..nn];
    }

    /** Reads the header and learns the size of its package. */
    method ReadHeader() returns (size: nat, err: Err)
      requires Valid() && offset == 0
      modifies src`rest, buffer
      ensures var s := old(src.rest);
              && (err == Nil ==>
                    && HEADER_SIZE <= |s| && size == PackageSize10(s) && HEADER_SIZE < size <= MAX_PACKAGE_SIZE
                    && buffer[..HEADER_SIZE] == s[..HEADER_SIZE] && src.rest == s[HEADER_SIZE..])
              && (err != Nil ==> Decode10(config, seqNum, s, src.tail) == Decoded([], err))
    {
      hide Open10, Decode10, Decoded.After, Splice, Aead.Lawful;
      size := 0;
      ghost var s, was := src.rest, buffer[..];
      DecodeShort10(config, seqNum, s, src.tail);
      var nn;
      nn, err := src.ReadFull(buffer, 0, HEADER_SIZE);
      if err == IoUnexpectedEOF {
        return 0, InvalidPayloadSize;
      }
      if err != Nil {
        return;
      }
      SplicePrefix(was, 0, s[..nn]);
      assert buffer[..HEADER_SIZE] == s[..HEADER_SIZE];
      size := HEADER_SIZE + Length(buffer[..HEADER_SIZE]) + TAG_SIZE;
    }

    /** Reads the next package into the buffer and opens it. */
    method NextPackage() returns (payload: seq<byte>, err: Err)
      requires Valid() && offset == 0
      modifies this`seqNum, src`rest, buffer
      ensures Valid()
      ensures err == Nil ==>
                && 1 <= |payload| <= MAX_PAYLOAD_SIZE && Length(buffer[..HEADER_SIZE]) == |payload|
                && old(Pending()) == Decode10(config, seqNum, src.rest, src.tail).After(payload)
      ensures err != Nil ==> old(Pending()) == Decoded([], err)
    {
      hide Open10;
      payload := [];
      ghost var s := src.rest;
      AfterNothing(Decode10(config, seqNum, s, src.tail));
      var size;
      size, err := ReadPackage();
      if err != Nil {
        return;
      }
      assert buffer[..size][..HEADER_SIZE] == buffer[..HEADER_SIZE] == s[..HEADER_SIZE];
      OpenedSize10(config, seqNum, buffer[..size]);
      var r := Open10(config, seqNum, buffer[..size]);
      if r.Failed? {
        return [], r.err;
      }
      seqNum := AddU32(seqNum, 1);
      payload := r.payload;
    }

    method DeliverHeld(p: array<byte>) returns (n: nat)
      requires Valid() && offset > 0 && p != buffer
      modifies this`offset, p
      ensures Valid() && n <= p.Length && (n == p.Length || offset == 0)
      ensures old(Pending()) == Pending().After(p[..n])
    {
      hide Open10, Decode10, Length, Decoded.After, Aead.Lawful;
      ghost var all, held := Decode10(config, seqNum, src.rest, src.tail), Held();
      var length := Length(buffer[..HEADER_SIZE]);
      n := CopyOut(p, 0, buffer, HEADER_SIZE + offset, HEADER_SIZE + length);
      SliceParts(buffer, HEADER_SIZE + offset, HEADER_SIZE + length, n);
      assert p[..n] == held[..n];
      AfterAfter(all, held[..n], held[n..]);
      offset := if p.Length < length - offset then offset + n else 0;
      assert Held() == held[n..];
    }

    /** One Read: it delivers the next part of what the ciphertext means, then its error. */
    method Read(p: array<byte>) returns (n: nat, err: Err)
      requires Valid() && p != buffer
      modifies this`seqNum, this`offset, src`rest, buffer, p
      ensures n <= p.Length
      ensures err == Nil ==> Valid() && old(Pending()) == Pending().After(p[..n]) && (p.Length > 0 ==> n > 0)
      ensures err != Nil ==> old(Pending()) == Decoded(p[..n], err)
    {
      hide Open10, Decode10, Pending, Length, Decoded.After, Fed10.After, Valid, Cipher;
      n, err := 0, Nil;
      ghost var all := Pending();
      AfterNothing(all);
      assert p[..0] == [];
      if offset > 0 {
        n := DeliverHeld(p);
        if offset > 0 {
          return;
        }
      }
      while p.Length - n >= MAX_PAYLOAD_SIZE
        invariant Valid() && offset == 0 && n <= p.Length && err == Nil
        invariant all == Pending().After(p[..n])
        decreases p.Length - n
      {
        var size;
        size, err := ReadWhole(p, n, all);
        if err != Nil {
          return;
        }
        n := n + size;
      }
      if p.Length > n {
        var k;
        k, err := ReadPart(p, n, all);
        n := n + k;
      }
    }

    /** One turn of the loop: a package is opened straight into p. */
    method ReadWhole(p: array<byte>, lo: nat, ghost all: Decoded<Err>) returns (size: nat, err: Err)
      requires Valid() && offset == 0 && p != buffer && lo + MAX_PAYLOAD_SIZE <= p.Length && all == Pending().After(p[..lo])
      modifies this`seqNum, src`rest, buffer, p
      ensures lo + size <= p.Length
      ensures err == Nil ==> Valid() && all == Pending().After(p[..lo + size]) && size > 0
      ensures err != Nil ==> all == Decoded(p[..lo], err)
    {
      hide Open10, Decode10;
      size := 0;
      ghost var before := p[..lo];
      var payload;
      payload, err := NextPackage();
      assert before + [] == before;
      if err != Nil {
        return;
      }
      ghost var later := Decode10(config, seqNum, src.rest, src.tail);
      AfterNothing(later);
      AfterAfter(later, before, payload);
      SplicePrefix(p[..], lo, payload);
      Put(p, lo, payload);
      size := |payload|;
    }

    /** The end of a Read: a package is opened in the buffer and delivered as far as it fits. */
    method ReadPart(p: array<byte>, lo: nat, ghost all: Decoded<Err>) returns (k: nat, err: Err)
      requires Valid() && offset == 0 && p != buffer && lo < p.Length && all == Pending().After(p[..lo])
      modifies this`seqNum, this`offset, src`rest, buffer, p
      ensures lo + k <= p.Length
      ensures err == Nil ==> Valid() && all == Pending().After(p[..lo + k]) && k > 0
      ensures err != Nil ==> k == 0 && all == Decoded(p[..lo], err)
    {
      hide Open10, Decode10, Pending, Held, Length;
      k := 0;
      ghost var before := p[..lo];
      var payload;
      AllPending();
      payload, err := NextPackage();
      AllPending();
      if err != Nil {
        assert before + [] == before;
        return;
      }
      ghost var later := Decode10(config, seqNum, src.rest, src.tail);
      HoldPayload(payload);
      k := DeliverFirst(p, lo, payload);
      AfterParts(later, before, payload, k);
    }

    /** What is pending while nothing is held. */
    lemma AllPending()
      requires Valid() && offset == 0
      ensures Pending() == Decode10(config, seqNum, src.rest, src.tail)
    {
      AfterNothing(Decode10(config, seqNum, src.rest, src.tail));
    }

    /** Delivers as much of the payload in the buffer as fits, and holds the rest. */
    method DeliverFirst(p: array<byte>, lo: nat, ghost payload: seq<byte>) returns (k: nat)
      requires Valid() && offset == 0 && p != buffer && lo < p.Length
      requires 1 <= |payload| <= MAX_PAYLOAD_SIZE && Length(buffer[..HEADER_SIZE]) == |payload|
      requires buffer[HEADER_SIZE..HEADER_SIZE + |payload|] == payload
      modifies this`offset, p
      ensures Valid() && 0 < k <= |payload| && lo + k <= p.Length
      ensures p[..lo + k] == old(p[..lo]) + payload[..k]
      ensures Pending() == Decode10(config, seqNum, src.rest, src.tail).After(payload[k..])
    {
      hide Open10, Decode10, Splice, Length;
      k := CopyOut(p, lo, buffer, HEADER_SIZE, HEADER_SIZE + Length(buffer[..HEADER_SIZE]));
      SliceParts(buffer, HEADER_SIZE, HEADER_SIZE + |payload|, k);
      offset := k;
      assert Held() == payload[k..];
    }

    /** Puts an opened payload behind the header of its package. */
    method HoldPayload(payload: seq<byte>)
      requires buffer.Length == MAX_PACKAGE_SIZE && |payload| <= MAX_PAYLOAD_SIZE
      modifies buffer
      ensures buffer[..HEADER_SIZE] == old(buffer[..HEADER_SIZE])
      ensures buffer[HEADER_SIZE..HEADER_SIZE + |payload|] == payload
    {
      SpliceWindow(buffer[..], HEADER_SIZE, payload);
      SpliceOutside(buffer[..], HEADER_SIZE, payload, 0, HEADER_SIZE);
      ghost var header := buffer[..HEADER_SIZE];
      Put(buffer, HEADER_SIZE, payload);
      assert buffer[..HEADER_SIZE] == header;
    }
  }

  /** A reader drained with buffers of any sizes delivers what the ciphertext means. */
  method DecryptDrain10(config: DecConfig, seqNum: u32, src: Source) returns (out: seq<byte>, err: Err)
    requires config.aead.Lawful() && (src.tail == EOF || src.tail == ReadFailed)
    modifies src`rest
    ensures Decoded(out, err) == Decode10(config, seqNum, old(src.rest), src.tail)
  {
    hide Open10, Decode10, DecReaderV10.Pending;
    var r := new DecReaderV10(config, seqNum, src);
    ghost var all := r.Pending();
    out, err := [], Nil;
    AfterNothing(all);
    while err == Nil
      invariant r.src == src && fresh(r) && fresh(r.buffer)
      invariant if err == Nil then r.Valid() && all == r.Pending().After(out) else all == Decoded(out, err)
      decreases err == Nil, if err == Nil then |r.Pending().plain| else 0
    {
      var size: nat :| size > 0;
      var p := new byte[size];
      ghost var before := out;
      var n;
      n, err := r.Read(p);
      out := out + p[..n];
      if err == Nil {
        AfterAfter(r.Pending(), before, p[..n]);
      }
    }
  }
}
