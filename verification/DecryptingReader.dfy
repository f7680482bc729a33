/** decReaderV20: the decrypting io.Reader of DARE 2.0, on any ciphertext. */
module DecryptingReader {
  import opened Bytes
  import opened Io
  import opened Dare

  class DecReaderV20 {
    const config: DecConfig
    var ad: DecState
    const src: Source
    const buffer: array<byte>
    var offset: nat

    /** While offset > 0 the buffer holds an opened package of which a part is still to be delivered. */
    ghost predicate Valid()
      reads this, src, buffer
    {
      && config.aead.Lawful() && buffer.Length == MAX_PACKAGE_SIZE
      && (src.tail == EOF || src.tail == ReadFailed)
      && (offset > 0 ==> offset < Length(buffer[..HEADER_SIZE]) <= MAX_PAYLOAD_SIZE)
    }

    /** The opened plaintext not yet delivered. */
    ghost function Held(): seq<byte>
      requires Valid()
      reads this, src, buffer
    {
      if offset == 0 then [] else buffer[HEADER_SIZE + offset..HEADER_SIZE + Length(buffer[..HEADER_SIZE])]
    }

    /** What this reader is going to deliver, and the error that ends it. */
    ghost function Pending(): Decoded<Err>
      requires Valid()
      reads this, src, buffer
    {
      Decode(config, ad, src.rest, src.tail).After(Held())
    }

    constructor (config: DecConfig, seqNum: u32, src: Source)
      requires config.aead.Lawful() && (src.tail == EOF || src.tail == ReadFailed)
      ensures Valid() && fresh(buffer) && this.src == src && this.config == config
      ensures Pending() == Decode(config, Start(seqNum), src.rest, src.tail)
    {
      this.config := config;
      this.ad := Start(seqNum);
      this.src := src;
      this.buffer := new byte[MAX_PACKAGE_SIZE];
      this.offset := 0;
      new;
      assert [] + Decode(config, Start(seqNum), src.rest, src.tail).plain
          == Decode(config, Start(seqNum), src.rest, src.tail).plain;
    }

    /** Reads the next package into the buffer and opens it. */
    method NextPackage() returns (payload: seq<byte>, err: Err)
      requires Valid() && offset == 0
      modifies this`ad, src, buffer
      ensures Valid()
      ensures err == Nil ==>
                && 1 <= |payload| <= MAX_PAYLOAD_SIZE && Length(buffer[..HEADER_SIZE]) == |payload|
                && old(Pending()) == Decode(config, ad, src.rest, src.tail).After(payload)
                && (|payload| < MAX_PAYLOAD_SIZE ==> ad.finalized)
      ensures err != Nil ==> payload == [] && old(Pending()) == Decoded([], err)
    {
      hide Open, Length, Splice;
      payload := [];
      ghost var s, was := src.rest, buffer[..];
      assert [] + Decode(config, ad, s, src.tail).plain == Decode(config, ad, s, src.tail).plain;
      var nn;
      nn, err := src.ReadFull(buffer, 0, MAX_PACKAGE_SIZE);
      SplicePrefix(was, 0, s[..nn]);
      if err == EOF && !ad.finalized {
        return [], UnexpectedEOF;
      }
      if err != Nil && err != IoUnexpectedEOF {
        return [], err;
      }
      assert buffer[..nn] == s[..nn];
      var (st, r) := Open(config, ad, buffer[..nn]);
      OpenedSize(config, ad, buffer[..nn]);
      OpenErrors(config, ad, buffer[..nn]);
      ad := st;
      if r.Failed? {
        return [], r.err;
      }
      err, payload := Nil, r.payload;
      assert buffer[..nn][..HEADER_SIZE] == buffer[..HEADER_SIZE];
    }

    /** Copies payload bytes from index `from` on to p[lo..], as many as fit. */
    method CopyPayload(p: array<byte>, lo: nat, from: nat) returns (k: nat)
      requires Valid() && p != buffer && lo <= p.Length
      requires from <= Length(buffer[..HEADER_SIZE]) <= MAX_PAYLOAD_SIZE
      modifies p
      ensures k == Min(p.Length - lo, Length(buffer[..HEADER_SIZE]) - from)
      ensures p[..lo + k] == old(p[..lo]) + buffer[HEADER_SIZE + from..HEADER_SIZE + from + k]
      ensures lo == 0 ==> p[..k] == buffer[HEADER_SIZE + from..HEADER_SIZE + from + k]
    {
      hide Splice, Length;
      k := Min(p.Length - lo, Length(buffer[..HEADER_SIZE]) - from);
      ghost var piece := buffer[HEADER_SIZE + from..HEADER_SIZE + from + k];
      SplicePrefix(p[..], lo, piece);
      assert [] + piece == piece;
      Put(p, lo, buffer[HEADER_SIZE + from..HEADER_SIZE + from + k]);
    }

    /** What is pending while a part of a package is held. */
    lemma HeldPending()
      requires Valid() && offset > 0
      ensures Pending() == Decode(config, ad, src.rest, src.tail)
                             .After(buffer[HEADER_SIZE + offset..HEADER_SIZE + Length(buffer[..HEADER_SIZE])])
    {
      hide Open, Decode;
    }

    /** Delivers bytes of the package opened earlier. */
    method DeliverHeld(p: array<byte>) returns (n: nat)
      requires Valid() && offset > 0 && p != buffer
      modifies this`offset, p
      ensures Valid() && n <= p.Length && (n == p.Length || offset == 0) && (p.Length > 0 ==> n > 0)
      ensures old(Pending()) == Pending().After(p[..n])
    {
      hide Open, Decode, Decoded.After, Length, Aead.Lawful, Pending, Held;
      ghost var all := Decode(config, ad, src.rest, src.tail);
      var length := Length(buffer[..HEADER_SIZE]);
      ghost var held := buffer[HEADER_SIZE + offset..HEADER_SIZE + length];
      HeldPending();
      n := CopyPayload(p, 0, offset);
      SliceParts(buffer, HEADER_SIZE + offset, HEADER_SIZE + length, n);
      AfterAfter(all, held[..n], held[n..]);
      if p.Length < length - offset {
        offset := offset + n;
        HeldPending();
      } else {
        offset := 0;
        AllPending();
        AfterNothing(all);
      }
    }

    method Read(p: array<byte>) returns (n: nat, err: Err)
      requires Valid() && p != buffer
      modifies this`ad, this`offset, src, buffer, p
      ensures Valid() && n <= p.Length
      ensures err == Nil ==> old(Pending()) == Pending().After(p[..n])
      ensures err == Nil && n < p.Length ==> Pending().plain == []
      ensures err == Nil && p.Length > 0 ==> n > 0
      ensures err != Nil ==> n < p.Length
      ensures err != Nil ==> old(Pending()) == Decoded(p[..n], err)
    {
      hide Open, Decode, Pending, Decoded.After, Valid;
      n, err := 0, Nil;
      ghost var all := Pending();
      AfterNothing(all);
      assert p[..0] == [];
      if offset > 0 {
        n := DeliverHeld(p);
        if offset > 0 {
          return;
        }
      }
      while p.Length - n >= MAX_PAYLOAD_SIZE
        invariant Valid() && offset == 0 && n <= p.Length && err == Nil
        invariant all == Pending().After(p[..n])
        decreases p.Length - n
      {
        var k;
        k, err := ReadPackage(p, n, all);
        n := n + k;
        if err != Nil {
          return;
        }
      }
      if p.Length > n {
        var k;
        k, err := ReadPart(p, n, all);
        n := n + k;
      }
    }

    /** One turn of the loop: a package is opened straight into p. */
    method ReadPackage(p: array<byte>, lo: nat, ghost all: Decoded<Err>) returns (k: nat, err: Err)
      requires Valid() && offset == 0 && p != buffer && lo + MAX_PAYLOAD_SIZE <= p.Length
      requires all == Pending().After(p[..lo])
      modifies this`ad, src, buffer, p
      ensures Valid() && lo + k <= p.Length
      ensures err == Nil ==> k > 0 && all == Pending().After(p[..lo + k])
      ensures err != Nil ==> k == 0 && all == Decoded(p[..lo], err)
    {
      hide Open, Decode;
      ghost var start := p[..lo];
      var payload;
      payload, err := NextPackage();
      assert p[..lo] == start;
      if err != Nil {
        return 0, err;
      }
      k := |payload|;
      SplicePrefix(p[..], lo, payload);
      AfterAfter(Decode(config, ad, src.rest, src.tail), start, payload);
      AfterNothing(Decode(config, ad, src.rest, src.tail));
      Put(p, lo, payload);
    }

    /** The last turn: a package is opened in the buffer and its first bytes fill p. */
    method ReadPart(p: array<byte>, lo: nat, ghost all: Decoded<Err>) returns (k: nat, err: Err)
      requires Valid() && offset == 0 && p != buffer && lo < p.Length < lo + MAX_PAYLOAD_SIZE
      requires all == Pending().After(p[..lo])
      modifies this`ad, this`offset, src, buffer, p
      ensures Valid() && lo + k <= p.Length
      ensures err == Nil ==> all == Pending().After(p[..lo + k])
      ensures err == Nil && lo + k < p.Length ==> Pending().plain == []
      ensures err == Nil ==> k > 0
      ensures err != Nil ==> k == 0 && all == Decoded(p[..lo], err)
    {
      hide Open, Decode, Splice, Pending, Held, Length;
      ghost var start := p[..lo];
      ghost var payload;
      payload, err := OpenInPlace();
      assert p[..lo] == start;
      AllPending();
      if err != Nil {
        return 0, err;
      }
      ghost var rest := Decode(config, ad, src.rest, src.tail);
      k := DeliverFirst(p, lo, payload);
      AfterParts(rest, start, payload, k);
    }

    /** What is pending while nothing is held. */
    lemma AllPending()
      requires Valid() && offset == 0
      ensures Pending() == Decode(config, ad, src.rest, src.tail)
    {
      AfterNothing(Decode(config, ad, src.rest, src.tail));
    }

    /** Delivers as much of the payload in the buffer as fits, and holds the rest. */
    method DeliverFirst(p: array<byte>, lo: nat, ghost payload: seq<byte>) returns (k: nat)
      requires Valid() && offset == 0 && p != buffer && lo < p.Length
      requires 1 <= |payload| <= MAX_PAYLOAD_SIZE && Length(buffer[..HEADER_SIZE]) == |payload|
      requires buffer[HEADER_SIZE..HEADER_SIZE + |payload|] == payload
      modifies this`offset, p
      ensures Valid() && 0 < k <= |payload| && lo + k <= p.Length && (lo + k < p.Length ==> k == |payload|)
      ensures p[..lo + k] == old(p[..lo]) + payload[..k]
      ensures Pending() == Decode(config, ad, src.rest, src.tail).After(payload[k..])
    {
      hide Open, Decode, Splice, Length;
      k := CopyPayload(p, lo, 0);
      SliceParts(buffer, HEADER_SIZE, HEADER_SIZE + |payload|, k);
      if p.Length - lo < Length(buffer[..HEADER_SIZE]) {
        offset := k;
      }
      assert Held() == payload[k..];
    }

    /** Reads and opens the next package, leaving its payload behind the header. */
    method OpenInPlace() returns (ghost payload: seq<byte>, err: Err)
      requires Valid() && offset == 0
      modifies this`ad, src, buffer
      ensures Valid()
      ensures err == Nil ==>
                && 1 <= |payload| <= MAX_PAYLOAD_SIZE && Length(buffer[..HEADER_SIZE]) == |payload|
                && buffer[HEADER_SIZE..HEADER_SIZE + |payload|] == payload
                && old(Pending()) == Decode(config, ad, src.rest, src.tail).After(payload)
                && (|payload| < MAX_PAYLOAD_SIZE ==> Decode(config, ad, src.rest, src.tail).plain == [])
      ensures err != Nil ==> old(Pending()) == Decoded([], err)
    {
      hide Open, Decode;
      var m;
      m, err := NextPackage();
      payload := m;
      if err == Nil {
        if |m| < MAX_PAYLOAD_SIZE {
          DecodeFinalized(config, ad, src.rest, src.tail);
        }
        HoldPayload(m);
      }
    }

    /** Opening in place leaves the payload behind the header. */
    method HoldPayload(payload: seq<byte>)
      requires Valid() && Length(buffer[..HEADER_SIZE]) == |payload| <= MAX_PAYLOAD_SIZE
      modifies buffer
      ensures buffer[..HEADER_SIZE] == old(buffer[..HEADER_SIZE])
      ensures buffer[HEADER_SIZE..HEADER_SIZE + |payload|] == payload
    {
      hide Length, Aead.Lawful, Splice;
      SpliceWindow(buffer[..], HEADER_SIZE, payload);
      SpliceOutside(buffer[..], HEADER_SIZE, payload, 0, HEADER_SIZE);
      ghost var was := buffer[..];
      Put(buffer, HEADER_SIZE, payload);
      assert buffer[..HEADER_SIZE] == buffer[..][0..HEADER_SIZE] == was[0..HEADER_SIZE];
    }
  }

  /** A reader drained with buffers of any sizes releases exactly what the ciphertext means,
      and ends with the error that Decode names. */
  method DecryptDrain(config: DecConfig, seqNum: u32, src: Source) returns (out: seq<byte>, err: Err)
    requires config.aead.Lawful() && (src.tail == EOF || src.tail == ReadFailed)
    modifies src
    ensures Decoded(out, err) == Decode(config, Start(seqNum), old(src.rest), src.tail)
  {
    hide Decode;
    var r := new DecReaderV20(config, seqNum, src);
    ghost var all := r.Pending();
    out, err := [], Nil;
    AfterNothing(all);
    while err == Nil
      invariant r.Valid() && r.src == src && fresh(r) && fresh(r.buffer)
      invariant err == Nil ==> all == r.Pending().After(out)
      invariant err != Nil ==> all == Decoded(out, err)
      decreases |all.plain| - |out|, err == Nil
    {
      var size: nat :| size > 0;
      var p := new byte[size];
      var n;
      ghost var before := r.Pending();
      n, err := r.Read(p);
      AfterAfter(r.Pending(), out, p[..n]);
      out := out + p[..n];
    }
  }
}
