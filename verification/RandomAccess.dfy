/** decReaderAtV20: random access to the plaintext of a DARE 2.0 stream. */
module RandomAccess {
  import opened Bytes
  import opened Io
  import opened Dare
  import opened DecryptingReader
  import opened Sizes

  /** What ReadAt delivers for a buffer of `size` bytes: it starts decoding at package offset / 65536. */
  function ReadAtMeaning(d: DecConfig, content: seq<byte>, size: nat, offset: int): Decoded<Err> {
    if offset < 0 then Decoded([], NegativeOffset)
    else if offset / 65536 + 1 > 0xffff_ffff then Decoded([], UnexpectedSize)
    else
      var t, k := offset / 65536, offset % 65536;
      var all := Decode(d, Start(t), content[Min(t * MAX_PACKAGE_SIZE, |content|)..], EOF);
      Window(all, k, size)
  }

  /** Skipping k bytes of a decoded stream and reading up to `size` more. */
  function Window(all: Decoded<Err>, k: nat, size: nat): Decoded<Err> {
    if |all.plain| < k then Decoded([], all.err)
    else if |all.plain| - k < size then Decoded(all.plain[k..], all.err)
    else Decoded(all.plain[k..k + size], Nil)
  }

  lemma WindowOfSuffix(p: seq<byte>, start: nat, k: nat, size: nat, err: Err)
    requires start <= |p|
    ensures Window(Decoded(p[start..], err), k, size)
         == if start + k + size <= |p| then Decoded(p[start + k..start + k + size], Nil)
            else Decoded(p[Min(start + k, |p|)..], err)
  {
    var q := p[start..];
    assert p[|p|..] == [];
    if k <= |q| {
      assert q[k..] == p[start + k..];
      if k + size <= |q| {
        assert q[k..k + size] == p[start + k..start + k + size];
      }
    }
  }

  /** io.CopyN into ioutil.Discard: reads exactly k bytes with buffers of any sizes. */
  method Discard(r: DecReaderV20, k: nat) returns (err: Err)
    requires r.Valid()
    modifies r`ad, r`offset, r.src, r.buffer
    ensures r.Valid()
    ensures err == Nil <==> k <= |old(r.Pending()).plain|
    ensures err == Nil ==> r.Pending() == Decoded(old(r.Pending()).plain[k..], old(r.Pending()).err)
    ensures err != Nil ==> err == old(r.Pending()).err
  {
    hide Decode;
    var left := k;
    ghost var all, got := r.Pending(), [];
    err := Nil;
    AfterNothing(all);
    while left > 0
      invariant r.Valid() && err == Nil && 0 <= left <= k && |got| == k - left
      invariant all == r.Pending().After(got)
    {
      var size: nat :| 1 <= size <= left;
      var p := new byte[size];
      var n;
      n, err := r.Read(p);
      if err != Nil {
        return;
      }
      AfterAfter(r.Pending(), got, p[..n]);
      got := got + p[..n];
      left := left - n;
    }
    assert all.plain == got + r.Pending().plain && |got| == k;
    assert all.plain[k..] == r.Pending().plain;
  }

  class DecReaderAtV20 {
    const config: DecConfig
    const content: seq<byte>  // what the underlying io.ReaderAt holds

    constructor (config: DecConfig, content: seq<byte>)
      ensures this.config == config && this.content == content
    {
      this.config := config;
      this.content := content;
    }

    method ReadAt(p: array<byte>, offset: int) returns (n: nat, err: Err)
      requires config.aead.Lawful()
      modifies p
      ensures n <= p.Length && Decoded(p[..n], err) == ReadAtMeaning(config, content, p.Length, offset)
    {
      hide Decode, Aead.Lawful, Length, DecReaderV20.Pending, DecReaderV20.Valid;
      if offset < 0 {
        return 0, NegativeOffset;
      }
      var t := offset / 65536;
      if t + 1 > 0xffff_ffff {
        return 0, UnexpectedSize;
      }
      var section := new Source(content[Min(t * MAX_PACKAGE_SIZE, |content|)..], EOF);
      var r := new DecReaderV20(config, t, section);
      ghost var all := r.Pending();
      var k := offset % 65536;
      if k > 0 {
        err := Discard(r, k);
        if err != Nil {
          return 0, err;
        }
      }
      ghost var rest := r.Pending();
      assert rest == Decoded(all.plain[k..], all.err);
      n, err := ReadAll(r, p);
      assert n == p.Length ==> all.plain[k..][..n] == all.plain[k..k + n];
    }
  }

  /** The reading loop: reads until p is full or an error comes; EOF with p full is no error. */
  method ReadAll(r: DecReaderV20, p: array<byte>) returns (n: nat, err: Err)
    requires r.Valid() && p != r.buffer
    modifies r`ad, r`offset, r.src, r.buffer, p
    ensures n == Min(p.Length, |old(r.Pending()).plain|) && p[..n] == old(r.Pending()).plain[..n]
    ensures err == if n == p.Length then Nil else old(r.Pending()).err
  {
    hide Decode, Length, DecReaderV20.Pending, DecReaderV20.Valid;
    n, err := 0, Nil;
    ghost var all := r.Pending();
    AfterNothing(all);
    assert p[..0] == [];
    while n < p.Length && err == Nil
      invariant r.Valid() && n <= p.Length
      invariant err == Nil ==> all == r.Pending().After(p[..n])
      invariant err != Nil ==> n < p.Length && all == Decoded(p[..n], err)
      decreases p.Length - n, err == Nil
    {
      var piece := new byte[p.Length - n];
      var nn;
      ghost var start := p[..n];
      nn, err := r.Read(piece);
      assert p[..n] == start;
      SplicePrefix(p[..], n, piece[..nn]);
      AfterAfter(r.Pending(), start, piece[..nn]);
      Put(p, n, piece[..nn]);
      n := n + nn;
    }
    if err == EOF && n == p.Length {
      err := Nil;
    }
  }

  /** Decoding from package t on releases the plaintext from block t on. */
  lemma DecodeFrom(d: DecConfig, c: EncConfig, p: seq<byte>, t: u32)
    requires c.Valid() && d.aead == c.aead && c.suite in d.suites && p != []
    ensures Decode(d, Start(t), Stream(c, 0, p, EOF)[Min(t * MAX_PACKAGE_SIZE, |Stream(c, 0, p, EOF)|)..], EOF)
         == if t * MAX_PAYLOAD_SIZE < |p| then Decoded(p[t * MAX_PAYLOAD_SIZE..], EOF) else Decoded([], UnexpectedEOF)
  {
    hide Stream, Package;
    var s := Stream(c, 0, p, EOF);
    if t * MAX_PAYLOAD_SIZE < |p| {
      StreamDrop(c, 0, p, t);
      assert AddU32(0, t) == t;
      DecodeStream(d, c, Start(t), t, p[t * MAX_PAYLOAD_SIZE..]);
    } else {
      StreamEnd(c, 0, p, t);
      assert s[|s|..] == [];
    }
  }

  /** On a stream encrypted from sequence number 0, ReadAt is ReadAt on the plaintext. A read that comes
      out short reports EOF, or a missing end when it starts in no block of the plaintext; an empty buffer at a
      block boundary reads nothing at all. */
  lemma ReadAtStream(d: DecConfig, c: EncConfig, p: seq<byte>, size: nat, offset: nat)
    requires c.Valid() && d.aead == c.aead && c.suite in d.suites
    requires p != [] && offset / 65536 + 1 <= 0xffff_ffff
    ensures ReadAtMeaning(d, Stream(c, 0, p, EOF), size, offset)
         == if size == 0 && offset % 65536 == 0 then Decoded([], Nil)
            else if offset + size <= |p| then Decoded(p[offset..offset + size], Nil)
            else Decoded(p[Min(offset, |p|)..], if offset / 65536 * 65536 < |p| then EOF else UnexpectedEOF)
  {
    hide Stream, Decode;
    var t, k := offset / 65536, offset % 65536;
    DecodeFrom(d, c, p, t);
    if t * MAX_PAYLOAD_SIZE < |p| {
      WindowOfSuffix(p, t * MAX_PAYLOAD_SIZE, k, size, EOF);
    } else {
      assert p[|p|..] == [];
    }
  }
}
