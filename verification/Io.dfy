/** The contracts of io.Reader and io.Writer that the stream machines rely on. */
module Io {
  import opened Bytes

  /** The error values of the modelled packages; `Nil` is the absence of an error. */
  datatype Err =
    | Nil
    | EOF
    | IoUnexpectedEOF
    | ShortWrite
    | ReadFailed
    | WriteFailed
    | UnsupportedVersion
    | UnsupportedCipher
    | InvalidPayloadSize
    | TagMismatch
    | UnexpectedSize
    | PackageOutOfOrder
    | NonceMismatch
    | UnexpectedEOF
    | UnexpectedData
    | NegativeOffset
    | LineTooLong
    | MalformedEncoding
    | InvalidByteInLength
    | LengthTooLarge
    | SignatureMismatch
    | ContentLengthMismatch

  /** An io.Reader: it delivers `rest` in pieces of any size and then reports
      `tail` for ever, which is EOF or a failure of the underlying source. */
  class Source {
    const tail: Err
    var rest: seq<byte>

    constructor (data: seq<byte>, tail: Err)
      requires tail == EOF || tail == ReadFailed
      ensures this.rest == data && this.tail == tail
    {
      this.rest := data;
      this.tail := tail;
    }

    /** One call of Read: any positive number of bytes may come, and the tail
        error may come together with the last byte or after it. */
    method Read(p: array<byte>, lo: nat, hi: nat) returns (n: nat, err: Err)
      requires lo < hi <= p.Length
      modifies this`rest, p
      ensures n <= hi - lo && n <= |old(rest)|
      ensures rest == old(rest)[n..]
      ensures p[..] == Splice(old(p[..]), lo, old(rest)[..n])
      ensures n == 0 ==> err == tail
      ensures err == Nil || (err == tail && rest == [])
    {
      if rest == [] {
        assert Splice(p[..], lo, []) == p[..];
        return 0, tail;
      }
      n :| 1 <= n <= hi - lo && n <= |rest|;
      Put(p, lo, rest[..n]);
      rest := rest[n..];
      err := Nil;
      if rest == [] {
        err :| err == Nil || err == tail;
      }
    }

    /** io.ReadFull: loops until p[lo..hi] is full or the source ends. */
    method ReadFull(p: array<byte>, lo: nat, hi: nat) returns (n: nat, err: Err)
      requires lo <= hi <= p.Length
      requires tail == EOF || tail == ReadFailed
      modifies this`rest, p
      ensures n == Min(hi - lo, |old(rest)|)
      ensures rest == old(rest)[n..]
      ensures p[..] == Splice(old(p[..]), lo, old(rest)[..n])
      ensures err == FullErr(tail, n, hi - lo)
    {
      hide Splice;
      n, err := 0, Nil;
      SpliceNothing(p[..], lo);
      while n < hi - lo && err == Nil
        invariant 0 <= n <= hi - lo && n <= |old(rest)|
        invariant rest == old(rest)[n..]
        invariant p[..] == Splice(old(p[..]), lo, old(rest)[..n])
        invariant err == Nil || (err == tail && rest == [])
        decreases |rest|, err == Nil
      {
        var nn;
        ghost var more := rest;
        nn, err := Read(p, lo + n, hi);
        SpliceTwice(old(p[..]), lo, old(rest)[..n], more[..nn]);
        assert old(rest)[..n + nn] == old(rest)[..n] + more[..nn];
        n := n + nn;
      }
      if n >= hi - lo {
        err := Nil;
      } else if n > 0 && err == EOF {
        err := IoUnexpectedEOF;
      }
    }
  }

  /** What io.ReadFull reports after reading n of `want` bytes. */
  function FullErr(tail: Err, n: nat, want: nat): Err {
    if n >= want then Nil
    else if n > 0 && tail == EOF then IoUnexpectedEOF
    else tail
  }

  /** An io.Writer that may fail at any point after taking part of its input. */
  class Sink {
    var data: seq<byte>
    ghost var failed: bool  // some Write failed or was short

    constructor ()
      ensures data == [] && !failed
    {
      data := [];
      failed := false;
    }

    method Write(p: seq<byte>) returns (n: nat, err: Err)
      modifies this
      ensures n <= |p| && data == old(data) + p[..n]
      ensures err == Nil || err == WriteFailed
      ensures failed == (old(failed) || err != Nil || n < |p|)
    {
      n :| n <= |p|;
      err :| err == Nil || err == WriteFailed;
      data := data + p[..n];
      failed := failed || err != Nil || n < |p|;
    }
  }

  /** pkg/sio flush: a short write is an error. */
  method Flush(dst: Sink, p: seq<byte>) returns (err: Err)
    modifies dst
    ensures err == Nil ==> dst.data == old(dst.data) + p && dst.failed == old(dst.failed)
    ensures err != Nil ==> dst.failed
    ensures err != Nil ==> (err == WriteFailed || err == ShortWrite)
    ensures old(dst.data) <= dst.data <= old(dst.data) + p
  {
    var n;
    n, err := dst.Write(p);
    if err != Nil {
      return;
    }
    if n != |p| {
      return ShortWrite;
    }
    assert p[..n] == p;
  }
}
