/** Serving a byte range of an encrypted object: which ciphertext to fetch, from which package to
    decrypt, how much to skip and where to stop. */
module EncryptedRange {
  import opened Basics
  import opened Bytes
  import opened Io
  import opened Dare
  import opened DecryptingReader
  import opened Sizes
  import HttpRange

  type int64 = HttpRange.int64

  datatype RangeErr = NoError | NotEncrypted | ObjectTampered | BadRange(HttpRange.RangeError)

  /** Division of Go truncates toward zero. */
  function GoDiv(a: int, b: int): int
    requires b > 0
  {
    if a >= 0 then a / b else -(-a / b)
  }

  function GoMod(a: int, b: int): int
    requires b > 0
  {
    a - GoDiv(a, b) * b
  }

  /** The conversion uint64(x) of an int64. */
  function ToU64(x: int64): u64 {
    if x >= 0 then x else x + 0x1_0000_0000_0000_0000
  }

  function EncSize(n: nat): nat
    requires n <= MAX_DECRYPTED_SIZE
  {
    EncryptedSize(n).value
  }

  type PartSize = n: int | 0 <= n <= MAX_DECRYPTED_SIZE

  function PlainSum(sizes: seq<PartSize>): nat {
    if sizes == [] then 0 else sizes[0] + PlainSum(sizes[1..])
  }

  function EncSum(sizes: seq<PartSize>): nat {
    if sizes == [] then 0 else EncSize(sizes[0]) + EncSum(sizes[1..])
  }

  /** The loop that looks for the part holding position `off`: it adds up the sizes of the parts before
      it, or of all parts when no part holds it, in which case the answer stays part 0. */
  method FindPart(off: int, sizes: seq<PartSize>, from: nat, cum: int, encCum: int)
    returns (part: nat, cum': int, encCum': int)
    requires from < |sizes|
    ensures part < |sizes|
    ensures (from <= part && off < cum' + sizes[part]
             && cum' == cum + PlainSum(sizes[from..part]) && encCum' == encCum + EncSum(sizes[from..part]))
         || (part == 0 && cum' == cum + PlainSum(sizes[from..]) && encCum' == encCum + EncSum(sizes[from..])
             && forall j :: from < j <= |sizes| ==> cum + PlainSum(sizes[from..j]) <= off)
    ensures forall j :: from < j <= part ==> cum + PlainSum(sizes[from..j]) <= off
  {
    hide EncSize;
    part, cum', encCum' := 0, cum, encCum;
    var i := from;
    while i < |sizes|
      invariant from <= i <= |sizes|
      invariant cum' == cum + PlainSum(sizes[from..i]) && encCum' == encCum + EncSum(sizes[from..i])
      invariant forall j :: from < j <= i ==> cum + PlainSum(sizes[from..j]) <= off
    {
      if off < cum' + sizes[i] {
        part := i;
        return;
      }
      SumSnoc(sizes[from..i], sizes[i]);
      assert sizes[from..i] + [sizes[i]] == sizes[from..i + 1];
      cum' := cum' + sizes[i];
      encCum' := encCum' + EncSize(sizes[i]);
      i := i + 1;
    }
    assert sizes[from..|sizes|] == sizes[from..];
  }

  lemma {:induction false} SumSnoc(sizes: seq<PartSize>, last: PartSize)
    ensures PlainSum(sizes + [last]) == PlainSum(sizes) + last
    ensures EncSum(sizes + [last]) == EncSum(sizes) + EncSize(last)
  {
    if sizes != [] {
      SumSnoc(sizes[1..], last);
      assert (sizes + [last])[1..] == sizes[1..] + [last];
    }
  }

  lemma OnePart(sizes: seq<PartSize>)
    requires |sizes| == 1
    ensures sizes[0..1] == sizes[0..] == sizes && sizes[0..0] == []
    ensures PlainSum(sizes) == sizes[0] && EncSum(sizes) == EncSize(sizes[0])
  {
    assert PlainSum(sizes[1..]) == 0 && EncSum(sizes[1..]) == 0;
  }

  /** ObjectInfo.GetDecryptedRange: the object holds `size` bytes in one part. */
  method GetDecryptedRange(isEncrypted: bool, size: int64, rs: Option<HttpRange.Spec>)
    returns (encOff: int, encLength: int, skipLen: int, seqNumber: int, partStart: nat, err: RangeErr)
    requires rs.Some? ==> HttpRange.WellFormed(rs.value)
    ensures err == NotEncrypted <==> !isEncrypted
    ensures isEncrypted && rs.None? ==> err == NoError && encOff == 0 && encLength == size && skipLen == 0 && seqNumber == 0
    ensures err == ObjectTampered <==> isEncrypted && rs.Some? && DecryptedSize(ToU64(size)).Invalid?
    ensures isEncrypted && rs.Some? && DecryptedSize(ToU64(size)).Size? ==>
              var n := DecryptedSize(ToU64(size)).value;
              match HttpRange.GetOffsetLength(rs, n)
              case Error(e) => err == BadRange(e)
              case Ok((off, length)) =>
                && err == NoError && partStart == 0
                && encOff == off / 65536 * 65568
                && seqNumber == off / 65536
                && skipLen == off % 65536
                && encOff + encLength == if length == 0 then 0 else Min(((off + length - 1) / 65536 + 1) * 65568, size)
  {
    hide DecryptedSize, Min;
    encOff, encLength, skipLen, seqNumber, partStart, err := 0, 0, 0, 0, 0, NoError;
    if !isEncrypted {
      err := NotEncrypted;
      return;
    }
    if rs.None? {
      encLength := size;
      return;
    }
    var partSize := DecryptedSize(ToU64(size));
    if partSize.Invalid? {
      err := ObjectTampered;
      return;
    }
    SizesInverse(ToU64(size), partSize.value);
    var sizes: seq<PartSize> := [partSize.value];
    var decObjSize := sizes[0];
    var range := HttpRange.GetOffsetLength(rs, decObjSize);
    if range.Error? {
      err := BadRange(range.error);
      return;
    }
    HttpRange.RangeSelects(rs.value, decObjSize);
    var (off, length) := range.value;
    var startPkgNum;
    encOff, encLength, skipLen, startPkgNum, partStart := PackageWindow(sizes, off, length);
    assert off / 65536 < 0x1_0000_0000;
    seqNumber := startPkgNum % TWO32;
  }

  /** The packages that hold the plaintext [off, off + length) of an object of one part. */
  method PackageWindow(sizes: seq<PartSize>, off: nat, length: nat)
    returns (encOff: int, encLength: int, skipLen: int, startPkgNum: int, partStart: nat)
    requires |sizes| == 1
    requires if length == 0 then off == 0 && sizes[0] == 0 else off + length <= sizes[0]
    ensures partStart == 0 && startPkgNum == off / 65536
    ensures encOff == off / 65536 * 65568 && skipLen == off % 65536
    ensures encOff + encLength
         == if length == 0 then 0 else Min(((off + length - 1) / 65536 + 1) * 65568, EncSize(sizes[0]))
  {
    OnePart(sizes);
    var cumulativeSum, encCumulativeSum, partEnd;
    partStart, cumulativeSum, encCumulativeSum := FindPart(off, sizes, 0, 0, 0);
    assert partStart == 0 && cumulativeSum == 0 && encCumulativeSum == 0;
    startPkgNum := GoDiv(off - cumulativeSum, 65536);
    skipLen := GoMod(off - cumulativeSum, 65536);
    encOff := encCumulativeSum + startPkgNum * 65568;
    var endOffset := off + length - 1;
    partEnd, cumulativeSum, encCumulativeSum := FindPart(endOffset, sizes, partStart, cumulativeSum, encCumulativeSum);
    assert partEnd == 0 && cumulativeSum == 0 && encCumulativeSum == 0;
    var endPkgNum := GoDiv(endOffset - cumulativeSum, 65536);
    var endEncOffset := encCumulativeSum + (endPkgNum + 1) * 65568;
    var lastPartSize := EncSize(sizes[partEnd]);
    if endEncOffset > encCumulativeSum + lastPartSize {
      endEncOffset := encCumulativeSum + lastPartSize;
    }
    encLength := endEncOffset - encOff;
  }

  /** ioutil.SkipReader over a decrypting reader: drops the first skipCount bytes. */
  class SkipReader {
    const r: DecReaderV20
    var skipCount: nat

    constructor (r: DecReaderV20, n: nat)
      ensures this.r == r && skipCount == n
    {
      this.r := r;
      this.skipCount := n;
    }

    /** What is left after skipping: nothing but the error if the stream is too short. */
    ghost function Pending(): Decoded<Err>
      requires r.Valid()
      reads this, r, r.src, r.buffer
    {
      Skip(r.Pending(), skipCount)
    }

    /** The skipping loop, with buffers of at most l bytes. */
    method SkipAll(size: nat) returns (err: Err)
      requires r.Valid() && size > 0
      modifies this, r`ad, r`offset, r.src, r.buffer
      ensures r.Valid()
      ensures err == Nil ==> skipCount == 0 && Pending() == old(Pending())
      ensures err != Nil ==> old(Pending()) == Decoded([], err)
    {
      hide Decode, DecReaderV20.Pending, DecReaderV20.Valid, Decoded.After, Skip;
      var l := size;
      err := Nil;
      ghost var all := Pending();
      while skipCount > 0
        invariant r.Valid() && err == Nil && 0 < l && all == Pending()
      {
        if l > skipCount {
          l := skipCount;
        }
        var scratch := new byte[l];
        var nn;
        nn, err := r.Read(scratch);
        if err != Nil {
          SkipShort(scratch[..nn], err, skipCount);
          return;
        }
        SkipPart(r.Pending(), scratch[..nn], skipCount);
        skipCount := skipCount - nn;
      }
    }

    method Read(p: array<byte>) returns (n: nat, err: Err)
      requires r.Valid() && p != r.buffer
      modifies this, r`ad, r`offset, r.src, r.buffer, p
      ensures r.Valid() && n <= p.Length
      ensures err == Nil ==> old(Pending()) == Pending().After(p[..n])
      ensures err == Nil && p.Length > 0 ==> n > 0
      ensures err != Nil ==> n < p.Length && old(Pending()) == Decoded(p[..n], err)
    {
      hide Decode, Decoded.After, DecReaderV20.Pending, DecReaderV20.Valid, Skip;
      n, err := 0, Nil;
      var l := p.Length;
      if l == 0 {
        AfterNothing(Pending());
        assert p[..0] == [];
        return;
      }
      err := SkipAll(l);
      if err != Nil {
        assert p[..0] == [];
        return;
      }
      SkipNone(r.Pending());
      n, err := r.Read(p);
      SkipNone(r.Pending());
    }
  }

  function Skip(all: Decoded<Err>, k: nat): Decoded<Err> {
    if |all.plain| < k then Decoded([], all.err) else Decoded(all.plain[k..], all.err)
  }

  lemma SkipNone(all: Decoded<Err>)
    ensures Skip(all, 0) == all
  {
  }

  lemma SkipShort(m: seq<byte>, err: Err, k: nat)
    requires |m| < k
    ensures Skip(Decoded(m, err), k) == Decoded([], err)
  {
  }

  lemma SkipPart(all: Decoded<Err>, m: seq<byte>, k: nat)
    requires |m| <= k
    ensures Skip(all.After(m), k) == Skip(all, k - |m|)
  {
  }

  /** Reads from an io.LimitReader around the skipping reader with buffers of any sizes until it ends. */
  method DrainLimited(sr: SkipReader, limit: nat) returns (data: seq<byte>, err: Err)
    requires sr.r.Valid()
    modifies sr, sr.r`ad, sr.r`offset, sr.r.src, sr.r.buffer
    ensures err == Nil <==> limit <= |old(sr.Pending()).plain|
    ensures err == Nil ==> data == old(sr.Pending()).plain[..limit]
  {
    hide Decode, Skip;
    data, err := [], Nil;
    ghost var all := sr.Pending();
    AfterNothing(all);
    while |data| < limit
      invariant sr.r.Valid() && |data| <= limit && err == Nil
      invariant all == sr.Pending().After(data)
      decreases limit - |data|
    {
      var size: nat :| 1 <= size <= limit - |data|;
      var p := new byte[size];
      var n;
      n, err := sr.Read(p);
      if err != Nil {
        return;
      }
      AfterAfter(sr.Pending(), data, p[..n]);
      data := data + p[..n];
    }
  }

  /** The fetched window lies inside the object and decodes to enough plaintext around the range. */
  lemma DecodeWindow(d: DecConfig, c: EncConfig, p: seq<byte>, off: nat, length: nat)
    requires c.Valid() && d.aead == c.aead && c.suite in d.suites
    requires |p| <= MAX_DECRYPTED_SIZE && 0 < length && off + length <= |p|
    ensures var s := Stream(c, 0, p, EOF);
            var t, end := off / 65536, Min(((off + length - 1) / 65536 + 1) * 65568, |s|);
            && t * 65568 <= end <= |s| && t < 0x1_0000_0000
            && off % 65536 + length <= |Decode(d, Start(t), s[t * 65568..end], EOF).plain|
            && Decode(d, Start(t), s[t * 65568..end], EOF).plain[off % 65536..][..length] == p[off..off + length]
  {
    hide Stream, Decode, Aead.Lawful, Open;
    var s := Stream(c, 0, p, EOF);
    var t, e := off / 65536, (off + length - 1) / 65536;
    var end := Min((e + 1) * 65568, |s|);
    StreamDrop(c, 0, p, t);
    assert AddU32(0, t) == t;
    var p', s' := p[t * 65536..], s[t * 65568..];
    assert s' == Stream(c, t, p', EOF);
    assert t <= e;
    WindowInside(c, t, p', e - t);
    var w := end - t * 65568;
    assert s[t * 65568..end] == s'[..w];
    var k := off % 65536;
    if w < |s'| {
      DecodeTruncated(d, c, Start(t), t, p', w);
      assert w / 65568 == e + 1 - t;
      SliceOfSlice(p, t * 65536, (e + 1 - t) * 65536, k, length);
    } else {
      assert s'[..w] == s';
      DecodeStream(d, c, Start(t), t, p');
      SliceOfSlice(p, t * 65536, |p'|, k, length);
      assert p'[..|p'|] == p';
    }
  }

  lemma SliceOfSlice(p: seq<byte>, a: nat, n: nat, k: nat, length: nat)
    requires a + n <= |p| && k + length <= n
    ensures p[a..][..n][k..][..length] == p[a + k..a + k + length]
  {
  }

  /** A stream reaches beyond its e-th package's start when the plaintext reaches block e. */
  lemma WindowInside(c: EncConfig, seqNum: u32, p: seq<byte>, e: nat)
    requires c.Valid() && e * 65536 < |p|
    ensures e * 65568 < |Stream(c, seqNum, p, EOF)|
  {
    hide Stream;
    StreamDrop(c, seqNum, p, e);
    StreamNonempty(c, AddU32(seqNum, e), p[e * 65536..]);
  }

  lemma StreamNonempty(c: EncConfig, seqNum: u32, p: seq<byte>)
    requires c.Valid() && p != []
    ensures Stream(c, seqNum, p, EOF) != []
  {
  }

  /** The answer to a request for plaintext p: all of it without a range, and else exactly the selected positions, or
      an invalid range if it has a start that lies behind the end. */
  ghost predicate Serves(rs: Option<HttpRange.Spec>, p: seq<byte>, data: seq<byte>, err: RangeErr) {
    match rs
    case None => err == NoError && data == p
    case Some(s) =>
      if !s.isSuffixLength && |p| <= s.start then err == BadRange(HttpRange.InvalidRange) && data == []
      else
        && err == NoError
        && exists off: nat :: IsSelection(s, p, data, off)
  }

  /** The data are the bytes of p from `off` on, and these positions are the selected ones. */
  ghost predicate IsSelection(s: HttpRange.Spec, p: seq<byte>, data: seq<byte>, off: nat) {
    && off + |data| <= |p| && data == p[off..off + |data|]
    && forall i: nat :: HttpRange.Selects(s, |p|, i) <==> off <= i < off + |data|
  }

  lemma ServesExactly(rs: Option<HttpRange.Spec>, p: seq<byte>, data: seq<byte>, err: RangeErr)
    requires |p| <= MAX_DECRYPTED_SIZE && (rs.Some? ==> HttpRange.WellFormed(rs.value))
    requires match HttpRange.GetOffsetLength(rs, |p|)
             case Error(e) => err == BadRange(e) && data == []
             case Ok((off, length)) =>
               err == NoError && 0 <= off && 0 <= length && off + length <= |p| && data == p[off..off + length]
    ensures Serves(rs, p, data, err)
  {
    if rs.Some? {
      HttpRange.RangeSelects(rs.value, |p|);
      if err == NoError {
        assert IsSelection(rs.value, p, data, HttpRange.GetOffsetLength(rs, |p|).value.0);
      }
    } else {
      assert p[..|p|] == p;
    }
  }

  /** Serving a range of an encrypted object as NewGetObjectReader does: the client receives exactly the
      selected bytes of the plaintext, or the range is refused as it is for the plaintext itself. */
  method ServeRange(d: DecConfig, stored: seq<byte>, rs: Option<HttpRange.Spec>, ghost c: EncConfig, ghost p: seq<byte>)
    returns (data: seq<byte>, err: RangeErr, readErr: Err)
    requires c.Valid() && d.aead == c.aead && c.suite in d.suites
    requires |p| <= MAX_DECRYPTED_SIZE && stored == Stream(c, 0, p, EOF)
    requires rs.Some? ==> HttpRange.WellFormed(rs.value)
    ensures |stored| <= MAX_ENCRYPTED_SIZE
    ensures Serves(rs, p, data, err)
    ensures match HttpRange.GetOffsetLength(rs, |p|)
            case Error(e) => err == BadRange(e) && data == []
            case Ok((off, length)) =>
              err == NoError && readErr == Nil
              && 0 <= off && 0 <= length && off + length <= |p| && data == p[off..off + length]
  {
    hide Stream, Decode, Length, EncryptedSize, Skip, Serves;
    data, readErr := [], Nil;
    StreamSize(c, 0, p);
    SizesInverse(|stored|, |p|);
    if rs.Some? {
      HttpRange.RangeSelects(rs.value, |p|);
    }
    var encOff, encLength, skipLen, seqNumber, partStart;
    encOff, encLength, skipLen, seqNumber, partStart, err := GetDecryptedRange(true, |stored|, rs);
    if err != NoError {
      ServesExactly(rs, p, data, err);
      return;
    }
    var decSize := DecryptedSize(|stored|).value;
    var decRangeLength := HttpRange.GetLength(rs, decSize);
    ghost var off := if rs.None? then 0 else HttpRange.GetOffsetLength(rs, |p|).value.0;
    ghost var length := decRangeLength.value;
    if decRangeLength.value > 0 {
      WindowForRange(d, c, p, stored, off, length, encOff, encLength, rs.None?);
      data, readErr := FetchAndRead(d, stored[encOff..encOff + encLength], seqNumber, skipLen, decRangeLength.value);
    }
    ServesExactly(rs, p, data, err);
  }

  /** Decrypts a fetched window, skipping and limiting. */
  method FetchAndRead(d: DecConfig, window: seq<byte>, seqNumber: u32, skipLen: nat, limit: nat)
    returns (data: seq<byte>, err: Err)
    requires d.aead.Lawful()
    ensures var m := Skip(Decode(d, Start(seqNumber), window, EOF), skipLen);
            (err == Nil <==> limit <= |m.plain|) && (err == Nil ==> data == m.plain[..limit])
  {
    hide Decode, Skip;
    var src := new Source(window, EOF);
    var r := new DecReaderV20(d, seqNumber, src);
    var sr := new SkipReader(r, skipLen);
    data, err := DrainLimited(sr, limit);
  }

  lemma WindowForRange(d: DecConfig, c: EncConfig, p: seq<byte>, stored: seq<byte>, off: nat, length: nat,
                       encOff: int, encLength: int, all: bool)
    requires c.Valid() && d.aead == c.aead && c.suite in d.suites
    requires |p| <= MAX_DECRYPTED_SIZE && stored == Stream(c, 0, p, EOF)
    requires 0 < length && off + length <= |p| && (all ==> off == 0 && length == |p|)
    requires encOff == off / 65536 * 65568
    requires encOff + encLength == if all then |stored| else Min(((off + length - 1) / 65536 + 1) * 65568, |stored|)
    ensures 0 <= encOff && 0 <= encLength && encOff + encLength <= |stored|
    ensures var m := Skip(Decode(d, Start(off / 65536), stored[encOff..encOff + encLength], EOF), off % 65536);
            length <= |m.plain| && m.plain[..length] == p[off..off + length]
  {
    hide Stream, Decode;
    if all {
      DecodeStream(d, c, Start(0), 0, p);
      assert stored[0..|stored|] == stored;
      assert p[0..] == p && p[..length] == p[0..length];
    } else {
      DecodeWindow(d, c, p, off, length);
    }
  }
}
