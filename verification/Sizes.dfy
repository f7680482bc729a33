/** Size arithmetic of DARE: EncryptedSize and DecryptedSize, and the length of the stream. */
module Sizes {
  import opened Bytes
  import opened Io
  import opened Dare

  type u64 = x: int | 0 <= x < 0x1_0000_0000_0000_0000

  const MAX_DECRYPTED_SIZE: u64 := 0x1_0000_0000_0000
  const MAX_ENCRYPTED_SIZE: u64 := 0x1_0000_0000_0000 + 32 * 0x1_0000_0000

  datatype Size = Size(value: u64) | Invalid(err: Err)

  /** Every product and sum stays below 2^64. */
  function EncryptedSize(size: u64): Size {
    if size > MAX_DECRYPTED_SIZE then Invalid(UnexpectedSize)
    else
      var mod := size % 65536;
      Size(size / 65536 * 65568 + if mod > 0 then mod + 32 else 0)
  }

  function DecryptedSize(size: u64): Size {
    if size > MAX_ENCRYPTED_SIZE then Invalid(UnexpectedSize)
    else
      var mod := size % 65568;
      if mod == 0 then Size(size / 65568 * 65536)
      else if mod <= 32 then Invalid(InvalidPayloadSize)
      else Size(size / 65568 * 65536 + (mod - 32))
  }

  /** The two functions are inverse to each other wherever one of them is defined. */
  lemma SizesInverse(m: u64, n: u64)
    ensures DecryptedSize(m) == Size(n) <==> EncryptedSize(n) == Size(m)
  {
    if DecryptedSize(m) == Size(n) {
      var q, r := m / 65568, m % 65568;
      assert m == q * 65568 + r;
      var k := if r == 0 then 0 else r - 32;
      assert n == q * 65536 + k && 0 <= k < 65536;
      assert n / 65536 == q && n % 65536 == k;
    }
    if EncryptedSize(n) == Size(m) {
      var q, r := n / 65536, n % 65536;
      assert n == q * 65536 + r;
      var k := if r == 0 then 0 else r + 32;
      assert m == q * 65568 + k && 0 <= k < 65568;
      assert m / 65568 == q && m % 65568 == k;
    }
  }

  /** When the functions fail, and why: sizes beyond 2^48 bytes of plaintext or its ciphertext are unexpected, and
      below that exactly those sizes are invalid that no ciphertext has. */
  lemma SizeErrors(n: u64, m: u64)
    ensures EncryptedSize(n) == Invalid(UnexpectedSize) <==> n > 0x1_0000_0000_0000
    ensures EncryptedSize(n).Invalid? ==> EncryptedSize(n).err == UnexpectedSize
    ensures DecryptedSize(m) == Invalid(UnexpectedSize) <==> m > EncryptedSize(0x1_0000_0000_0000).value
    ensures DecryptedSize(m) == Invalid(InvalidPayloadSize) <==>
              m <= EncryptedSize(0x1_0000_0000_0000).value && forall k: u64 :: EncryptedSize(k) != Size(m)
  {
    hide EncryptedSize, DecryptedSize;
    EncryptedBound(n);
    EncryptedBound(0x1_0000_0000_0000);
    DecryptedErrors(m);
    forall k: u64
      ensures EncryptedSize(k) == Size(m) <==> DecryptedSize(m) == Size(k)
    {
      SizesInverse(m, k);
    }
  }

  lemma EncryptedBound(n: u64)
    ensures EncryptedSize(n) == Invalid(UnexpectedSize) <==> n > 0x1_0000_0000_0000
    ensures EncryptedSize(n).Invalid? ==> EncryptedSize(n).err == UnexpectedSize
    ensures n == 0x1_0000_0000_0000 ==> EncryptedSize(n) == Size(MAX_ENCRYPTED_SIZE)
  {
  }

  lemma DecryptedErrors(m: u64)
    ensures DecryptedSize(m) == Invalid(UnexpectedSize) <==> m > MAX_ENCRYPTED_SIZE
    ensures DecryptedSize(m).Invalid? ==> DecryptedSize(m).err in {UnexpectedSize, InvalidPayloadSize}
    ensures m > MAX_ENCRYPTED_SIZE ==> DecryptedSize(m).Invalid?
  {
  }

  /** EncryptedSize is the length of the canonical stream. */
  lemma {:induction false} StreamSize(c: EncConfig, seqNum: u32, p: seq<byte>)
    requires c.Valid() && |p| <= MAX_DECRYPTED_SIZE
    ensures EncryptedSize(|p|).Size? && EncryptedSize(|p|).value == |Stream(c, seqNum, p, EOF)|
    decreases |p|
  {
    hide Package;
    if |p| <= MAX_PAYLOAD_SIZE {
      if p != [] {
        PackageSize(c, seqNum, p, true);
      }
    } else {
      PackageSize(c, seqNum, p[..MAX_PAYLOAD_SIZE], false);
      StreamSize(c, AddU32(seqNum, 1), p[MAX_PAYLOAD_SIZE..]);
      assert |p| / 65536 == (|p| - 65536) / 65536 + 1 && |p| % 65536 == (|p| - 65536) % 65536;
    }
  }

  /** Dropping t whole packages of the stream drops t blocks of the plaintext. */
  lemma StreamDrop(c: EncConfig, seqNum: u32, p: seq<byte>, t: nat)
    requires c.Valid() && t * MAX_PAYLOAD_SIZE < |p|
    ensures t * MAX_PACKAGE_SIZE <= |Stream(c, seqNum, p, EOF)|
    ensures Stream(c, seqNum, p, EOF)[t * MAX_PACKAGE_SIZE..]
         == Stream(c, AddU32(seqNum, t), p[t * MAX_PAYLOAD_SIZE..], EOF)
  {
    hide Stream, Sealed;
    StreamSplit(c, seqNum, p, EOF, t);
    SealedSize(c, seqNum, p, t);
  }

  /** A stream has no byte at or after package t when the plaintext has none in block t. */
  lemma {:induction false} StreamEnd(c: EncConfig, seqNum: u32, p: seq<byte>, t: nat)
    requires c.Valid() && |p| <= t * MAX_PAYLOAD_SIZE
    ensures |Stream(c, seqNum, p, EOF)| <= t * MAX_PACKAGE_SIZE
    decreases t
  {
    hide Package;
    if p != [] {
      if |p| <= MAX_PAYLOAD_SIZE {
        PackageSize(c, seqNum, p, true);
      } else {
        PackageSize(c, seqNum, p[..MAX_PAYLOAD_SIZE], false);
        StreamEnd(c, AddU32(seqNum, 1), p[MAX_PAYLOAD_SIZE..], t - 1);
      }
    }
  }
}
