/** authEncV20: seals one package into a buffer and counts sequence numbers. */
module AuthEncryption {
  import opened Bytes
  import opened Io
  import opened Dare

  class AuthEncV20 {
    const config: EncConfig
    var seqNum: u32
    var finalized: bool

    constructor (config: EncConfig, seqNum: u32)
      ensures this.config == config && this.seqNum == seqNum && !finalized
    {
      this.config := config;
      this.seqNum := seqNum;
      this.finalized := false;
    }

    /** Seals `data`, which lies outside dst, into dst from index `at` on.
        Sealing after the final package panics. */
    method Seal(dst: array<byte>, at: nat, data: seq<byte>, finalize: bool)
      requires config.Valid() && !finalized
      requires 1 <= |data| <= MAX_PAYLOAD_SIZE
      requires at + HEADER_SIZE + |data| + TAG_SIZE <= dst.Length
      modifies this, dst
      ensures finalized == finalize && seqNum == AddU32(old(seqNum), 1)
      ensures |Package(config, old(seqNum), data, finalize)| == |data| + 32
      ensures dst[..] == Splice(old(dst[..]), at, Package(config, old(seqNum), data, finalize))
    {
      ghost var was := dst[..];
      finalized := finalize;
      var header := MakeHeader(config.suite, |data|, config.rand, finalize);
      Put(dst, at, header);
      var sealed := config.aead.seal(config.suite, PackageNonce(Nonce(header), seqNum), AddData(header), data);
      Put(dst, at + HEADER_SIZE, sealed);
      seqNum := AddU32(seqNum, 1);
      SpliceTwice(was, at, header, sealed);
    }

    /** Seals the plaintext dst[16..16 + size] where it lies, so that the package starts at index 0.
        The header is written before the plaintext is read, and the ciphertext overwrites it. */
    method SealInPlace(dst: array<byte>, size: nat, finalize: bool)
      requires config.Valid() && !finalized
      requires 1 <= size <= MAX_PAYLOAD_SIZE
      requires HEADER_SIZE + size + TAG_SIZE <= dst.Length
      modifies this, dst
      ensures finalized == finalize && seqNum == AddU32(old(seqNum), 1)
      ensures |Package(config, old(seqNum), old(dst[16..16 + size]), finalize)| == size + 32
      ensures dst[..] == Splice(old(dst[..]), 0, Package(config, old(seqNum), old(dst[16..16 + size]), finalize))
    {
      ghost var was := dst[..];
      finalized := finalize;
      var header := MakeHeader(config.suite, size, config.rand, finalize);
      Put(dst, 0, header);
      SpliceOutside(was, 0, header, 16, 16 + size);
      assert dst[16..16 + size] == was[16..16 + size];
      var sealed := config.aead.seal(config.suite, PackageNonce(Nonce(header), seqNum), AddData(header), dst[16..16 + size]);
      Put(dst, HEADER_SIZE, sealed);
      seqNum := AddU32(seqNum, 1);
      SpliceTwice(was, 0, header, sealed);
    }
  }
}
