# Verified models of an object store's core algorithms

A Dafny model of the algorithmic core of a Go object store (a MinIO derivative over IPFS), and proofs about it:
the DARE encrypted stream formats, byte ranges of encrypted objects, the marker-driven tree walk with paginated
listing, quorum locks and local locks, chunk-signed uploads, incremental hashing, and a few smaller algorithms.
Code that works step by step on fields and buffers is modelled by classes and loops; each such method is proved
against a reference function of its input, and the lemmas say what that function means.

Verify everything with `dafny verify dfyconfig.toml --resource-limit 2000000`.

## What is modelled

**Common ground.** `Bytes` has bytes, 32-bit counters and slices. `Io` models `io.Reader` (a source that delivers
any positive number of bytes per call and reports its end with or after the last byte) and `io.Writer` (a sink
that may fail or fall short at any call). Every result about a stream machine therefore holds for all buffer
sizes, all ways of cutting the input and all short reads.

**DARE 2.0** (`pkg/sio`). `Dare` has the package layout, `Stream` (the canonical ciphertext of a plaintext) and
`Decode` (the meaning of any byte string for a decrypter). The cipher is an abstract pair `seal`/`open` with the
laws of section 2 of RFC 5116: opening what was sealed returns it, and sizes differ by the tag. The four stream machines
are `EncWriterV20`, `EncReaderV20`, `DecReaderV20` and `DecWriterV20`; `RandomAccess` adds `ReadAt`. The
decrypters are specified on every ciphertext, not only on valid ones: `WireFormat` says in plain bytes what stands in
a package and which pieces of any ciphertext are accepted, for both versions, and thereby what `Decode` releases.

**DARE 1.0**. `DareV10` with `Stream10` and `Decode10`, and the four machines in `WritersV10` and `ReadersV10`.
Payload sizes are any of 1 to 65536, and packages are re-framed as they come.

**Encrypted ranges.** `HttpRange` parses range specifications (section 2.1 of RFC 7233) and resolves them on
`int64` with wrap-around; `EncryptedRange` computes the window of packages, skips and limits.

**Listing.** `Tree` is a tree of files and directories as directory listings show it, `TreeWalk` the recursive
walk, `WalkMeaning` what a walk emits, `Resume` what a walk from a marker continues, `Listing` one page and the
pool of suspended walks, which all buckets share, and `Pagination` the pages one after the other.

**Locks.** `Dsync` is the quorum lock as a state machine: clients, collectors of answers and lockers take steps
in any order, answers may be refused or lost, a timeout may fire at any time, and releases may be lost.
`DsyncCollector` is one call of `lock` as its collector executes it, and `DsyncProgress` says what makes a call
succeed. `NamespaceLock` is the reference-counted
table of local locks. Each critical section is one method, between any two of them any other threads may run
(`Others`), and every section keeps `Valid`; so the invariant holds in every interleaving.

**Chunk-signed uploads.** `ChunkFraming` (framing, lengths, hexadecimal numbers), `ChunkSender` (the client's
reader), `ChunkParsing` (`Decode` for any input, and the grammar it accepts), `ChunkOutcomes` (every way an input can
end), `ChunkReceiver` (the server's reader) and `ChunkTransfer` (both together). The signature is an abstract function of the previous signature and the data.

**Hashing and small algorithms.** `BlockFold`, `HighwayHash` and `Sha256` (buffering, tails and padding over
abstract compression functions), `LaneMask`, `EditDistance` with `Triangle`, and `Wildcard`.

## What was found

- The DARE 2.0 decrypting writer does not notice a stream that ends between two packages before the final one;
  the reader reports it. `Dare.FeedMeansDecode` shows that this is the only difference, and
  `Dare.DecodeTruncated` that every other cut is noticed by both. DARE 1.0 notices no cut between packages at
  all (`DareV10.CutStream10`).
- `ReadAt` behind the end of the plaintext reports EOF only if the plaintext reaches the block of the offset, and
  an unexpected end otherwise (`RandomAccess.ReadAtStream`).
- Every range specification that is accepted is a single range of section 2.1 of RFC 7233 or has its end written as
  a minus sign and zeros, as in `bytes=0--0`. Three kinds that the section allows are refused: sets of ranges,
  positions of 2^63 and above, and the empty suffix `-0` (`HttpRange.AcceptedExactly`,
  `HttpRange.SingleRangesOnly`).
- `filterMatchingPrefix` is right if and only if the matching entries stand next to each other
  (`Tree.FilterMatchingPrefix`, `Tree.FilterFails`). A listing in name order and a prefix without a slash guarantee that.
- A recursive walk also emits the empty directories that the marker lies in or names, so a page whose walk has
  expired and whose marker is an empty directory begins with that directory again. With expiring walks the pages
  add up to the full listing if and only if no page but the last ends on an empty directory
  (`Pagination.ExpiredExactly`). With pages of one name the listing never gets past such a directory; the smallest
  tree is an empty directory before a file (`Pagination.StuckTree`). While walks stay suspended nothing is
  repeated (`Pagination.ListSuspended`).
  A prefix that is itself an empty directory is not emitted (`WalkMeaning.WalkExact`).
- With one locker the write quorum is two, so no write lock is ever granted; a grant that the collector receives before
  its timeout stays recorded and is never released (`Dsync.OneLockerNeverWrites`, `Dsync.OneLockerLeaks`), while one
  that comes later is drained. If no message is lost, a locker is free in the end unless it is the only one and the
  collector of some write lock received a grant (`Dsync.FreeExactly`). Safety does not depend on messages.
- The announced length of an empty upload is 0 although 86 bytes are sent (`ChunkFraming.StreamLengthExact`).
- A chunk header without digits is read as a chunk of size zero, which ends the stream
  (`ChunkRoundTrip.EmptyLengthEnds`).
- The nonce of a package repeats after 2^32 packages, since the sequence number wraps around; up to 2^48 bytes there
  is no repetition (`Dare.NoncesExactly`, `Dare.NoNonceTwice`).
- The edit distance is not a metric. The triangle inequality holds for all detours through a string if and only if
  that string repeats one byte (`Triangle.TriangleExactly`); for three given strings it holds if neither step has a
  reversed pair of neighbours (`Triangle.TriangleHolds`), and never fails by more than a factor of two
  (`Triangle.TriangleWithinTwo`).

## Model

| member | source | states |
|---|---|---|
| Dare.HeaderFields | pkg/sio/dare.go:31-50 | reading the fields of a header that the setters made returns what was set: version, cipher, length up to 65536 in 16 bits, final flag, nonce; the bytes of the nonce are those `WireFormat.PackageBytes` states |
| Dare.SealedUnder | pkg/sio/dare.go:172-190 | package number k of a stream is sealed under the nonce the following rows speak of |
| Dare.NoncesExactly | pkg/sio/dare.go:172-190 | packages i and j share a nonce if and only if both or neither is final and i and j are equal modulo 2^32 |
| Dare.NoNonceTwice | pkg/sio/dare.go:172-190 | up to 2^48 bytes of plaintext no two packages of a stream are sealed under one nonce |
| Dare.PackageLength | pkg/sio/dare.go:52-56 | a package is 32 bytes longer than its payload, and its header announces the payload's length |
| Dare.FailedStream | pkg/sio/writer-v2.go:27-58 | of a source that fails, exactly the full packages are sealed of which the byte behind them was seen |
| Dare.StreamSplit | pkg/sio/writer-v2.go:27-58 | for every k, the canonical ciphertext is k full non-final packages followed by the canonical ciphertext of the plaintext behind them, with sequence numbers counting packages |
| Dare.OpenedSize | pkg/sio/dare.go:215-258 | whatever ciphertext is opened successfully, its payload is what the header announces, and it is shorter than 65536 only if the stream is now finalized; what the payload is, and that nothing else is opened, is `WireFormat.OpenPiece` |
| Dare.OpenPackage | pkg/sio/dare.go:215-258 | a decrypter that stands where the encrypter stood opens the package to its payload, records finality and advances to the next sequence number |
| Dare.DecodeStream | pkg/sio/dare.go:172-258 | round trip: for every nonempty plaintext the canonical ciphertext decodes to it and a clean end |
| Dare.FeedSplit | pkg/sio/writer-v2.go:94-131 | feeding ciphertext in two pieces amounts to feeding their concatenation, for every cut |
| Dare.FeedMeansDecode | pkg/sio/writer-v2.go:94-150 | on every ciphertext, feeding a writer and closing it releases what a reader delivers and fails with the reader's error, except that a missing end between two packages is no error |
| Dare.DecodeTruncated | pkg/sio/reader-v2.go:118-163 | every proper prefix of a stream is an error for a reader, a missing end between packages and an invalid size elsewhere, and exactly the whole packages before the cut are released |
| WireFormat.PackageBytes | pkg/sio/dare.go:42-50 | what stands in every sealed package, byte by byte: version, cipher, length, in bytes 4 to 15 the random value with its top bit replaced by the final flag, and the payload sealed with the first four bytes as associated data under bytes 4 to 15, the last four of them combined with the sequence number low byte first |
| WireFormat.HeaderNonces | pkg/sio/dare.go:42-50 | packages of any two streams carry one header nonce if and only if both or neither is final and the random values agree up to the top bit |
| WireFormat.KeyNonces | pkg/sio/dare.go:185-187 | packages sealed under one nonce agree in bytes 4 to 11, and packages of one number are sealed under one nonce if and only if their header nonces are equal |
| Bytes.XorBitwise | pkg/sio/dare.go:187 | a bit of the combined nonce is set exactly if it is set in either the header nonce or the sequence number and not in both |
| WireFormat.Released | pkg/sio/dare.go:215-258 | for every ciphertext, what is released is the concatenation of what the AEAD opens its 65568-byte pieces to, each under its own cipher byte, header and number, as long as the pieces are in order; the error is that of the end or of the first piece that is not in order or does not open |
| WireFormat.ForgedPiece | pkg/sio/dare.go:253-254 | a piece that is in order but that the AEAD does not open is a tag mismatch after exactly the payloads before it |
| WireFormat.CleanEndExactly | pkg/sio/reader-v2.go:118-163 | a clean end is reported if and only if every piece of the ciphertext is accepted and the last one, and no other, is final |
| WireFormat.OpenPiece | pkg/sio/dare.go:215-258 | opening one piece: which check fails first and its error, and otherwise what the AEAD says |
| AuthEncryption.AuthEncV20.Seal | pkg/sio/dare.go:172-190 | the package of data lying elsewhere, of the bytes `WireFormat.PackageBytes` states, is written to the given place, nothing else changes, and the sequence number advances with wrap-around |
| AuthEncryption.AuthEncV20.SealInPlace | pkg/sio/dare.go:172-190 | sealing a payload where it lies gives the package of the payload as it was before |
| EncryptingWriter.EncWriterV20.Write | pkg/sio/writer-v2.go:27-58 | all accepted bytes but the last 1 to 65536 are in the sink as full packages of the bytes `WireFormat.PackageBytes` states and the rest is buffered; a failed sink holds a prefix of the stream |
| EncryptingWriter.EncWriterV20.Close | pkg/sio/writer-v2.go:60-72 | the sink holds the canonical ciphertext of everything written, or has failed and holds a prefix of it |
| EncryptingWriter.EncryptChunks | pkg/sio/writer-v2.go:27-72 | however a plaintext is cut into writes, the ciphertext is the one canonical stream of their concatenation |
| EncryptingReader.EncReaderV20.Read | pkg/sio/reader-v2.go:34-96 | each call appends to what was delivered the next bytes of the canonical ciphertext of the source, through partial buffers, lookahead and in-place sealing; the end comes only when all is delivered |
| EncryptingReader.EncReaderV20.OutIsPrefix | pkg/sio/reader-v2.go:34-96 | what was delivered is at any time a prefix of the canonical ciphertext, and all of it once the reader is finalized and drained |
| EncryptingReader.EncryptDrain | pkg/sio/reader-v2.go:34-96 | with buffers of any sizes the reader delivers the canonical ciphertext, then the error of its source |
| DecryptingReader.DecReaderV20.Read | pkg/sio/reader-v2.go:118-163 | on any ciphertext, each call delivers the next part of what the ciphertext means, which is what `WireFormat.Released` states, and its error comes after exactly the plaintext before it |
| DecryptingReader.DecryptDrain | pkg/sio/reader-v2.go:118-163 | with buffers of any sizes the reader delivers what the ciphertext means and ends with its error |
| DecryptingWriter.DecWriterV20.Write | pkg/sio/writer-v2.go:94-131 | on any ciphertext, a call releases the plaintext of the packages completed so far, keeps the incomplete rest and reports the first package that does not open; on the whole this is what `WireFormat.Released` states (`Dare.FeedMeansDecode`) |
| DecryptingWriter.DecWriterV20.Close | pkg/sio/writer-v2.go:133-150 | the kept bytes are opened as a last package; keeping none is no error, whether or not the final package was seen |
| DecryptingWriter.DecryptChunks | pkg/sio/writer-v2.go:94-150 | however a ciphertext is cut into writes, what is released and the error are those of a reader, up to the unnoticed missing end |
| RoundTrips.RoundTrip20 | pkg/sio/writer-v2.go:27-150 | for every nonempty plaintext writer and reader form make the same ciphertext, and both decrypters return the plaintext, for all buffer sizes and cuts |
| Sizes.SizesInverse | pkg/sio/sio.go:86-110 | the two size functions are inverse to each other wherever either succeeds |
| Sizes.StreamSize | pkg/sio/sio.go:86-96 | EncryptedSize is the exact length of the canonical ciphertext, for all plaintexts up to 2^48 bytes |
| Sizes.SizeErrors | pkg/sio/sio.go:86-110 | sizes beyond 2^48 bytes of plaintext or beyond its ciphertext are unexpected, and of the others exactly those are invalid that no ciphertext has |
| RandomAccess.DecReaderAtV20.ReadAt | pkg/sio/reader-v2.go:190-235 | on any stored bytes, ReadAt delivers a window of what decoding from package offset / 65536 gives, with EOF only if it is short |
| RandomAccess.DecodeFrom | pkg/sio/reader-v2.go:190-235 | decoding a stream from package t on, with sequence number t, gives the plaintext from block t on; behind the last package it is an unexpected end |
| RandomAccess.ReadAtStream | pkg/sio/reader-v2.go:190-235 | on a stream encrypted from sequence number 0, ReadAt is ReadAt on the plaintext, for all offsets and sizes, with the exact error behind the end |
| DareV10.HeaderFields10 | pkg/sio/dare.go:10-22 | reading the fields of a header returns what was set, the 32-bit sequence number included |
| DareV10.FrameSplit | pkg/sio/writer-v1.go:121-150 | framing a plaintext in two pieces amounts to framing their concatenation |
| DareV10.FrameStream | pkg/sio/writer-v1.go:121-163 | the full packages framed and the kept bytes as a last package are the canonical ciphertext |
| DareV10.OpenPackage10 | pkg/sio/dare.go:118-142 | a package opens to its payload at its own sequence number and is refused as out of order at every other one |
| DareV10.DecodeStream10 | pkg/sio/dare.go:90-142 | round trip for every payload size from 1 to 65536 and every plaintext, the empty one included |
| DareV10.FeedMeansDecode10 | pkg/sio/writer-v1.go:25-100 | on every ciphertext, writer and reader agree on the plaintext and on the error |
| DareV10.CutStream10 | pkg/sio/reader-v1.go:132-150 | for every cut of a stream, the whole packages before it are released; a cut between packages is a clean end, any other an invalid size |
| WireFormat.PackageBytes10 | pkg/sio/dare.go:90-99 | what stands in every DARE 1.0 package, byte by byte |
| WireFormat.Released10 | pkg/sio/dare.go:118-142 | every ciphertext is a sequence of packages of the announced lengths that are in order and open, whose payloads are released, and a rest that starts with none, which decides the error |
| WireFormat.ForgedPackage10 | pkg/sio/dare.go:138-139 | a package that is in order but that the AEAD does not open is a tag mismatch after exactly the payloads before it |
| WritersV10.EncWriterV10.Write | pkg/sio/writer-v1.go:121-150 | every full payload is sealed and flushed as soon as it is complete, the rest is kept; a failed sink holds a part of it |
| WritersV10.EncWriterV10.Close | pkg/sio/writer-v1.go:152-163 | the kept bytes become a last package; nothing is sent if none are kept |
| WritersV10.EncryptChunks10 | pkg/sio/writer-v1.go:121-163 | however a plaintext is cut into writes, the sink receives the canonical ciphertext |
| WritersV10.DecWriterV10.Write | pkg/sio/writer-v1.go:25-75 | on any ciphertext and any cut, also inside a header, a call releases the packages completed so far, keeps the rest and reports the first package that does not open |
| WritersV10.DecWriterV10.Close | pkg/sio/writer-v1.go:77-97 | kept bytes are always an incomplete package and an error; the branch that opens them is never reached |
| WritersV10.DecryptChunks10 | pkg/sio/writer-v1.go:25-97 | however a ciphertext is cut into writes, what is released and the error are those of a reader |
| ReadersV10.EncReaderV10.Read | pkg/sio/reader-v1.go:32-69 | each call delivers the next bytes of the canonical ciphertext of the source and a failing source's error after the whole packages before it |
| ReadersV10.EncryptDrain10 | pkg/sio/reader-v1.go:32-69 | with buffers of any sizes the reader delivers the canonical ciphertext |
| ReadersV10.DecReaderV10.Read | pkg/sio/reader-v1.go:90-130 | on any ciphertext, each call delivers the next part of what it means, and its error comes after exactly the plaintext before it |
| ReadersV10.DecryptDrain10 | pkg/sio/reader-v1.go:90-150 | with buffers of any sizes the reader delivers what the ciphertext means |
| RoundTrips.RoundTrip10 | pkg/sio/writer-v1.go:25-163 | for every payload size and plaintext, writer and reader form make the same ciphertext and both decrypters return the plaintext |
| HttpRange.RangeSelects | cmd/ipos/cmd/httprange.go:20-73 | a resolved range is exactly the set of positions the specification selects, and resolving fails exactly when a specification with a start selects none |
| HttpRange.ParsedIsWellFormed | cmd/ipos/cmd/httprange.go:75-127 | what the parser returns is a nonempty suffix or a start with an optional end behind it |
| HttpRange.ParsePositionExact | cmd/ipos/cmd/httprange.go:87-109 | one side of the dash is accepted exactly if it is empty, digits that fit an int64, or a minus sign and zeros |
| HttpRange.ParsedShape | cmd/ipos/cmd/httprange.go:75-85 | what is accepted is the prefix and two strings around the first dash |
| HttpRange.ParseRangeExact | cmd/ipos/cmd/httprange.go:75-127 | for any two strings around the dash, exactly when they are accepted and the range they denote |
| HttpRange.AcceptedExactly | cmd/ipos/cmd/httprange.go:75-127 | accepted are exactly the single ranges of RFC 7233 with positions below 2^63 and a nonempty suffix, and byte 0 with a signed zero as its end |
| HttpRange.SingleRangesOnly | cmd/ipos/cmd/httprange.go:75-127 | nothing with a comma is accepted, so no set of ranges |
| HttpRange.RefusedExactly | cmd/ipos/cmd/httprange.go:111-127 | a refused specification is an invalid range if and only if its positions are right and its end lies before its start or its suffix is empty, and malformed otherwise |
| HttpRange.WrittenRange | cmd/ipos/cmd/httprange.go:75-127 | two decimal numbers around the dash are the range between them, or an invalid range if the first is greater |
| HttpRange.WrittenSuffix | cmd/ipos/cmd/httprange.go:117-121 | a dash and a decimal number are the suffix of that length, or an invalid range if it is 0 |
| HttpRange.SignedZeroAccepted | cmd/ipos/cmd/httprange.go:99-109 | the specification bytes=0--0 is accepted as the range of byte 0 |
| EncryptedRange.FindPart | cmd/ipos/cmd/encryption-v1.go:500-515 | the loop finds the first part that reaches beyond the position, with the plain and encrypted sizes before it |
| EncryptedRange.PackageWindow | cmd/ipos/cmd/encryption-v1.go:500-539 | the window starts at the package that holds the first position and ends behind the package that holds the last one, or at the end of the object |
| EncryptedRange.GetDecryptedRange | cmd/ipos/cmd/encryption-v1.go:474-539 | for every object size and range: the error cases, and else the encrypted window, the bytes to skip and the first package number |
| EncryptedRange.SkipReader.SkipAll | pkg/ioutil/ioutil.go:98-114 | skipping with buffers of any size drops exactly the bytes to skip from what is delivered, or ends with the stream's error |
| EncryptedRange.SkipReader.Read | pkg/ioutil/ioutil.go:98-114 | what the reader delivers over all its calls is the underlying stream without the skipped bytes |
| EncryptedRange.DecodeWindow | cmd/ipos/cmd/encryption-v1.go:474-539 | the window lies inside the object, and decrypting just it from its package number gives, behind the skipped bytes, the selected plaintext |
| EncryptedRange.ServeRange | cmd/ipos/cmd/object-api-utils.go:346-400 | for every plaintext up to 2^48 bytes and every request the client receives the whole plaintext without a range and exactly the selected positions with one, and a range that starts behind the end is refused as invalid |
| Tree.FilterMatchingPrefix | cmd/ipos/cmd/tree-walk.go:14-37 | the result is the sorted list of the matching entries, and only matching ones are returned if and only if they stand together in the listing |
| Tree.FilterFails | cmd/ipos/cmd/tree-walk.go:14-37 | for the listing ab, b, ac and the prefix a the result holds an entry without the prefix |
| Tree.NameOrderContiguous | cmd/ipos/cmd/tree-walk.go:14-37 | in a directory listed by name the entries with a prefix without slash stand together, although directory entries end in a slash |
| PathOrder.LessExactly | cmd/ipos/cmd/tree-walk.go:35 | the order of listings: one string is a proper beginning of the other or has the smaller character where they first differ |
| TreeWalk.SearchEntries | cmd/ipos/cmd/tree-walk.go:58-64 | binary search finds the first entry not below the marker's first component |
| TreeWalk.DoTreeWalk | cmd/ipos/cmd/tree-walk.go:41-106 | the recursive walk sends exactly the selected paths in order with the end flag on the last, or a prefix of them if it is abandoned, and reports exactly the empty directory |
| TreeWalk.SelectedIsFilter | cmd/ipos/cmd/tree-walk.go:66-103 | descending with the marker split per level selects what filtering the list of all leaf paths by the whole marker selects |
| WalkMeaning.StartTreeWalk | cmd/ipos/cmd/tree-walk.go:108-125 | splitting the prefix at its last slash and making the marker relative starts the walk whose results the following rows describe |
| WalkMeaning.LeavesExact | cmd/ipos/cmd/tree-walk.go:41-106 | the leaves of the filtered entries are exactly the leaf paths with the prefix |
| WalkMeaning.LookupLeaf | cmd/ipos/cmd/tree-walk.go:108-125 | the leaf paths below the prefix's directory are the leaf paths of the tree that start with it |
| WalkMeaning.WalkOrder | cmd/ipos/cmd/tree-walk.go:41-106 | the results are strictly increasing, hence without repetition, and the last one and no other has the end flag |
| WalkMeaning.WalkExact | cmd/ipos/cmd/tree-walk.go:41-125 | a recursive walk emits a path if and only if it is a leaf of the tree, has the prefix, is behind the marker or an empty directory the marker is in, and is not the prefix's own directory |
| WalkMeaning.FlatWalkExact | cmd/ipos/cmd/tree-walk.go:41-125 | a walk that does not descend emits exactly the entries of the prefix's directory with the prefix and behind the marker |
| Resume.FreshIsSuffix | cmd/ipos/cmd/tree-walk.go:108-125 | a fresh walk from any marker is a suffix of the walk from the beginning |
| Resume.ResumeExact | cmd/ipos/cmd/object-api-common.go:140-144 | a fresh walk from the k-th path continues right behind it, except that an empty directory comes again |
| Listing.TreeWalkPool.Release | cmd/ipos/cmd/tree-walk-pool.go:44-62 | the oldest walk suspended under the parameters is taken out and all others stay |
| Listing.TreeWalkPool.Set | cmd/ipos/cmd/tree-walk-pool.go:64-100 | the walk is added behind those with the same parameters and all others stay |
| Listing.SplitExactly | cmd/ipos/cmd/object-api-common.go:199-206 | with a slash as delimiter the common prefixes are exactly the names that end in a slash and the objects exactly the others, each once and in the order of the names; without a delimiter all names are objects |
| Listing.ReceivePage | cmd/ipos/cmd/object-api-common.go:150-192 | a page takes the next results up to the page size, and end of listing is noticed exactly when none are left |
| Listing.ListObjects | cmd/ipos/cmd/object-api-common.go:108-216 | a page is the next names of its bucket's full listing, right behind the marker if its walk was suspended and else where a fresh walk starts, divided into objects and common prefixes by their last character; it is truncated exactly when names are left, then holds the requested number of names (10000 at most), and the next marker is its last name; walks of other buckets in the pool do not matter |
| Pagination.NextPageStarts | cmd/ipos/cmd/object-api-common.go:140-144 | the page after the first k names starts at name k, or one name before it if its walk has expired and that name is an empty directory |
| Pagination.ListAll | cmd/ipos/cmd/object-api-common.go:108-216 | if no page but the last ends on an empty directory, following the next marker lists everything once in order and terminates, for every page size and with walks expiring at any time |
| Pagination.ListSuspended | cmd/ipos/cmd/object-api-common.go:108-216 | if no walk expires, following the next marker lists everything once in order and terminates, for every tree and page size |
| Pagination.ListExpired | cmd/ipos/cmd/object-api-common.go:108-216 | if all walks expire between pages, any number of pages gives exactly the names FreshPages says, for every tree |
| Pagination.ExpiredExactly | cmd/ipos/cmd/object-api-common.go:140-215 | those pages add up to the full listing if and only if no page but the last ends on an empty directory |
| Pagination.StuckForEver | cmd/ipos/cmd/object-api-common.go:140-215 | from an empty directory that is not the last name, any number of pages of one name are that directory again |
| Pagination.EmptyDirectoryRepeats | cmd/ipos/cmd/object-api-common.go:108-216 | a page from an empty directory whose walk has expired begins with that directory; a page of one name is truncated with the same next marker |
| Pagination.StuckTree | cmd/ipos/cmd/tree-walk.go:66-103 | for an empty directory before a file, any number of pages of one name is that directory over and over |
| Dsync.QuorumsMeet | pkg/dsync/drwmutex.go:175-176 | a write quorum and any quorum have a locker in common, for every number of lockers |
| Dsync.WinnersRead | pkg/dsync/drwmutex.go:223-240 | of two calls that both have a quorum neither is a write lock |
| Dsync.StepInv | pkg/dsync/drwmutex.go:84-312 | every step of clients, collectors and lockers keeps the invariant that ties recorded grants to locker states and counters to slots |
| Dsync.LockSafety | pkg/dsync/drwmutex.go:84-118 | in every run of any clients over any lockers, with lost messages and timeouts, two locks held at once are both read locks |
| Dsync.NothingOverwritten | pkg/dsync/drwmutex.go:101-110 | a write lock is recorded only where none is recorded, so no grant is forgotten by overwriting |
| Dsync.FreeExactly | pkg/dsync/drwmutex.go:178-221 | in a run without lost messages, once nothing is pending, a locker is free if and only if there are several lockers or in no step of the run the collector of a write lock took a grant before its timeout |
| Dsync.NoGrantOutlives | pkg/dsync/drwmutex.go:178-221 | in a run without lost messages over several lockers or with read locks only, once nothing is pending every locker is free |
| Dsync.OneLockerNeverWrites | pkg/dsync/drwmutex.go:175-176 | with one locker no write quorum exists |
| Dsync.OneLockerLeaks | pkg/dsync/drwmutex.go:178-221 | a run of one call with one locker and no lost message in which the failed write lock leaves the locker locked |
| DsyncProgress.AbortsExactly | pkg/dsync/drwmutex.go:185-190 | a refusal aborts a call if and only if the lockers that have not refused are less than half, for a write lock less than half and one more |
| DsyncProgress.WinsExactly | pkg/dsync/drwmutex.go:195-205 | at the end of the answers or at the timeout a call has won if and only if its recorded grants are that many |
| DsyncProgress.LockObtainable | pkg/dsync/drwmutex.go:120-221 | from any state in which no locker holds a conflicting lock, whatever else is under way, a run of a new call leads to its holding the lock: over any number of lockers for reading, over two or more for writing |
| DsyncProgress.ReleaseTakesBack | pkg/dsync/rpc-client-interface.go:11-18 | a release takes back one grant of its own identifier and kind, and a release of any other identifier changes nothing |
| DsyncCollector.QuorumIsMet | pkg/dsync/drwmutex.go:223-240 | the answer in numbers: a read lock needs recorded grants of at least half of the lockers, a write lock of at least half and one more |
| DsyncCollector.ReleaseAll | pkg/dsync/drwmutex.go:242-249 | every recorded grant is released once and none stays recorded |
| DsyncCollector.Collect | pkg/dsync/drwmutex.go:167-221 | for every order of answers: a call whose timeout does not fire succeeds if and only if the granting lockers are at least half, for a write lock at least half and one more, and then records all grants; one whose timeout fires succeeds if and only if the grants received by then are; each grant is either recorded or released once, and a failed call records none unless it is a write lock over one locker |
| NamespaceLock.NsLock.TryLock | pkg/lsync/lrwmutex.go:51-92 | a write attempt succeeds exactly on a free lock, a read attempt exactly without a writer, and a failed attempt changes nothing |
| NamespaceLock.NsLock.Unlock | pkg/lsync/lrwmutex.go:112-131 | unlocking succeeds exactly if a lock of that kind is held |
| NamespaceLock.NsLockMap.Register | cmd/ipos/cmd/namespace-lock.go:43-61 | the entry is created or counted once more, and the invariant holds: an entry exists exactly for used resources, its count is the number of its users, its state says who holds it |
| NamespaceLock.NsLockMap.Attempt | pkg/lsync/lrwmutex.go:51-92 | an attempt succeeds exactly if no thread holds the resource in conflict |
| NamespaceLock.NsLockMap.Release | cmd/ipos/cmd/namespace-lock.go:79-92 | a thread that holds releases without panic, whatever other threads did since it took the lock |
| NamespaceLock.NsLockMap.Forget | cmd/ipos/cmd/namespace-lock.go:69-76 | the entry is dropped exactly with its last user, so never while held; the count is never 0 before |
| NamespaceLock.NsLockMap.Exclusion | cmd/ipos/cmd/namespace-lock.go:43-102 | two threads that hold one resource are both readers and hold the lock the table has |
| NamespaceLock.NsLockMap.Others | cmd/ipos/cmd/namespace-lock.go:43-102 | any number of sections of other threads, in any interleaving, keep the invariant and leave a thread's own place alone |
| NamespaceLock.NsLockMap.Lock | cmd/ipos/cmd/namespace-lock.go:43-77 | a call fails only after at least one attempt and a conflicting holder at each, and leaves no trace in the table; one that succeeds holds, whatever other threads do meanwhile |
| NamespaceLock.NsLockMap.Unlock | cmd/ipos/cmd/namespace-lock.go:79-102 | after the call the thread is out of the table |
| NamespaceLock.LocalLockInstance.GetLock | cmd/ipos/cmd/namespace-lock.go:154-171 | either every path is held, or one path was held by others at every attempt and exactly the paths taken are released again |
| NamespaceLock.LocalLockInstance.Unlock | cmd/ipos/cmd/namespace-lock.go:173-178 | all paths are released |
| NamespaceLock.PathJoinInjective | cmd/ipos/cmd/namespace-lock.go:46 | different paths of different volumes have different entries |
| ChunkFraming.HexRoundTrip | pkg/signer/request-signature-streaming.go:81-83 | the hexadecimal number the sender writes has the value it was made from |
| ChunkFraming.HexDigits | pkg/signer/request-signature-streaming.go:81-83 | it is written in lower-case digits without leading zeros |
| ChunkFraming.StreamLengthExact | pkg/signer/request-signature-streaming.go:31-54 | the announced length is the number of bytes sent, for every payload but the empty one, for which 86 bytes are sent and 0 announced |
| ChunkParsing.DecodeChain | cmd/ipos/cmd/streaming-signature-v4.go:185-249 | a chain of chunks, each signed over the signature before it, is read as their data, and reading goes on behind it |
| ChunkParsing.EndExactly | cmd/ipos/cmd/streaming-signature-v4.go:185-249 | EOF after some data is reported if and only if the input starts with a chain of signed chunks carrying that data and a signed empty chunk |
| ChunkOutcomes.DecodeExactly | cmd/ipos/cmd/streaming-signature-v4.go:185-249 | for every input, what is delivered and how it ends: the data of a chain of verified chunks, and then one of nine endings, each stated in the bytes that follow the chain |
| ChunkOutcomes.ForgedChunk | cmd/ipos/cmd/streaming-signature-v4.go:231-237 | a chunk that does not carry its signature ends the stream with a mismatch, after its data |
| ChunkOutcomes.LengthRefused | cmd/ipos/cmd/streaming-signature-v4.go:307-326 | a length is refused as too large exactly if its first 17 bytes are digits, and as invalid exactly if one of the first 17 is none |
| ChunkOutcomes.DigitsValue | cmd/ipos/cmd/streaming-signature-v4.go:307-326 | digit strings of either case are numbers in positional notation |
| ChunkOutcomes.DigitValues | cmd/ipos/cmd/streaming-signature-v4.go:309-318 | the value of every digit, upper-case and lower-case, and that no other byte has one |
| ChunkOutcomes.MarkedLine | cmd/ipos/cmd/streaming-signature-v4.go:280-305 | a header line is split at the first signature mark, and whitespace at its end is dropped |
| ChunkRoundTrip.FrameAccepted | cmd/ipos/cmd/streaming-signature-v4.go:263-326 | the header the sender writes is parsed to the length and signature it was made from |
| ChunkRoundTrip.EmptyLengthEnds | cmd/ipos/cmd/streaming-signature-v4.go:307-326 | a header line without digits and with the signature of the empty chunk ends the stream |
| ChunkRoundTrip.StreamDecodes | pkg/signer/request-signature-streaming.go:123-138 | the receiver's reading of the sender's stream is the payload and EOF, whatever follows |
| ChunkSender.StreamingReader.SignChunk | pkg/signer/request-signature-streaming.go:123-138 | the frame of the chunk is appended and its signature becomes the previous one |
| ChunkSender.StreamingReader.Read | pkg/signer/request-signature-streaming.go:184-219 | for a body of the announced length the calls deliver the chunk stream piece by piece and then EOF; for any other body no call up to and including the first error reports EOF (a caller that goes on after the length error is given what is left in the buffer and then EOF) |
| ChunkSender.SendStream | pkg/signer/request-signature-streaming.go:184-219 | with buffers of any sizes, EOF is reached if and only if the body has the announced length, and then the chunk stream of the body was sent |
| ChunkReceiver.TrimTrailingWhitespace | cmd/ipos/cmd/streaming-signature-v4.go:280-291 | the result is a prefix that does not end in whitespace, and all that was dropped is whitespace |
| ChunkReceiver.ParseHexUint | cmd/ipos/cmd/streaming-signature-v4.go:307-326 | at most 16 digits are accepted, no bit is lost in 64 bits, and each error is reported at its first cause |
| ChunkReceiver.ReadLine | cmd/ipos/cmd/streaming-signature-v4.go:263-278 | a line is accepted exactly if its line feed is among the first 4095 bytes; otherwise the error says whether the input was cut short or the line is too long |
| ChunkReceiver.ChunkedReader.Read | cmd/ipos/cmd/streaming-signature-v4.go:185-249 | on any input: after every successful call all that was delivered is the data of verified chunks and a proper part of the current one; EOF comes only after the verified empty chunk; any other error is the one the input calls for |
| ChunkTransfer.ReceiveStream | cmd/ipos/cmd/streaming-signature-v4.go:185-249 | with buffers of any sizes, EOF is reached if and only if the input starts with a signed stream, and then its data was delivered |
| ChunkTransfer.Transfer | pkg/signer/request-signature-streaming.go:123-219 | the payload arrives whole and then EOF, for all buffer sizes on both sides |
| BlockFold.Blocks | pkg/sha256-simd/sha256.go:263-309 | the loop over the blocks of a message is the fold of the compression function over its full blocks |
| BlockFold.FoldSplit | pkg/sha256-simd/sha256.go:263-309 | compressing two parts that meet at a block boundary compresses the whole |
| HighwayHash.LastBlockInjective | pkg/highwayhash/highwayhash.go:171-200 | the packing of the last partial block loses nothing: two tails of one length are never packed alike |
| HighwayHash.HashPerforms | pkg/highwayhash/highwayhash.go:48-66 | for every core, the hash is what is left by the calls of the message: key setup, a round for every whole block in order, and for a partial one the mixing of its length and a round for its packing |
| HighwayHash.CallsInjective | pkg/highwayhash/highwayhash.go:171-200 | no two messages make the same calls, and no two keys: what is hashed, the length of the tail included, determines the message |
| HighwayHash.HashBuffer | pkg/highwayhash/highwayhash.go:171-200 | the result depends on the first `offset` bytes of the buffer only, so stale bytes do not matter; that the length is mixed in is `HighwayHash.HashPerforms` |
| HighwayHash.Digest.Reset | pkg/highwayhash/highwayhash.go:133-136 | the digest stands as if nothing had been written |
| HighwayHash.Digest.Write | pkg/highwayhash/highwayhash.go:138-159 | the digest's state and buffer are those of everything written so far |
| HighwayHash.Digest.Sum | pkg/highwayhash/highwayhash.go:161-169 | the sum is the hash of everything written, which performs the calls `HighwayHash.HashPerforms` states, and the digest is unchanged |
| HighwayHash.SumOnce | pkg/highwayhash/highwayhash.go:48-108 | the one-shot sum is the same hash |
| HighwayHash.HashPieces | pkg/highwayhash/highwayhash.go:138-169 | writing in any pieces gives the hash of their concatenation |
| Sha256.PaddingRule | pkg/sha256-simd/sha256.go:132-209 | the padded message is whole blocks with the fewest zeros, as section 5.1.1 of FIPS 180-4 demands |
| Sha256.PaddedInjective | pkg/sha256-simd/sha256.go:132-209 | messages below 2^61 bytes are never padded alike |
| Sha256.PaddedBytes | pkg/sha256-simd/sha256.go:132-209 | the padded message byte by byte: the message, the byte 0x80, zeros, and the length in bits modulo 2^64 as eight bytes, highest first |
| Sha256.HashBlocks | pkg/sha256-simd/sha256.go:132-245 | the hash compresses every block of the padded message, once and in order |
| Sha256.Digest.Write | pkg/sha256-simd/sha256.go:103-124 | the digest's state, buffer and 64-bit counter are those of everything written so far |
| Sha256.Digest.Sum | pkg/sha256-simd/sha256.go:126-245 | one or two last blocks formed in one array finish the hash of the padded message |
| Sha256.Digest.SumAvx512 | pkg/sha256-simd/sha256blockAvx512_amd64.go:73-103 | the trailer appended by slices and shifts is the same last blocks |
| Sha256.HashPieces | pkg/sha256-simd/sha256.go:103-245 | writing in any pieces and finishing in either way gives the hash of the concatenation |
| LaneMask.ClearBit | pkg/sha256-simd/sha256blockAvx512_amd64.go:425-425 | clearing a lane's bit changes no other bit |
| LaneMask.GenMask | pkg/sha256-simd/sha256blockAvx512_amd64.go:408-429 | expanded, the masks and round counts have a row per block of the longest input, and bit c of row r is set exactly if input c has more than r blocks |
| LaneMask.ExpandMask | pkg/sha256-simd/sha256blockAvx512_amd64.go:431-443 | the array holds each mask as often as its rounds say |
| LaneMask.Masks | pkg/sha256-simd/sha256blockAvx512_amd64.go:408-443 | both together, for any 16 input lengths |
| EditDistance.DamerauLevenshteinDistance | pkg/words/damerau-levenshtein.go:15-45 | the matrix holds the distance of all prefixes, so the result is the distance, cut off at MaxInt32 |
| EditDistance.NoneCheaper | pkg/words/damerau-levenshtein.go:15-45 | no script of insertions, deletions, substitutions and swaps of neighbours that edits one string into the other costs less |
| EditDistance.Cheapest | pkg/words/damerau-levenshtein.go:15-45 | some script costs exactly the distance |
| EditDistance.Symmetric | pkg/words/damerau-levenshtein.go:15-45 | the distance does not depend on the order of the strings |
| EditDistance.ZeroIffEqual | pkg/words/damerau-levenshtein.go:15-45 | it is zero exactly for equal strings |
| EditDistance.Bounds | pkg/words/damerau-levenshtein.go:15-45 | it lies between the difference of the lengths and the longer length |
| EditDistance.TriangleFails | pkg/words/damerau-levenshtein.go:15-45 | three short strings for which the triangle inequality fails |
| Triangle.TriangleHolds | pkg/words/damerau-levenshtein.go:15-45 | the triangle inequality holds for all strings of which no two distinct neighbours of the first stand reversed in the second, nor of the second in the third |
| Triangle.TriangleWithinTwo | pkg/words/damerau-levenshtein.go:15-45 | for all strings a detour costs at least half the distance |
| Triangle.DetourExists | pkg/words/damerau-levenshtein.go:36-41 | through every string with two distinct neighbours there is a detour of cost two between strings at distance three |
| Triangle.TriangleExactly | pkg/words/damerau-levenshtein.go:15-45 | the inequality holds for all detours through a string if and only if the string repeats one byte |
| Triangle.CommonAround | pkg/words/damerau-levenshtein.go:15-45 | a common beginning and a common end do not change the distance |
| Triangle.DistanceReversed | pkg/words/damerau-levenshtein.go:15-45 | the distance is the same read backwards |
| Wildcard.DeepMatchRune | pkg/wildcard/match.go:41-60 | the loop and recursion terminate, never slice an empty string and decide whether the name splits into one fitting piece per rune of the pattern |
| Wildcard.Match | pkg/wildcard/match.go:22-39 | a pattern matches a name if and only if the name splits into pieces, any string for each star, one rune for each question mark and the rune itself for any other |

## Left out

- Ciphers, hash compression functions, HMAC and their assembly: abstract functions with the one or two laws a proof needs; how hard they are to break is not modelled.
- The choice between DARE 1.0 and 2.0 by looking at the first bytes (`pkg/sio/sio.go`, generic readers and writers), configuration defaults, key derivation and `decReaderAtV10`.
- Closing a sink that is also an `io.Closer`, and what stream machines do when they are called again after an error.
- The memory that decrypting in place overwrites while a package fails to open: the model opens by value, and a failed call says nothing about the rest of the caller's buffer.
- Multi-part encrypted objects: the loops over parts are proved for any parts, but the range arithmetic is used for one part, as the code calls it.
- Integer wrap-around of `int64` outside the ranges a parsed specification can have.
- `pathJoin` cleaning of dots and double slashes: joining is concatenation, which it is for clean names.
- `listObjectsNonSlash`, errors of `getObjInfo`, and listing a prefix that names a file as a directory.
- The race in the expiry of a suspended walk that is released at the same moment: a walk either expires or is released.
- Changes of the tree while it is listed.
- Pagination.ListAll: it requires that no page but the last ends on an empty directory, because otherwise an expired walk makes the listing repeat that directory; `Pagination.ExpiredExactly` says that this is exactly when it does.
- dsync's retry timer: a retried call is a new attempt. Which lockers are offline is a refusal. Lockers keep one resource and tell grants apart by their identifier, as one call sends it.
- Dsync.LockSafety: safety only. That a lock can be obtained is `DsyncProgress.LockObtainable`; that it eventually is, under contention, is not claimed, and the code does not guarantee it.
- `ForceUnlock`, and threads that unlock what they do not hold.
- NamespaceLock.NsLockMap.Lock: timeouts are a number of attempts chosen freely; the cancelled context is not modelled, since the retry loop does not stop for it.
- Sorting the paths of a local lock request: the request takes its paths in the order given.
- The construction of the string to sign, which both sides build alike, the seed signature and HTTP headers.
- ChunkSender.StreamingReader.Read: nothing is proved about calls after an error other than EOF.
- Listing of a bucket that does not exist: the object layer refuses it before listing.
- ChunkReceiver.ReadLine: when exactly the last 4096 bytes of a stream hold no line feed, either of the two errors may be reported, as bufio leaves it open. The same holds for a stream that ends right behind the data of a chunk: it is a missing trailer or an unexpected end, depending on whether the end is reported with the data.
- ChunkReceiver.ChunkedReader.Read: nothing is said about calls after an error other than EOF; the code then goes on reading, for instance with the next line.
- The server goroutine of the AVX-512 hash, which keeps a reference to the digest's buffer until it has a batch; the model hands blocks over by value and finishes as if they were compressed in order.
- Decoding strings into runes for the wildcard matcher, and `MatchSimple`.
- HTTP handlers, credentials, policies, the web interface and the storage layer.
