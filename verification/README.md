# Verified models of the forensic file system readers

A model in Dafny 4.11 of the decoders and readers at the core of FileSystemForensics, with proofs that each
agrees with something simpler: a plaintext disk, a run-by-run meaning, a recursive walk, a plain scan.

Run `dafny verify dfyconfig.toml` in this directory to check everything.

## The modules

| file | what it models |
|---|---|
| Wrappers, Bytes, Arithmetic, Sorting, MapOrder | outcomes of Go calls (return, error, run-time fault), bytes and little-endian numbers, copying into buffers, sorted lists, maps gone through in any order |
| BlockCipher, Xts | an abstract 16-byte block cipher, and AES-XTS over it |
| Cbc, Readers, ReaderLimits | disk images, the reader that decrypts what it reads, and exactly which reads it gets right |
| EndianInts, RunLists | variable-width integers and the mapping pairs of NTFS run lists, decoded into a linked list |
| RunContents, RunReaders | what a run list means, and the three readers of it |
| Ccm | AES-CCM, and opening a sealed key with its tag |
| Datums | BitLocker's nested metadata records |
| RecoveryKeys | the 48-digit recovery key |
| FreeClusters, BitmapExports | the cluster bitmap, the export of unallocated space, and the export from the bitmap file on |
| FixUps | update sequence arrays of log pages and index records |
| DirTrees | the directory tree built from untrusted parent numbers |
| SignatureTries | the trie of file signatures |
| BtrfsNodes, BtrfsWalk, BtrfsInodes | BTRFS nodes and chunks, the B-tree walk, the entries per inode |
| BtrfsExtents, BtrfsReaders | the grouping of extents, the grouped and the original reader |
| MftTables | the table of MFT records filled by concurrent workers |

Code that works in place is a method over arrays or objects, proved against a specification function or
predicate; what the program promises is then proved of the specification as lemmas. `Outcome` tells a
returned value, a returned error and a run-time fault apart. Iterating over a Go map picks its keys in
arbitrary order; goroutines are workers that take steps in arbitrary order.

A disk is a sequence of bytes, and a read that leaves it fails. The block cipher is any function with an
inverse, chosen by the key.

## Where the code falls short of its promise

Each is proved with the exact condition under which the promise holds.

- Offset fields of 5 to 8 bytes are cut to 32 bits: `RunLists.DecodeEncoded`, `EndianInts.LongOffsetLost`.
- A read across the start of the encrypted partition returns ciphertext, and one that starts off a sector boundary
  or has a partial block is decrypted wrongly: `ReaderLimits.ReadExact`, `ReaderLimits.MisalignedReadExact`, and
  concrete volumes in `ReaderLimits.StraddlingRead` and `ReaderLimits.MisalignedRead`.
- An AES-CBC read is one chain whatever sectors it spans, so reading in parts gives something else:
  `DecryptingReaders.CbcSplitReadExact`, `ReaderLimits.ChainedParts`.
- A key under 28 bytes is read back without its method and its data: `Datums.DatumRoundTrip`,
  `Datums.ShortKeyLost`.
- The $MFT reader reads sparse runs as clusters: `RunReaders.CollectMFTAreaExact`, `RunReaders.HoleReadAsCluster`.
- The run-by-run reader faults after a sparse run that overshoots the buffer, `RunReaders.LocateDataFaults`,
  `RunReaders.HoleOvershoots`, and stops at a run beyond the disk even if the run has no clusters:
  `RunReaders.LocateDataAgrees`, `RunReaders.StopsBeforeCluster`.
- The export of unallocated space passes the sector size where the cluster size belongs:
  `BitmapExports.ExportFreeExact`, `BitmapExports.NothingFound`.
- The grouped BTRFS reader is wrong for groups that are not one stretch of the disk, because they cross chunks or
  are headed by a hole or by an extent used from its middle, and for items out of order or at one offset:
  `BtrfsReaders.GroupedIsOriginalExact`, `BtrfsReaders.GroupedIsOriginalAnyOrder`, `BtrfsReaders.CrossesChunks`.
- The B-tree walk does not end on a cyclic volume: `BtrfsWalk.WalkEndsExact`, `BtrfsWalk.WalkGoesOn`.
- Signatures shared by two extensions are found by whichever was inserted first:
  `SignatureTries.OrderIndependentExact`, `SignatureTries.SharedSignature`.
- Zero slots of the $MFT overwrite entry 0, and the count of bad records loses updates:
  `MftTables.ConfluentExact`, `MftTables.ZeroSlotClashes`, `MftTables.CounterExact`.

## Model

| member | source | states |
|---|---|---|
| Xts.XtsMulByX | disk/Bitlocker/decryption/aes-xts.go:109-121 | the in-place shift with carry leaves MulX of the old tweak in the array |
| Xts.MulXCoefficient | disk/Bitlocker/decryption/aes-xts.go:109-121 | every one of the 128 output bits: the next lower input bit, flipped at positions 0, 1, 2 and 7 exactly when the top input bit was set |
| Xts.MulXIsFieldMultiplication | disk/Bitlocker/decryption/aes-xts.go:109-121 | read as polynomials over GF(2), the doubled tweak is x times the tweak, reduced by x^128 + x^7 + x^2 + x + 1 |
| Xts.MulXInjective | disk/Bitlocker/decryption/aes-xts.go:109-121 | no two tweaks have the same double |
| Xts.PolyDeterminesBlock | disk/Bitlocker/decryption/aes-xts.go:109-121 | a block is determined by its polynomial, so the field product fixes every byte of the doubled tweak |
| Xts.DecryptFullBlocks | disk/Bitlocker/decryption/aes-xts.go:57-81 | the block loop leaves the n-fold doubled tweak in the array and returns the decryption of n blocks, block j under the j-fold doubled tweak |
| Xts.OpenXTS | disk/Bitlocker/decryption/aes-xts.go:29-98 | succeeds exactly for a 32- or 64-byte key, a 16-byte tweak and at least one block, and then returns the decryption under the encrypted tweak; lengths that are no multiple of 16 take the code's own last step |
| Xts.OpenedPartial | disk/Bitlocker/decryption/aes-xts.go:82-97 | data with a partial block at its end decrypt as they would with that block filled up from the ciphertext before the end of the data, cut off at their length |
| Xts.DecryptInvertsEncrypt | disk/Bitlocker/decryption/aes-xts.go:57-70 | data whose block j is the encryption of plaintext block j under the j-fold doubled tweak decrypts to the plaintext, at any length |
| DecryptingReaders.DecryptingReader.NewDecryptingReader | readers/reader_decrypting.go:22-51 | a reader exists exactly for a positive sector size and a method that names XTS with a 32- or 64-byte key, or else CBC with a 16- or 32-byte key, and holds what it was given |
| DecryptingReaders.MethodsAndKeys | readers/reader_decrypting.go:28-38 | a method with XTS anywhere in its name takes keys of 32 or 64 bytes, one with CBC but not XTS keys of 16 or 32, any other none |
| DecryptingReaders.DecryptingReader.ReadFile | readers/reader_decrypting.go:61-77 | the result for every method, offset and size: a failing read fails, a read below the partition is the raw data, any other is decrypted by AES-XTS or by AES-CBC from the sector its offset falls into |
| DecryptingReaders.DecryptingReader.DecryptCBC | readers/reader_decrypting.go:121-148 | data of whole blocks is decrypted as one chain that starts with the encrypted number of its first sector, any other is an error |
| Cbc.CbcRoundTrip | readers/reader_decrypting.go:142-146 | round trip: that chain decrypts what the chained encryption of any whole blocks gives |
| DecryptingReaders.ChainedReadsPlaintext | readers/reader_decrypting.go:121-148 | a chained read returns the plaintext of what was encrypted as one chain from its offset on, starting with the encrypted 128-bit number of its sector |
| DecryptingReaders.CbcSplitReadExact | readers/reader_decrypting.go:121-148 | a chained read split at a sector boundary concatenates to the whole read exactly if the ciphertext block in front of the cut is the encrypted number of the sector behind it |
| ReaderLimits.ChainedParts | readers/reader_decrypting.go:121-148 | two concrete sectors that a chained read gives differently as a whole and in parts |
| DecryptingReaders.DecryptingReader.DecryptXTS | readers/reader_decrypting.go:83-119 | the sector loop that copies each decrypted chunk over its ciphertext returns the sector-by-sector decryption, or an error exactly when some chunk is shorter than a block |
| DecryptingReaders.DecryptingReader.DecryptSector | readers/reader_decrypting.go:108-115 | one chunk is replaced by its decryption, everything else in the buffer stays |
| DecryptingReaders.SectorTweakIsStandard | readers/reader_decrypting.go:109-110 | for 64-bit sector numbers the 8 bytes and 8 zeros the reader writes are the 128-bit little-endian data unit number of section 5.1 of IEEE Std 1619-2007 |
| DecryptingReaders.ChunkIsDataUnit | readers/reader_decrypting.go:101-116 | on a volume encrypted as in section 5.3 of IEEE Std 1619-2007, a chunk that starts a sector is a data unit encrypted under the very tweak the reader uses |
| DecryptingReaders.ReadsPlaintext | readers/reader_decrypting.go:61-119 | the refinement: on a volume whose data is encrypted under the first half of the key and whose tweaks under the second, a read that starts on a sector boundary of the partition, of any number of whole blocks, returns exactly what the plaintext disk would |
| DecryptingReaders.ReadsBelowPartition | readers/reader_decrypting.go:66-68 | a read that ends before the partition returns the image's own bytes, or fails as the plaintext disk would |
| ReaderLimits.StraddlingReadExact | readers/reader_decrypting.go:61-77 | a read that begins before the partition gives the plaintext under every cipher and on every volume of a size exactly if it also ends before the partition or leaves the disk; across the boundary it returns ciphertext |
| ReaderLimits.StraddlingRead | readers/reader_decrypting.go:66-68 | a concrete volume on which a read across the start of the partition returns its second half as it is stored |
| ReaderLimits.ReadExact | readers/reader_decrypting.go:61-119 | every read at any offset and of any size: it gives the plaintext under every cipher and on every volume of a size exactly if it leaves the disk, ends before the partition, or in the partition is empty or of whole blocks from the start of a sector on, or lies inside one sector behind a number of blocks by which doubling changes no tweak |
| ReaderLimits.NotNeutral | disk/Bitlocker/decryption/aes-xts.go:109-121 | no number of doublings from 1 to 255 leaves every tweak as it is |
| ReaderLimits.MisalignedReadExact | readers/reader_decrypting.go:83-119 | so with sectors of up to 4096 bytes a read in the partition is right exactly if it is empty, or starts on a sector boundary and has whole blocks, or leaves the disk |
| ReaderLimits.MisalignedRead | readers/reader_decrypting.go:83-119 | a concrete volume on which a read that starts in the middle of a sector is decrypted with the tweak of the sector's first block |
| DecryptingReaders.SplitRead | readers/reader_decrypting.go:61-119 | on any image, encrypted or not, a read in the partition split behind any number of whole sectors is its two parts one after the other, of any sizes, and fails exactly if one of them does |
| Bytes.LeastFirst | utils/utils.go:236-245 | the value of three bytes, the first counting least |
| EndianInts.ReadEndianUInt | utils/utils.go:236-245 | the little-endian value of the bytes, modulo 2^64 |
| EndianInts.ReadEndianInt | utils/utils.go:220-234 | the sign-extended field read as a signed 32-bit number |
| EndianInts.DecodedIntExact | utils/utils.go:220-234 | the decoded number is the field's two's-complement value exactly when that fits 32 bits, which fields of up to 4 bytes always do |
| EndianInts.LongOffsetLost | utils/utils.go:220-234 | a 5-byte offset field of value 2^32 that is decoded as 0 |
| RunLists.RunList.Process | FS/NTFS/MFT/attributes/attributes.go:278-315 | the list grown in place is acyclic, made of distinct new nodes behind the receiver, holds exactly the decoded runs in order, and the result is the sum of their lengths modulo 2^64; a field that leaves the buffer faults; no runs leave the receiver alone |
| RunLists.DecodeEncoded | FS/NTFS/MFT/attributes/attributes.go:278-315 | round trip: decoding an encoding of any sequence of valid pairs, ended by the end of the buffer or by a header with a low nibble of zero or a nibble above 8, gives what they stand for exactly if all their offsets fit 32 bits |
| RunLists.StopsExact | FS/NTFS/MFT/attributes/attributes.go:282-311 | the headers that end a list: a low nibble of zero, or a nibble above 8 |
| RunLists.LastPair | FS/NTFS/MFT/attributes/attributes.go:278-315 | a pair in which the attribute ends is read on to its end, and faults exactly if the record ends before that |
| RunLists.PairExact | FS/NTFS/MFT/attributes/attributes.go:293-309 | one pair is decoded to what it stands for exactly when its offset fits 32 bits |
| RunContents.WhereRunLies | FS/NTFS/MFT/attributes/attributes.go:104-130 | a run's bytes: zeros if sparse, else the stretch of the disk at the partition's start plus the running sum in clusters |
| RunContents.ThreeRuns | FS/NTFS/MFT/attributes/attributes.go:132-183 | a concrete list with a hole between two runs |
| RunContents.Volume.MeaningAppend | FS/NTFS/MFT/attributes/attributes.go:132-183 | the bytes a run list means are those of its parts, the second part starting at the sum of the first part's offsets |
| RunContents.Volume.JoinClusters | FS/NTFS/MFT/attributes/attributes.go:149-161 | two adjacent cluster ranges can be read exactly when their union can, and then read as one |
| RunContents.Volume.FetchedIsMeaning | disk/volume/ntfs.go:368-383 | reading every run as clusters, zeros where a read fails, gives the list's meaning if no sparse run with clusters can be read as clusters |
| RunReaders.FlushPending | FS/NTFS/MFT/attributes/attributes.go:104-130 | for every pending segment and slice: copied behind what is written, beyond the length of the slice if its capacity reaches, an error if it lies before the disk or cannot be read, a fault if it does not fit the capacity |
| RunReaders.GetContent | FS/NTFS/MFT/attributes/attributes.go:89-190 | the result and the buffer that are left on every list and every slice, with spare capacity or without, over-long lists included: which of them return an error, which fault, and what was written before |
| RunReaders.SliceMeaning | FS/NTFS/MFT/attributes/attributes.go:89-190 | this succeeds on lists that are readable, start no run at a negative cluster and fit the slice; whenever it succeeds the list is such a list up to the capacity and its run-by-run bytes are at the start of the buffer, the rest as it was; it faults only on a list longer than the slice |
| RunReaders.ContentMeaning | FS/NTFS/MFT/attributes/attributes.go:89-190 | so without spare capacity it succeeds exactly on the readable lists that start no run at a negative cluster and fit the buffer |
| RunReaders.OverlongLists | FS/NTFS/MFT/attributes/attributes.go:133-136 | two concrete lists one cluster too long: one is an error, the other a fault, or a success if there is spare capacity |
| RunReaders.NegativeRuns | FS/NTFS/MFT/attributes/attributes.go:89-175 | concrete lists without runs or with runs before the first cluster, and which of them are errors |
| RunReaders.ErrorKeepsWritten | FS/NTFS/MFT/attributes/attributes.go:104-130 | a concrete list of which the first run is in the buffer when the second fails |
| RunReaders.TakeRun | FS/NTFS/MFT/attributes/attributes.go:133-170 | one turn of the loop on every run and slice: a run that does not fit is an error, a hole flushes and is zeroed element by element, adjacent clusters are joined, others flush |
| RunReaders.LocateRun | FS/adapter.go:224-244 | one run: skipped if it has no clusters, cut off at the end of the buffer if read from disk, counted in full if sparse, a fault if it begins beyond the end |
| RunReaders.LocateData | FS/adapter.go:194-256 | the whole reader on every list, including where it stops at a run beyond the disk and ignores the errors of reads |
| RunReaders.CopyRunsMeaning | FS/adapter.go:194-256 | on readable runs that lie on the disk the buffer gets the list's bytes as far as it reaches |
| RunReaders.LocateDataFaults | FS/adapter.go:194-256 | on every list, readable or not, it faults exactly if a sparse run ends beyond the buffer, counting only what is really read before it, and a run with clusters follows before any that lies beyond the disk |
| RunReaders.HoleOvershoots | FS/adapter.go:224-244 | a concrete list that faults, a hole that overshoots and a cluster behind it |
| RunReaders.FailedReadCountsNothing | FS/adapter.go:224-244 | a concrete list whose first run starts right at the end of the disk: nothing is counted for it and the next run is read |
| RunReaders.LocateDataAgrees | FS/adapter.go:194-256 | on every list the coalescing reader accepts, it leaves the same bytes and counts the whole list exactly if no run with clusters comes at or behind a run that starts beyond the disk |
| RunReaders.StopsBeforeCluster | FS/adapter.go:194-256 | a concrete list, a run without clusters beyond the disk and then one cluster, of which it reads nothing |
| RunReaders.CollectMFTArea | disk/volume/ntfs.go:358-384 | the whole $MFT reader on every list, every run taken as clusters, read errors ignored |
| RunReaders.CollectRunsExact | disk/volume/ntfs.go:358-384 | into a zeroed buffer of any size it collects every run of any list as clusters, cut off at the end, with zeros where a read leaves the disk; it faults exactly if the last run begins beyond the end |
| RunReaders.CollectRunsMeaning | disk/volume/ntfs.go:358-384 | into a buffer of the list's own length it collects all of that |
| RunReaders.CollectMFTAreaExact | disk/volume/ntfs.go:358-384 | on every readable list: what the reader collects is the list's meaning, whatever the disk holds, exactly if the disk has no clusters where a sparse run with clusters stands |
| RunReaders.HoleReadAsCluster | disk/volume/ntfs.go:368-383 | a concrete list, a cluster and a hole behind it, of which it collects the cluster twice |
| Ccm.FormatPrefixFree | disk/Bitlocker/decryption/aes-ccm.go:74-136 | section 2.2 of RFC 3610: one formatted input is a prefix of another exactly if nonce, associated data and message are the same, for messages below 2^24 and associated data below 0xFF00 bytes |
| Ccm.FirstBlockLayout | disk/Bitlocker/decryption/aes-ccm.go:74-104 | the first block as section 2.2 of RFC 3610 has it for a 16-byte tag and a 3-byte length: flags, nonce, length with its high byte first |
| Ccm.FormatLayout | disk/Bitlocker/decryption/aes-ccm.go:74-136 | where associated data, their length, the message and the zeros stand in the formatted input, and how long it is |
| Ccm.MacIsLastBlock | disk/Bitlocker/decryption/aes-ccm.go:107-136 | the MAC is the last block of the formatted input encrypted in a chain that starts with zeros |
| Ccm.CbcMac | disk/Bitlocker/decryption/aes-ccm.go:74-136 | the MAC is the fold of the cipher over exactly the formatted blocks, first block, length-prefixed associated data and message, each padded; it fails exactly for nonces that are not 12 bytes |
| Ccm.ChainPadded | disk/Bitlocker/decryption/aes-ccm.go:107-133 | a block loop with a zero-filled last block is the fold over the padded data |
| Ccm.CounterRuns | disk/Bitlocker/decryption/aes-ccm.go:153-162 | incrementing the counter block i times gives the block of counter i, below 2^24 |
| Ccm.IncrementIsPlusOne | disk/Bitlocker/decryption/aes-ccm.go:42-46 | incrementing a block adds one to its big-endian value, through all bytes |
| Ccm.CounterLayout | disk/Bitlocker/decryption/aes-ccm.go:153-162 | the counter block as section 2.3 of RFC 3610 has it: flags, nonce, counter |
| Ccm.NewCTR | disk/Bitlocker/decryption/aes-ccm.go:153-162 | the initial counter block of section 2.3 of RFC 3610 |
| Ccm.OpenCCM | disk/Bitlocker/decryption/aes-ccm.go:25-47 | succeeds exactly for a 32-byte key and a 12-byte nonce, and xors the data with the key stream from counter 0 |
| Ccm.OpenTwice | disk/Bitlocker/decryption/aes-ccm.go:42-46 | opening twice is the identity |
| Ccm.OpenSealed | disk/Bitlocker/decryption/aes-ccm.go:25-47 | opening data sealed as in sections 2.2 to 2.4 of RFC 3610, stored tag first, gives the raw MAC followed by the message |
| Ccm.GetExpectedTag | disk/Bitlocker/decryption/aes-ccm.go:49-71 | the MAC xored with the first key stream block, and exactly which key, nonce and tag lengths are errors or faults |
| Ccm.TagAccepts | disk/Bitlocker/decryption/aes-ccm.go:49-71 | the stored tag equals the tag expected for a candidate exactly when the candidate has the message's MAC |
| Ccm.Equal16 | disk/Bitlocker/datums/datums.go:406-415 | the accumulating loop accepts exactly equal arguments of 16 bytes |
| SealedKeys.VerifyTag | disk/Bitlocker/datums/datums.go:185-191 | accepts exactly a tag equal to the first 16 bytes of the stored slice, extended up to its capacity; it faults exactly if the capacity is below 16 |
| SealedKeys.OpenStoredKey | disk/Bitlocker/bitlocker.go:406-418 | a sealed key opened, its tag computed and compared: the result is the MAC and the key, and the tag is accepted |
| Datums.RecordTypes | disk/Bitlocker/datums/datums.go:275-311 | a stored record with type number 1, 2, 3, 4, 5, 8, 9 or 15 in its fifth and sixth byte is read as a key, string, stretch key, use key, AES-CCM key, master key, external key or volume header block |
| Datums.OtherTypes | disk/Bitlocker/datums/datums.go:275-311 | a record of type 0 is passed over, one of any other type is an error |
| Datums.CutOffRecords | disk/Bitlocker/datums/datums.go:111-272 | which fields of a record that is cut off are kept, which stay zero or empty, and where it faults |
| Datums.CutOffString | disk/Bitlocker/datums/datums.go:135-151 | an odd last byte of a string becomes the replacement character |
| Datums.CutOffTimes | disk/Bitlocker/datums/vmk.go:28-35 | the time of a record with room for the identifier only is read beyond its end, and faults at the end of the buffer |
| Datums.MetadataStarts | disk/Bitlocker/metadata.go:127-160 | where the records of a block begin, for each version and each length of the metadata header |
| Datums.CreateDatum | disk/Bitlocker/datums/datums.go:275-311 | the mutual recursion with master keys terminates on every record, since each nested payload is strictly shorter, and computes the parsed datum, error or fault |
| Datums.ProcessVolumeMasterKey | disk/Bitlocker/datums/vmk.go:28-60 | a master key datum and its nested datums, by the same specification |
| Datums.ParseRecords | disk/Bitlocker/datums/vmk.go:36-57 | the loop over nested records computes the parsed datums |
| Datums.ParseEntries | disk/Bitlocker/metadata.go:127-178 | the outer record loop computes the parsed datums of the block, error or fault |
| Datums.DatumReadBack | disk/Bitlocker/datums/datums.go:275-311 | the payload of any well-formed datum, master keys with any depth of nesting included, parses to the datum with the method and the data of every key under 28 bytes dropped |
| Datums.DatumsReadBack | disk/Bitlocker/datums/vmk.go:36-57 | the same for a serialised sequence, whatever ends the loop behind it |
| Datums.DatumRoundTrip | disk/Bitlocker/datums/datums.go:275-311 | so parsing gives a datum back exactly if all keys in it, nested ones included, have at least 28 bytes of data |
| Datums.ShortKeyLost | disk/Bitlocker/datums/datums.go:111-120 | a concrete 16-byte key that is read back without its method and its data |
| Datums.DatumsRoundTrip | disk/Bitlocker/datums/vmk.go:36-57 | parsing the serialisation of any sequence of well-formed datums gives back the sequence exactly if all keys have at least 28 bytes of data |
| Datums.BlockRoundTrip | disk/Bitlocker/metadata.go:127-178 | a metadata block made of a header, a metadata header and serialised datums parses to those datums exactly if all keys have at least 28 bytes of data |
| RecoveryKeys.ReadGroup | disk/Bitlocker/bitlocker.go:283-294 | the digit loop in 64-bit arithmetic, and failure exactly on a group with anything but digits |
| RecoveryKeys.DeriveKeyFromRecoveryKey | disk/Bitlocker/bitlocker.go:279-307 | for every string: the words of the longest valid prefix of groups and zeros after it; an error exactly if the first group that is not valid holds anything but digits; a fault on nine valid groups |
| RecoveryKeys.SplitJoin | disk/Bitlocker/bitlocker.go:281-281 | splitting groups joined by dashes gives the groups |
| RecoveryKeys.SplitAtDash | disk/Bitlocker/bitlocker.go:281-281 | a string is split at its first dash |
| RecoveryKeys.LastCountsLeast | disk/Bitlocker/bitlocker.go:284-294 | the values of concrete strings of two and three digits |
| RecoveryKeys.KeyRoundTrip | disk/Bitlocker/bitlocker.go:279-307 | round trip: any 16-byte key printed as eight six-digit groups joined by dashes parses to itself |
| RecoveryKeys.WordsAndZeros | disk/Bitlocker/bitlocker.go:279-307 | up to eight short groups that are 11 times a 16-bit number give these numbers as little-endian words and zeros behind them, if no group follows or one that has only digits and is no such number; if one follows that has anything else, an error |
| RecoveryKeys.NineGroups | disk/Bitlocker/bitlocker.go:279-307 | nine such groups fault |
| RecoveryKeys.ShortGroupValid | disk/Bitlocker/bitlocker.go:295-301 | an all-digit group of up to 18 digits is valid exactly when it is 11 times a 16-bit number |
| RecoveryKeys.ShortGroupExact | disk/Bitlocker/bitlocker.go:284-294 | up to 18 digits the accumulated value is the decimal value |
| RecoveryKeys.AccumulatedExact | disk/Bitlocker/bitlocker.go:284-294 | for any number of digits the accumulated value is the decimal value wrapped around to a signed 64-bit number |
| FreeClusters.GetClustersStatus | FS/NTFS/MFT/MFT.go:319-330 | cluster 8i + j is allocated exactly when bit j of byte i is set, and no other cluster has a status |
| FreeClusters.BitMasks | FS/NTFS/MFT/MFT.go:319-330 | bit 0 of a byte is its lowest, bit 7 its highest |
| FreeClusters.FreeKeys | disk/disk.go:653-658 | the keys with value false, each once, in any order of the map |
| FreeClusters.SendBlocks | disk/disk.go:664-693 | what is sent is one read for each block of a list of separated blocks whose concatenation is the ascending clusters |
| FreeClusters.CollectUnallocated | disk/disk.go:653-693 | what is sent is one read for each of the maximal runs of the free clusters: ascending, separated by at least one cluster, covering exactly the free ones |
| FreeClusters.MaximalRunsUnique | disk/disk.go:664-693 | a set of clusters has only one list of maximal runs |
| FreeClusters.FlattenCovers | disk/disk.go:664-693 | the clusters of the blocks in order are exactly the covered ones |
| FreeClusters.ExportIsOneByOne | disk/disk.go:664-693 | the exported data are the free clusters read one by one in order |
| BitmapExports.ReadStatus | FS/NTFS/MFT/MFT.go:295-330 | the statuses are those of the bits GetContent leaves in a zeroed buffer of the list's length in the unit that is passed, its errors ignored |
| BitmapExports.ExportPartition | disk/disk.go:636-693 | what is sent for a partition: one read, in clusters, for each maximal run of the clusters that are free in the bitmap as it is read with the sector size for the cluster size |
| BitmapExports.ExportStatusExact | disk/disk.go:648-648 | on a volume with a readable bitmap file the statuses that are read are those of its bytes exactly if a cluster is one sector or the file has no clusters |
| BitmapExports.ExportFreeExact | disk/disk.go:648-658 | the free clusters found are those of the bitmap file, whatever the disk holds, exactly in that case |
| BitmapExports.NothingFound | disk/disk.go:648-658 | a concrete volume with 16 free clusters in its bitmap file, none of which the export finds |
| FixUps.LogPage.ProcessFixUpArrays | FS/NTFS/LogFile/rcrd.go:62-86 | cuts the sequence number and saved values out of the page as positions, up to its capacity and in 16-bit arithmetic, with exactly its errors and faults |
| FixUps.LogPage.ReplaceOne | FS/NTFS/LogFile/rcrd.go:90-99 | one sector on every buffer: the tail bytes are compared one after the other, so a page that ends between them faults only if the first matches; the second byte is copied after the first was written |
| FixUps.AliasedTail | FS/NTFS/LogFile/rcrd.go:90-99 | a concrete saved value that lies across the tail: its second byte is the one just written |
| FixUps.TornTail | FS/NTFS/LogFile/rcrd.go:90-99 | a tail of which either byte differs from the sequence number is left alone |
| FixUps.CutOffTail | FS/NTFS/LogFile/rcrd.go:90-99 | where a page that ends inside a tail, a missing saved value and an array at the end of the buffer fault |
| FixUps.SumsWrap | FS/NTFS/LogFile/rcrd.go:62-86 | the sums that place the array wrap around at 16 bits |
| FixUps.LogPage.ReplaceFixupValues | FS/NTFS/LogFile/rcrd.go:88-101 | the loop on every buffer, including the writes that alias saved values, its early end and its faults |
| FixUps.LongestPrefixReplaced | FS/NTFS/LogFile/rcrd.go:88-101 | on a page with its layout, torn or not, it restores exactly the longest prefix of sectors that carry the sequence number |
| FixUps.LogPage.Repair | FS/NTFS/LogFile/rcrd.go:39-47 | both repair steps of parsing a log page: exactly the longest matching prefix of sectors is restored |
| FixUps.IndexRecord.ProcessFixUpArrays | FS/NTFS/MFT/attributes/indexallocation.go:150-188 | copies the sequence number and saved values, with exactly its errors |
| FixUps.IndexRecord.RestoreOne | FS/NTFS/MFT/attributes/indexallocation.go:125-129 | one sector on every buffer, from copied values |
| FixUps.MissingValue | FS/NTFS/MFT/attributes/indexallocation.go:124-130 | a sector that carries the sequence number and has no saved value faults, any other is left alone |
| FixUps.IndexRecord.RestoreTails | FS/NTFS/MFT/attributes/indexallocation.go:124-130 | the sector loop on every buffer, including its fault on a missing saved value |
| FixUps.MatchingSectorsRestored | FS/NTFS/MFT/attributes/indexallocation.go:124-130 | with the array copied first, every sector that carries the sequence number is restored and nothing else changes |
| FixUps.IndexRecord.Repair | FS/NTFS/MFT/attributes/indexallocation.go:112-130 | both repair steps of parsing an index record: exactly the matching sectors are restored |
| FixUps.ProtectedLayout | FS/NTFS/LogFile/rcrd.go:62-101 | on a protected page the last two bytes of each 512-byte sector are the first two of the array, and the original ones follow these in sector order |
| FixUps.ProtectedMatches | FS/NTFS/LogFile/rcrd.go:88-101 | on a protected page the longest matching prefix and the matching sectors are all sectors |
| FixUps.RepairUndoesProtection | FS/NTFS/LogFile/rcrd.go:88-101 | restoring all sectors of a protected page gives the page outside the array, which stays as stored |
| FixUps.RepairsRestorePage | FS/NTFS/MFT/attributes/indexallocation.go:124-130 | so both repairs undo the protection and leave the same bytes |
| DirTrees.Tree.Build | tree/builder.go:30-76 | from any records: one new node for each selected record number, the last record of a number winning; every node but 5 is linked under its parent's node or orphaned, in whatever order the map is gone through |
| DirTrees.Tree.MakeNodes | tree/builder.go:37-56 | a fresh node for each selected record number |
| DirTrees.Tree.LinkAll | tree/builder.go:58-73 | the linking loop in any order of the map |
| DirTrees.ParentNumbersExact | tree/builder.go:37-56 | a node's parent number is that of the last base record of its number, from 5 on, that has a parent |
| DirTrees.SmallDirectory | tree/builder.go:58-96 | a concrete directory with a root that names a parent, a cycle and an orphan |
| DirTrees.OneParentOrOrphan | tree/builder.go:58-73 | after building, a node other than 5 is an orphan exactly if it is in no children list, it is in one list at most, and node 5 is in none and no orphan |
| DirTrees.DepthUnique | tree/builder.go:85-96 | a node has one distance from the root |
| DirTrees.DepthBound | tree/builder.go:85-96 | a descent path is shorter than the number of nodes, whatever the parent numbers |
| DirTrees.SubtreesDisjoint | tree/builder.go:85-96 | the subtrees of two children of a reachable node have nothing in common |
| DirTrees.CyclesAreUnreachable | tree/builder.go:85-96 | no node on a cycle of parent numbers is below the root |
| DirTrees.UnderChildren | tree/builder.go:85-96 | what is below a node is the node and what is below its children |
| DirTrees.Descend | tree/builder.go:85-96 | the recursive descent over the linked nodes terminates and visits each node below the start exactly once and no other, the start first and every other behind its parent |
| DirTrees.BuildAndShow | tree/builder.go:30-96 | building and showing any records: no root node exactly if number 5 is not selected, else every node below it exactly once, the root first and every other behind its parent |
| SignatureTries.InsertByte | signatures/signatures.go:70-83 | one byte keeps the invariant for the signature inserted so far, whether the child is there or new |
| SignatureTries.Insert | signatures/signatures.go:68-85 | inserting a signature byte by byte keeps the trie invariant: nodes are exactly the non-empty prefixes of the inserted signatures, Occurrences counts the signatures with that prefix, a node is terminal exactly when it has no children, its extension is that of the first signature through it |
| SignatureTries.SignatureManager.BuildSignatureTree | signatures/signatures.go:59-66 | for any order of the map the new trie holds each signature once |
| SignatureTries.SignatureManager.FindSignature | signatures/signatures.go:28-51 | the walk returns what a plain scan of the inserted signatures returns: the first that starts the header and is no proper prefix of another |
| SignatureTries.MatchesAgree | signatures/signatures.go:28-51 | all matches for a header are the same byte string |
| SignatureTries.SingleMatch | signatures/signatures.go:28-51 | the answer is a matching extension whenever there is one |
| SignatureTries.LongerShadows | signatures/signatures.go:28-51 | a concrete signature that begins a longer one and is not found for that |
| SignatureTries.OrderIndependentExact | signatures/signatures.go:59-66 | the answer for a header is the same for every order of insertion exactly if no two extensions share the matching signature |
| SignatureTries.SharedSignature | signatures/signatures.go:59-66 | two concrete extensions with one signature, of which the one inserted first is found |
| BtrfsNodes.LocatePhysicalOffsetSize | disk/volume/btrfs.go:357-367 | in any order of the chunk map: found exactly for mapped addresses, at the place some covering chunk gives, the only one if chunks are disjoint |
| BtrfsWalk.Stack.Push | FS/BTRFS/btrfs.go:15-17 | the node is added at the top, the rest stays |
| BtrfsWalk.Stack.Pop | FS/BTRFS/btrfs.go:19-23 | the top node is returned and taken away, the rest stays |
| BtrfsWalk.CreateNode | disk/volume/btrfs.go:335-355 | the node at an address, for any chunk map: a fatal stop if unmapped, else by a chunk that covers it, the only one if chunks are disjoint: an error if the checksum is verified and wrong, or the parsed node, reading no more than the chunk's size |
| BtrfsWalk.NodeOnDisk | disk/volume/btrfs.go:335-355 | on a disk image the node stands at the partition's start plus the chunk's stripe plus the address's distance from the chunk's, no longer than the chunk, and is checked only if asked for |
| BtrfsWalk.TreeMoves | disk/volume/btrfs.go:335-355 | a volume that begins p bytes later, with all that is read of it, has the same trees |
| BtrfsWalk.ParseTreeNode | disk/volume/btrfs.go:370-413 | the walk with an explicit stack terminates on every finite tree and returns the recursive walk in exact order; it fails exactly if the root fails |
| BtrfsWalk.Expand | disk/volume/btrfs.go:393-408 | the children of a node: leaves are collected in item order, internal nodes pushed in item order, failing ones skipped |
| BtrfsWalk.ExpandCh | disk/volume/btrfs.go:228-245 | the same with leaves sent to the channel |
| BtrfsWalk.ParseTreeNodeCh | disk/volume/btrfs.go:201-249 | the channel form sends the same sequence, nothing if the root fails, and closes the channel |
| BtrfsWalk.WalkVisitsEachLeaf | disk/volume/btrfs.go:370-413 | the walk visits every leaf exactly as often as it is in the tree |
| BtrfsWalk.WalkOrder | disk/volume/btrfs.go:390-410 | the order on a concrete tree: a node's own leaves in item order, then its last subtree before its first |
| BtrfsWalk.FailureDropsSubtree | disk/volume/btrfs.go:390-410 | when the node at any path fails, the walk is the sound one without one stretch, which is the walk of that node's subtree |
| BtrfsWalk.DamageDropsSubtree | disk/volume/btrfs.go:390-410 | the same for two volumes that differ in the checksum of one node |
| BtrfsWalk.TreeUnique | disk/volume/btrfs.go:370-413 | the tree below an address is determined by the volume |
| BtrfsWalk.TreeExistsExact | disk/volume/btrfs.go:370-413 | there is a tree below an address exactly if every address that can be reached from it is mapped and none lies below itself |
| BtrfsWalk.WalkEndsExact | disk/volume/btrfs.go:370-413 | from a root with an internal node the loop over the stack ends exactly under that condition: on a cyclic volume it goes on forever |
| BtrfsWalk.TreeExists | disk/volume/btrfs.go:370-413 | there is a tree below every address of a set of mapped addresses that is closed under children and in which levels descend |
| BtrfsWalk.SmallTree | disk/volume/btrfs.go:370-413 | a concrete volume of three nodes that meets these conditions, with its tree and its walk |
| BtrfsWalk.WalkGoesOn | disk/volume/btrfs.go:370-413 | a concrete volume of one node that is its own child, on which no number of turns empties the stack |
| BtrfsInodes.FsTree.Update | FS/BTRFS/btrfs.go:38-109 | after any stream of leaves the map holds exactly the mentioned inodes, each with the entry the stream gives it |
| BtrfsInodes.FsTree.File | FS/BTRFS/btrfs.go:52-105 | one item, in each of the five handled kinds or none |
| BtrfsInodes.HandledTypes | FS/BTRFS/btrfs.go:52-105 | items of type 0x01, 0x0C, 0x54, 0x60 and 0x6C are filed under their object id, no others |
| BtrfsInodes.EntryNumbers | FS/BTRFS/btrfs.go:52-95 | an entry's id, its index from the last DIR_INDEX and its parent from the last INODE_REF since its last INODE_ITEM |
| BtrfsInodes.EntryChildren | FS/BTRFS/btrfs.go:80-95 | an entry's children: the inodes other than itself whose INODE_REF since its last INODE_ITEM names it |
| BtrfsInodes.SmallStream | FS/BTRFS/btrfs.go:46-105 | the entries of a concrete stream of seven items |
| BtrfsInodes.ItemKept | FS/BTRFS/btrfs.go:46-105 | a handled item is in its inode's entry exactly if no later INODE_ITEM replaced the entry, at its place in stream order, its data in parallel |
| BtrfsInodes.NothingMisfiled | FS/BTRFS/btrfs.go:46-105 | every item of an entry is a handled item of the stream with that object id, from the last INODE_ITEM on, at its place in stream order |
| BtrfsInodes.SelfReference | FS/BTRFS/btrfs.go:80-95 | an INODE_REF that names its own inode sets the parent and is kept as an item, and leaves no child |
| BtrfsInodes.DescendTree | disk/volume/btrfs.go:181-198 | walking a tree and filing what is sent gives the entries of the items in walk order |
| BtrfsExtents.GetExtents | FS/BTRFS/filedirentry.go:55-69 | the extents of the extent items in item order |
| BtrfsExtents.WhichItemsCount | FS/BTRFS/filedirentry.go:55-69 | a concrete entry of which one item counts: only items of type 0x6C with extent data do, at the offset of their key |
| BtrfsExtents.GetExtentsMap | FS/BTRFS/filedirentry.go:37-53 | for every file offset the last extent filed under it |
| BtrfsExtents.GetGroupedExtents | FS/BTRFS/filedirentry.go:85-118 | the groups are non-empty, adjacent inside, not joinable to each other, and flatten to the extents by ascending file offset |
| BtrfsExtents.WhereGroupsEnd | FS/BTRFS/filedirentry.go:99-114 | a list cut into groups: at a gap, before an extent used from its middle, before a hole |
| BtrfsExtents.GroupsUnique | FS/BTRFS/filedirentry.go:99-114 | a list can be cut into such groups in one way only |
| BtrfsExtents.FileOrder | FS/BTRFS/filedirentry.go:85-118 | for items in file order with distinct offsets the map loses nothing and the flattened groups are the extents in item order |
| BtrfsReaders.LocateChunk | FS/adapter.go:147-157 | in any order of any chunk map: the place in a chunk that covers the address, the only one if chunks are disjoint, or the previous offset if none does |
| BtrfsReaders.LocateDataORG | FS/adapter.go:73-124 | the extent-by-extent reader on every entry, including the stale offset of unmapped extents and the stop beyond the disk |
| BtrfsReaders.LocateData | FS/adapter.go:126-185 | the grouped reader on every entry and buffer, including its fault when a group begins beyond the buffer |
| BtrfsReaders.OneExtentRead | FS/adapter.go:89-110 | both readers give the bytes at the partition's start plus the chunk's stripe plus the address's distance from the chunk's plus the extent's inner offset |
| BtrfsReaders.InnerOffset | FS/adapter.go:102-102 | an extent read from its middle gives the end of what it gives when read from its beginning |
| BtrfsReaders.CutExtent | FS/adapter.go:89-123 | cutting an extent in two at any inner point, anywhere in a list, changes nothing that is read |
| BtrfsReaders.StaleOffset | FS/adapter.go:89-105 | a concrete list with an extent in no chunk before and behind one in a chunk, and where each is read |
| BtrfsReaders.StaleOffsetGrouped | FS/adapter.go:138-165 | the same of the grouped reader |
| BtrfsReaders.BeyondDisk | FS/adapter.go:102-120 | concrete lists with an extent at the very end of the disk, which is passed over, and beyond it, which ends the reading |
| BtrfsReaders.BeyondDiskGrouped | FS/adapter.go:158-182 | the same of the grouped reader, which counts what it cannot read |
| BtrfsReaders.OneByOneIsFileBytes | FS/adapter.go:89-123 | on mapped extents in range the original reader returns the extents' bytes one after the other |
| BtrfsReaders.FillIsFileBytes | FS/adapter.go:138-181 | copying such extents fills the buffer with their bytes, cut off at its end, and faults exactly when one begins beyond the end |
| BtrfsReaders.FillShows | FS/adapter.go:138-181 | byte by byte, what a buffer with enough room holds after the grouped reader: a byte of the disk, a zero, or what was there before, whether or not the extents are mapped |
| BtrfsReaders.SameSourcesExact | FS/adapter.go:73-185 | for any groups, the grouped reader gives the bytes and the count of the original one on every disk exactly if each byte of the file has the same source in both |
| BtrfsReaders.StretchExact | FS/adapter.go:138-181 | a group read as one extent has the sources of its extents exactly if its non-empty extents lie one behind the other on the disk from the first on, and none is behind a hole |
| BtrfsReaders.AllStretchExact | FS/adapter.go:138-181 | the same for a list of groups: exactly if each is one stretch of the disk |
| BtrfsReaders.GroupedIsOriginal | FS/adapter.go:73-185 | with the same sources, grouped reading into a buffer of any size is extent-by-extent reading, cut off at the end, and a fault exactly if a group begins beyond it |
| BtrfsReaders.GroupedIsOriginalExact | FS/adapter.go:73-185 | for items in file order with distinct offsets, on mapped extents in range: the two readers agree on every disk exactly if each group is one stretch of the disk |
| BtrfsReaders.GroupedIsOriginalAnyOrder | FS/adapter.go:73-185 | for items in any order, several at one offset included: exactly if each byte has the same source in the groups and in the items |
| BtrfsReaders.OneChunkIsStretch | FS/adapter.go:138-181 | a group inside one chunk is one stretch if it is headed by no hole and by no extent used from its middle |
| BtrfsReaders.CrossesChunks | FS/adapter.go:126-185 | a concrete file whose two extents join by address and lie in two chunks, on which the grouped reader returns the wrong second half |
| BtrfsReaders.ItemsAtOneOffset | FS/adapter.go:73-185 | a concrete entry with two items at one offset, of which the grouped reader counts one |
| MftTables.MFTTable.ProcessRecordsAsync | FS/NTFS/MFT/Table.go:29-41 | whatever order the workers' steps are taken in, the counter is one an interleaving can give, and if workers agree each entry holds the record written to it |
| MftTables.WhichSlots | FS/NTFS/MFT/MFT.go:783-800 | which signatures are decoded, left zero or invalid |
| MftTables.TableIsFinal | FS/NTFS/MFT/Table.go:69-91 | if workers that write the same entry write the same record, every interleaving leaves the same map from entries to records |
| MftTables.ConfluentExact | FS/NTFS/MFT/Table.go:69-91 | and the table is independent of the interleaving exactly in that case |
| MftTables.CounterExact | FS/NTFS/MFT/Table.go:75-79 | the unsynchronised counter can end with exactly the values from one more than before to as many more as there are bad records, or unchanged if there are none |
| MftTables.ZeroSlotClashes | FS/NTFS/MFT/MFT.go:783-790 | a zero slot falls through and writes entry 0, so beside a slot that holds record 0 the table depends on the interleaving |

## Left out

- ReaderLimits.ReadExact: asks for a sector size that is a multiple of 16 and a disk below 2^63 bytes; that doubling 256 times or more moves some tweak is not proved, so for sectors above 4096 bytes the condition names it.
- DecryptingReaders.DecryptingReader.NewDecryptingReader: is given the method's name trimmed and in upper case.
- FixUps.LogPage.Repair: speaks of arrays that keep clear of the sector tails and do not wrap around 16 bits; for all others `LogPage.ProcessFixUpArrays` and `LogPage.ReplaceFixupValues` state what each step does.
- BtrfsWalk.ParseTreeNode: asks for a finite tree and disjoint chunks; `BtrfsWalk.WalkEndsExact` says when the tree is finite, and an unmapped address stops the program.
- BtrfsReaders.GroupedIsOriginalExact: asks that extents are mapped and in range and that holes have no inner offset and, should a chunk cover address 0, a position on the disk; sums of addresses and sizes are not taken modulo 2^64, and `BtrfsReaders.GroupedIsOriginalAnyOrder` covers items that are not in file order.
- BitmapExports.ReadStatus: models one non-resident DATA attribute; a resident bitmap, or several attributes whose statuses are numbered on, are not modelled.
- BtrfsReaders.LocateData: asks for disjoint chunks, since with overlapping ones the chunk taken depends on the order of the map; `BtrfsReaders.LocateChunk` says what can be taken then.
- BtrfsReaders.LocateDataORG: asks for disjoint chunks, too; returns the bytes it collects, where the code drops them; inline and compressed extents, on which both readers dereference a nil part, are not modelled, nor is the lookup of the file size beforehand.
- SealedKeys.OpenStoredKey: returns the verdict on the tag, which the code computes and ignores.
- MftTables.MFTTable.ProcessRecordsAsync: a record is written in two pieces and its decoding is any function of the slot, so attributes, fix-ups and the errors of decoding are not modelled.
- FreeClusters.CollectUnallocated: models one partition; a failing read sends an empty block.
- AES, SHA-256, CRC and key stretching: an abstract cipher, an abstract checksum, nothing.
- Reflection in `Unmarshal`: the records are read field by field at their fixed offsets.
- 64-bit wrap-around of disk offsets, sizes and addresses, except where a row says otherwise.
- The identity of datum objects and nodes' parent fields that nothing reads: datums are values, inode entries name their parent and children by number, and paths are not built.
- Several trees filed at once into one Go map, and `log.Fatal` beyond being a fault.
- The resident branch of LocateData, the decoding of UTF-16 names, the printing of children, log messages.
- Image readers, partition tables, LVM, VSS, the USN journal, timestamps, filters, the command line, reporting and exporting: input, output and field copying.
