# MAM prefetch container decoder, in Dafny

This project models `process_file` of `w10pfdecomp.py`. That function decodes
the MAM container Windows 10 uses for compressed prefetch files. The model also
covers the `tohex` helper, which prints the NTSTATUS codes of failed calls.

A container has four parts:
- an 8-byte header, made of two little-endian 32-bit words: the signature and
  the declared decompressed size;
- the signature's fields: the magic "MAM" in bits 0-23, the compression
  algorithm in bits 24-27 and a CRC flag in bits 28-31;
- when the flag is non-zero, a little-endian CRC-32 of the header, four zero
  bytes and the payload;
- the compressed payload.

The decoder does the following, in order:
1. It unpacks the header.
2. It skips a ".pf" file without the magic and rejects any other such file.
3. When the flag is set, it strips the stored CRC and checks it against its
   own computation.
4. It asks ntdll for the workspace size.
5. It has ntdll decompress into a zero-filled buffer of the declared size.
6. It writes that whole buffer out.

A final size that differs from the declared one only raises a warning.

Files:
- `little_endian.dfy` (`LittleEndian`): `struct` reads and writes of 32-bit
  little-endian words.
- `crc32.dfy` (`Crc32`): the CRC-32 of ITU-T V.42 section 8.1.1.6.2, which is
  also the CRC of ISO/IEC 3309 and zlib. It is a specification function over
  byte sequences with all-ones conditioning and the reflected polynomial
  0xEDB88320. A bit-by-bit register loop is proved equal to it. The file also
  proves:
  - the check value for "123456789";
  - that chained calls compute the CRC of the concatenation;
  - that every single-byte change is detected.
- `hex_format.dfy` (`HexFormat`): `tohex`. It reduces a value modulo 2^n, then
  prints it as Python's `hex` does. A parser reads the printed text back.
- `mam.dfy` (`Mam`): the container format and the decoder as pure functions:
  - `Prepare` covers the header, the signature and the CRC;
  - `Dispatch` covers the two ntdll calls;
  - `Decode` is the two together;
  - `Seal` is the encoder that `Prepare` inverts.
  The ntdll calls are oracles. Each is a function-valued field of an `Ntdll`
  value passed to the decoder. Each returns a signed 32-bit status and its
  outputs.
- `mam_properties.dfy` (`MamProperties`): what the decoder guarantees, as lemmas.
- `process_file.dfy` (`Decompressor`): the decoder step by step. The CRC
  accumulator is rebound call after call, the payload variable is reassigned,
  and a preallocated array is filled in place. Each method is proved equal to
  the matching pure function.

Facts about the code that shape the model:
- The algorithm selector is not checked: `calgo` goes to ntdll as it is.
- After a successful decompression the whole preallocated buffer of the
  declared size is written, whatever final size ntdll reports.
- Whether a file without the magic is skipped silently or rejected depends
  only on whether its name ends in ".pf".
- The signature bytes `4D 41 4D 20` give CRC flag 2 and algorithm 0, because
  the flag is the top nibble of the last byte
  (`MamProperties.SignatureBytesExample`).
- Input with the CRC flag set but fewer than 4 bytes after the header fails
  while the CRC is unpacked. The model calls this `TruncatedChecksum`.

## Model

| member | source | states |
|---|---|---|
| LittleEndian.ReadU32 | w10pfdecomp.py:54 | each byte of the word read is the corresponding input byte, least significant first |
| LittleEndian.WriteU32 | w10pfdecomp.py:67 | the packed word has four bytes, the low byte first and the high byte last |
| LittleEndian.ReadWrite | w10pfdecomp.py:54 | unpacking a packed word gives the word back |
| LittleEndian.WriteRead | w10pfdecomp.py:54 | packing an unpacked word gives the four bytes back |
| LittleEndian.ReadInjective | w10pfdecomp.py:54 | different byte quadruples unpack to different words |
| LittleEndian.WriteZero | w10pfdecomp.py:67 | packing 0 gives four zero bytes |
| Crc32.ComputeCrc32 | w10pfdecomp.py:66-69 | the byte-at-a-time register loop computes `binascii.crc32(data, value)` as specified by the CRC-32 function |
| Crc32.FeedByteBits | w10pfdecomp.py:66 | eight shift-and-xor steps fold one byte into the register |
| Crc32.Crc32Chain | w10pfdecomp.py:66-69 | continuing a CRC from the CRC of `a` over `b` gives the CRC of `a + b` |
| Crc32.SingleByteChangeDetected | w10pfdecomp.py:63-71 | inputs that differ in exactly one byte have different CRCs, for any starting value |
| Crc32.CheckValue | w10pfdecomp.py:66 | the CRC of "123456789" is 0xCBF43926, the standard check value |
| Crc32.FoldAppend | w10pfdecomp.py:66-69 | folding a concatenation is folding its parts one after the other |
| Crc32.ConditionedChain | w10pfdecomp.py:66-69 | with pre- and post-complement, the two complements between chained calls cancel |
| Crc32.FeedByteInjective | w10pfdecomp.py:66 | the byte step is a bijection of the register, so two steps agree only on equal register-xor-byte |
| HexFormat.Unsigned | w10pfdecomp.py:27-29 | the printed number is below 2^n; it is the value itself on [0, 2^n) and the value plus 2^n for negatives down to -2^n |
| HexFormat.UnsignedCongruent | w10pfdecomp.py:27-29 | adding any multiple of 2^n to the value prints the same number: it is congruent to the value modulo 2^n |
| HexFormat.UnsignedInjective32 | w10pfdecomp.py:27-29 | two signed 32-bit values print the same code only when they are equal |
| HexFormat.DigitsValue | w10pfdecomp.py:29 | the digits printed for n read back as n |
| HexFormat.DigitsNoLeadingZero | w10pfdecomp.py:29 | the digits of a positive number never start with 0 |
| HexFormat.PyHexRoundTrip | w10pfdecomp.py:29 | what `hex` prints for a non-negative number parses back to that number |
| HexFormat.TohexRoundTrip | w10pfdecomp.py:27-29 | what `tohex` prints parses back to the value reduced modulo 2^n |
| Mam.Magic | w10pfdecomp.py:58 | the magic is 0x4D414D, "MAM" read little-endian |
| Mam.FieldsPartition | w10pfdecomp.py:55-57 | magic < 2^24, algorithm < 16, CRC flag < 16, and the three fields put back together give the whole signature |
| Mam.FieldsOfSignature | w10pfdecomp.py:55-57 | each field extracts exactly what was placed in it |
| Mam.StatusCode | w10pfdecomp.py:82-84 | the code printed for a status is below 2^32; it is the status itself when non-negative and status + 2^32 when negative |
| Mam.StatusCodeInjective | w10pfdecomp.py:100-102 | different statuses are reported with different codes |
| Mam.Zeros | w10pfdecomp.py:87 | a fresh buffer of n bytes holds n zeros |
| Mam.Overlay | w10pfdecomp.py:91-98 | the buffer keeps its length; each position holds the stored byte where one was stored and its old byte elsewhere |
| Mam.Ulong | w10pfdecomp.py:96 | a length that fits in 32 bits is passed unchanged, and any length is passed as a number congruent to it modulo 2^32 |
| MamProperties.ShortInputRejected | w10pfdecomp.py:51-54 | fewer than 8 bytes fail with TruncatedHeader |
| MamProperties.SignatureBytesExample | w10pfdecomp.py:54-57 | bytes 4D 41 4D 20 hold the magic, algorithm 0 and CRC flag 2 |
| MamProperties.WrongMagicStops | w10pfdecomp.py:58-61 | without the magic, the result is Skipped for a ".pf" name and WrongSignature otherwise, whatever ntdll would do |
| MamProperties.PlainPayload | w10pfdecomp.py:63-73 | without the CRC flag, ntdll gets the algorithm field, the bytes after the header unchanged, and the declared size from bytes 4-7 |
| MamProperties.ComputedCrcIsCrc | w10pfdecomp.py:66-69 | the three chained CRC calls compute the CRC of header + four zero bytes + payload |
| MamProperties.CheckedPayload | w10pfdecomp.py:63-71 | with the CRC flag, the stored CRC is bytes 8-11 and the payload is bytes 12 onwards; the decoder proceeds exactly when the CRC of header + zeros + payload equals the stored CRC, and otherwise stops with both values |
| MamProperties.ShortChecksumRejected | w10pfdecomp.py:63-65 | with the CRC flag and fewer than 12 bytes, the result is TruncatedChecksum |
| MamProperties.WorkspaceFailureStops | w10pfdecomp.py:78-84 | a non-zero workspace status fails with its printed code, whatever the decompressor would do |
| MamProperties.DecompressionFailureStops | w10pfdecomp.py:91-102 | a non-zero decompression status fails with its printed code and nothing is written |
| MamProperties.SuccessfulDispatch | w10pfdecomp.py:86-111 | on success the output has the declared size; it is what ntdll stored, then zeros; the warning is raised exactly when the final size differs from the declared one |
| MamProperties.FinalSizeOnlyWarns | w10pfdecomp.py:104-105 | two decompressions that store the same bytes write the same output, whatever final sizes they report |
| MamProperties.WrittenOnlyWhenValid | w10pfdecomp.py:54-111 | output is written only for input with a header and the magic, and with a matching CRC when flagged; it has the declared size |
| MamProperties.SealThenPrepare | w10pfdecomp.py:54-73 | a container built from an algorithm, a flag, a size and a payload passes every check and hands exactly those to ntdll |
| MamProperties.PayloadCrcDetectsChange | w10pfdecomp.py:66-71 | changing one payload byte changes the CRC the decoder computes |
| MamProperties.CorruptedPayloadRejected | w10pfdecomp.py:63-71 | a container with any non-zero CRC flag and any one payload byte changed fails with a CRC mismatch, whatever ntdll would do |
| Decompressor.StoreInto | w10pfdecomp.py:91-98 | the decompressor's bytes are copied over the front of the buffer in place, as far as they fit |
| Decompressor.ChainedCrc | w10pfdecomp.py:66-69 | the rebound accumulator ends as the CRC the decoder specifies |
| Decompressor.CheckContainer | w10pfdecomp.py:50-73 | the imperative header, signature and CRC steps end in the same stage as `Mam.Prepare` |
| Decompressor.Decompress | w10pfdecomp.py:75-111 | the workspace query, the buffer allocation and the decompression give the same outcome as `Mam.Dispatch` |
| Decompressor.ProcessFile | w10pfdecomp.py:50-111 | the step-by-step decoder computes exactly `Mam.Decode` |

## Left out

- The internals of `RtlGetCompressionWorkSpaceSize` and `RtlDecompressBufferEx` (LZNT1, Xpress, Xpress Huffman) are foreign code. They are oracles that return a status and their outputs, and nothing is assumed about them.
- The Windows version probe and the lookup of the ntdll entry points are left out. They are environment checks.
- Opening, reading and writing files and joining the output path are left out. The input is the file's bytes and the output is the bytes that would be written.
- `process_directory` and `main` are left out. They are directory walking and command-line dispatch.
- Printed messages and the exact `sys.exit` text are left out. Errors are `Mam.Error` values, and the size warning is a flag.
- `Mam.FieldsPartition`: states the partition with bitwise or of the shifted fields rather than as a sum of integers. The fields are disjoint, so the two are the same.
- Memory allocation failure for huge declared sizes is not modelled.
- The buffer-workspace size is returned by the workspace query (`WorkspaceSizes.bufferWorkspace`) but unused, as in the source.
- The model assumes Python 3, where `binascii.crc32` returns an unsigned value. Under Python 2 the result is signed, and the comparison at w10pfdecomp.py:70 would fail for every CRC of 2^31 or more. The script needs Python 3 anyway: `os.makedirs(..., exist_ok=True)` at w10pfdecomp.py:136 exists only there.
