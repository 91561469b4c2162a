/** The MAM container that Windows 10 uses for compressed prefetch files, and
    the decoder `process_file` of w10pfdecomp.py applies to it.

    A container is an 8-byte header (a signature word and the declared size of
    the decompressed data, both little-endian), an optional 4-byte CRC-32 and
    the compressed payload. The signature holds the "MAM" magic in its low 24
    bits, the compression algorithm in bits 24-27 and the CRC flag in bits
    28-31. The two ntdll calls the decoder makes are oracles passed in as an
    `Ntdll` value. */
module Mam {
  import opened LittleEndian
  import Crc32
  import opened HexFormat

  /** "MAM" read as a little-endian 24-bit word. */
  function Magic(): (m: bv32)
    ensures m == 0x4D_414D
  {
    0x4D as bv32 | (0x41 as bv32 << 8) | (0x4D as bv32 << 16)
  }

  // ---------------------------------------------------------------------
  // The signature word

  /** Bits 0-23 of the signature. */
  function MagicField(signature: bv32): (magic: bv32) {
    signature & 0x00FF_FFFF
  }

  /** Bits 24-27: the compression format handed to ntdll. */
  function AlgorithmField(signature: bv32): (algorithm: bv32) {
    (signature & 0x0F00_0000) >> 24
  }

  /** Bits 28-31: non-zero when a CRC-32 follows the header. */
  function CrcFlagField(signature: bv32): (crcFlag: bv32) {
    (signature & 0xF000_0000) >> 28
  }

  /** Assembles a signature word from its three fields. */
  function MakeSignature(magic: bv32, algorithm: bv32, crcFlag: bv32): (signature: bv32)
    requires magic < 0x100_0000 && algorithm < 16 && crcFlag < 16
  {
    magic | (algorithm << 24) | (crcFlag << 28)
  }

  /** The three fields are in range and together make up the whole word. */
  lemma FieldsPartition(signature: bv32)
    ensures MagicField(signature) < 0x100_0000
    ensures AlgorithmField(signature) < 16
    ensures CrcFlagField(signature) < 16
    ensures MakeSignature(MagicField(signature), AlgorithmField(signature), CrcFlagField(signature)) == signature
  {
  }

  /** Each field reads back from the assembled word. */
  lemma FieldsOfSignature(magic: bv32, algorithm: bv32, crcFlag: bv32)
    requires magic < 0x100_0000 && algorithm < 16 && crcFlag < 16
    ensures MagicField(MakeSignature(magic, algorithm, crcFlag)) == magic
    ensures AlgorithmField(MakeSignature(magic, algorithm, crcFlag)) == algorithm
    ensures CrcFlagField(MakeSignature(magic, algorithm, crcFlag)) == crcFlag
  {
  }

  // ---------------------------------------------------------------------
  // Outcomes

  /** The ways a decode stops with an error. Status codes are the unsigned
      numbers the decoder prints for the signed NTSTATUS values. */
  datatype Error =
    | TruncatedHeader                          // fewer than 8 bytes: no header to unpack
    | WrongSignature                           // magic is not "MAM" and the name does not end in ".pf"
    | TruncatedChecksum                        // CRC flag set but fewer than 4 bytes after the header
    | CrcMismatch(computed: bv32, stored: bv32)
    | WorkspaceQueryFailed(code: nat)
    | DecompressionFailed(code: nat)

  /** What a decode produces: the output file's bytes, with a flag for the
      size warning; nothing, for a non-MAM prefetch file; or an error. */
  datatype Outcome =
    | Written(output: seq<bv8>, sizeWarning: bool)
    | Skipped
    | Failed(error: Error)

  // ---------------------------------------------------------------------
  // The ntdll oracles

  /** A signed 32-bit NTSTATUS, as ctypes returns it. */
  newtype Int32 = x: int | -0x8000_0000 <= x < 0x8000_0000

  /** What `RtlGetCompressionWorkSpaceSize` reports. */
  datatype WorkspaceSizes = WorkspaceSizes(status: Int32, bufferWorkspace: bv32, fragmentWorkspace: bv32)

  /** What `RtlDecompressBufferEx` reports: its status, the bytes it stored at the
      front of the output buffer, and the final uncompressed size. */
  datatype Decompressed = Decompressed(status: Int32, stored: seq<bv8>, finalSize: bv32)

  /** The two ntdll entry points. `decompress` takes the format, the compressed
      bytes, the output buffer size, the compressed size and the workspace size. */
  datatype Ntdll = Ntdll(
    workspaceSize: bv16 -> WorkspaceSizes,
    decompress: (bv16, seq<bv8>, bv32, Uint32, bv32) -> Decompressed)

  /** The number `tohex(status, 32)` prints. */
  function StatusCode(status: Int32): (code: nat)
    ensures code < 0x1_0000_0000
    ensures status >= 0 ==> code == status as int
    ensures status < 0 ==> code == status as int + 0x1_0000_0000
  {
    Pow2Of32();
    Unsigned(status as int, 32)
  }

  /** Different statuses are reported with different codes. */
  lemma StatusCodeInjective(s: Int32, t: Int32)
    requires StatusCode(s) == StatusCode(t)
    ensures s == t
  {
    UnsignedInjective32(s as int, t as int);
  }

  // ---------------------------------------------------------------------
  // The decoder

  /** Whether a file name ends in ".pf". */
  predicate HasPfSuffix(name: string) {
    |name| >= 3 && name[|name| - 3..] == ".pf"
  }

  /** What is handed to ntdll once the header and the CRC have been checked. */
  datatype Request = Request(algorithm: bv16, payload: seq<bv8>, size: bv32)

  /** The decoder either stops before ntdll is called, or proceeds to it. */
  datatype Stage = Halt(outcome: Outcome) | Proceed(request: Request)

  /** The CRC the decoder computes: of the header, then four zero bytes in
      place of the stored CRC, then the payload, chained. */
  function ComputedCrc(header: seq<bv8>, payload: seq<bv8>): (crc: bv32) {
    Crc32.Crc32(payload, Crc32.Crc32(WriteU32(0), Crc32.Crc(header)))
  }

  /** Header unpacking, the signature check and the optional CRC check. */
  function Prepare(input: seq<bv8>, name: string): (stage: Stage) {
    if |input| < 8 then Halt(Failed(TruncatedHeader))
    else
      var signature := ReadU32(input[..4]);
      var size := ReadU32(input[4..8]);
      var algorithm := AlgorithmField(signature) as bv16;
      if MagicField(signature) != Magic() then
        Halt(if HasPfSuffix(name) then Skipped else Failed(WrongSignature))
      else if CrcFlagField(signature) == 0 then
        Proceed(Request(algorithm, input[8..], size))
      else if |input| < 12 then Halt(Failed(TruncatedChecksum))
      else
        var stored := ReadU32(input[8..12]);
        var computed := ComputedCrc(input[..8], input[12..]);
        if computed != stored then Halt(Failed(CrcMismatch(computed, stored)))
        else Proceed(Request(algorithm, input[12..], size))
  }

  /** `n` zero bytes: a freshly allocated ctypes buffer. */
  function Zeros(n: nat): (z: seq<bv8>)
    ensures |z| == n && forall i :: 0 <= i < n ==> z[i] == 0
  {
    seq(n, _ => 0)
  }

  /** A buffer after `stored` has been written over its front, as far as it fits. */
  function Overlay(buffer: seq<bv8>, stored: seq<bv8>): (r: seq<bv8>)
    ensures |r| == |buffer|
    ensures forall i :: 0 <= i < |buffer| ==> r[i] == if i < |stored| then stored[i] else buffer[i]
  {
    if |stored| >= |buffer| then stored[..|buffer|] else stored + buffer[|stored|..]
  }

  /** An unsigned 32-bit ctypes integer. */
  newtype Uint32 = x: int | 0 <= x < 0x1_0000_0000

  /** A length converted to a ULONG: kept when it fits, reduced modulo 2^32 otherwise. */
  function Ulong(n: nat): (w: Uint32)
    ensures n < 0x1_0000_0000 ==> w as int == n
    ensures (n - w as int) % 0x1_0000_0000 == 0
  {
    (n % 0x1_0000_0000) as Uint32
  }

  /** The workspace query, then decompression into a zero-filled buffer of the
      declared size. */
  function Dispatch(request: Request, nt: Ntdll): (outcome: Outcome) {
    var sizes := nt.workspaceSize(request.algorithm);
    if sizes.status != 0 then Failed(WorkspaceQueryFailed(StatusCode(sizes.status)))
    else
      var d := nt.decompress(request.algorithm, request.payload, request.size,
                             Ulong(|request.payload|), sizes.fragmentWorkspace);
      if d.status != 0 then Failed(DecompressionFailed(StatusCode(d.status)))
      else Written(Overlay(Zeros(request.size as int), d.stored), d.finalSize != request.size)
  }

  /** `process_file` on the bytes of a file called `name`. */
  function Decode(input: seq<bv8>, name: string, nt: Ntdll): (r: Outcome) {
    match Prepare(input, name)
    case Halt(outcome) => outcome
    case Proceed(request) => Dispatch(request, nt)
  }

  // ---------------------------------------------------------------------
  // The encoder the decoder inverts

  /** Builds the container for a payload: header, then the CRC of header,
      four zero bytes and payload when the CRC flag is set, then the payload. */
  function Seal(algorithm: bv32, crcFlag: bv32, size: bv32, payload: seq<bv8>): (c: seq<bv8>)
    requires algorithm < 16 && crcFlag < 16
  {
    var header := WriteU32(MakeSignature(Magic(), algorithm, crcFlag)) + WriteU32(size);
    if crcFlag == 0 then header + payload
    else header + WriteU32(Crc32.Crc(header + WriteU32(0) + payload)) + payload
  }
}
