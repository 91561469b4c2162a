/** `process_file` of w10pfdecomp.py step by step: the CRC accumulator
    rebound call after call, the payload variable reassigned once the stored
    CRC is stripped, and a zero-filled buffer of the declared size that the
    decompressor fills in place. It computes exactly `Mam.Decode`. */
module Decompressor {
  import opened LittleEndian
  import Crc32
  import opened Mam

  /** The decompressor storing `stored` at the front of `buffer`, as far as it fits. */
  method StoreInto(buffer: array<bv8>, stored: seq<bv8>)
    modifies buffer
    ensures buffer[..] == Overlay(old(buffer[..]), stored)
  {
    var n := if |stored| < buffer.Length then |stored| else buffer.Length;
    for i := 0 to n
      invariant forall k :: 0 <= k < i ==> buffer[k] == stored[k]
      invariant forall k :: i <= k < buffer.Length ==> buffer[k] == old(buffer[k])
    {
      buffer[i] := stored[i];
    }
  }

  /** The CRC of the header, four zero bytes and the payload, accumulated call
      by call as the source rebinds it. */
  method ChainedCrc(header: seq<bv8>, payload: seq<bv8>) returns (crc: bv32)
    ensures crc == ComputedCrc(header, payload)
  {
    crc := Crc32.ComputeCrc32(header, 0);
    crc := Crc32.ComputeCrc32(WriteU32(0), crc);
    crc := Crc32.ComputeCrc32(payload, crc);
  }

  /** Unpacks the header, checks the signature and, when flagged, the CRC. */
  method CheckContainer(input: seq<bv8>, name: string) returns (stage: Stage)
    ensures stage == Prepare(input, name)
  {
    if |input| < 8 {
      return Halt(Failed(TruncatedHeader));
    }
    var header := input[..8];
    var compressed := input[8..];
    assert header[..4] == input[..4] && header[4..] == input[4..8];
    var signature := ReadU32(header[..4]);
    var decompressedSize := ReadU32(header[4..]);
    var calgo := AlgorithmField(signature);
    var crcck := CrcFlagField(signature);
    var magic := MagicField(signature);
    if magic != 0x4D_414D {
      if HasPfSuffix(name) {
        return Halt(Skipped);
      }
      return Halt(Failed(WrongSignature));
    }
    if crcck != 0 {
      if |compressed| < 4 {
        return Halt(Failed(TruncatedChecksum));
      }
      assert compressed[..4] == input[8..12];
      var fileCrc := ReadU32(compressed[..4]);
      compressed := compressed[4..];
      assert compressed == input[12..];
      var crc := ChainedCrc(header, compressed);
      if crc != fileCrc {
        return Halt(Failed(CrcMismatch(crc, fileCrc)));
      }
    }
    return Proceed(Request(calgo as bv16, compressed, decompressedSize));
  }

  /** Queries the workspace size, allocates the zero-filled output buffer of the
      declared size and lets the decompressor fill it. */
  method Decompress(request: Request, nt: Ntdll) returns (r: Outcome)
    ensures r == Dispatch(request, nt)
  {
    var sizes := nt.workspaceSize(request.algorithm);
    if sizes.status != 0 {
      return Failed(WorkspaceQueryFailed(StatusCode(sizes.status)));
    }
    var decompressed := new bv8[request.size as int](_ => 0);
    assert decompressed[..] == Zeros(request.size as int);
    var result := nt.decompress(request.algorithm, request.payload, request.size,
                                Ulong(|request.payload|), sizes.fragmentWorkspace);
    StoreInto(decompressed, result.stored);
    if result.status != 0 {
      return Failed(DecompressionFailed(StatusCode(result.status)));
    }
    return Written(decompressed[..], result.finalSize != request.size);
  }

  /** Decodes the bytes of the file called `name`, calling ntdll through `nt`. */
  method ProcessFile(input: seq<bv8>, name: string, nt: Ntdll) returns (r: Outcome)
    ensures r == Decode(input, name, nt)
  {
    var stage := CheckContainer(input, name);
    match stage
    case Halt(outcome) =>
      r := outcome;
    case Proceed(request) =>
      r := Decompress(request, nt);
  }
}
