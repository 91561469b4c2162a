/** What the MAM decoder guarantees, stated over `Mam.Decode` and its stages. */
module MamProperties {
  import opened LittleEndian
  import Crc32
  import opened Mam

  /** The signature word of an input with a full header. */
  function SignatureOf(input: seq<bv8>): (signature: bv32)
    requires |input| >= 8
  {
    ReadU32(input[..4])
  }

  /** The declared decompressed size of an input with a full header. */
  function DeclaredSize(input: seq<bv8>): (size: bv32)
    requires |input| >= 8
  {
    ReadU32(input[4..8])
  }

  // ---------------------------------------------------------------------
  // Header and signature

  /** Fewer than 8 bytes cannot be unpacked into a header. */
  lemma ShortInputRejected(input: seq<bv8>, name: string, nt: Ntdll)
    requires |input| < 8
    ensures Decode(input, name, nt) == Failed(TruncatedHeader)
  {
  }

  /** A signature without the "MAM" magic stops the decoder before any CRC
      check or ntdll call: a ".pf" file is skipped, any other is an error. */
  lemma WrongMagicStops(input: seq<bv8>, name: string, nt: Ntdll)
    requires |input| >= 8 && MagicField(SignatureOf(input)) != 0x4D_414D
    ensures Decode(input, name, nt) == if HasPfSuffix(name) then Skipped else Failed(WrongSignature)
  {
  }

  /** The signature bytes 4D 41 4D 20 carry the magic, algorithm 0 and CRC
      flag 2: the flag sits in the top nibble of the last byte. */
  lemma SignatureBytesExample()
    ensures MagicField(ReadU32([0x4D, 0x41, 0x4D, 0x20])) == 0x4D_414D
    ensures AlgorithmField(ReadU32([0x4D, 0x41, 0x4D, 0x20])) == 0
    ensures CrcFlagField(ReadU32([0x4D, 0x41, 0x4D, 0x20])) == 2
  {
  }

  /** Without the CRC flag, ntdll gets exactly the bytes after the header. */
  lemma PlainPayload(input: seq<bv8>, name: string)
    requires |input| >= 8
    requires MagicField(SignatureOf(input)) == 0x4D_414D && CrcFlagField(SignatureOf(input)) == 0
    ensures Prepare(input, name)
         == Proceed(Request(AlgorithmField(SignatureOf(input)) as bv16, input[8..], DeclaredSize(input)))
  {
  }

  // ---------------------------------------------------------------------
  // The CRC check

  /** The three chained CRC calls compute the CRC of header, four zero bytes
      and payload in one piece. */
  lemma {:induction false} ComputedCrcIsCrc(header: seq<bv8>, payload: seq<bv8>)
    ensures ComputedCrc(header, payload) == Crc32.Crc(header + [0, 0, 0, 0] + payload)
  {
    WriteZero();
    Crc32.Crc32Chain(header, [0, 0, 0, 0], 0);
    Crc32.Crc32Chain(header + [0, 0, 0, 0], payload, 0);
  }

  /** With the CRC flag set, the stored CRC is bytes 8-11 and the payload is
      what follows; a CRC that does not match stops the decoder. */
  lemma CheckedPayload(input: seq<bv8>, name: string)
    requires |input| >= 12
    requires MagicField(SignatureOf(input)) == 0x4D_414D && CrcFlagField(SignatureOf(input)) != 0
    ensures Prepare(input, name)
         == (var computed := Crc32.Crc(input[..8] + [0, 0, 0, 0] + input[12..]);
             var stored := ReadU32(input[8..12]);
             if computed == stored
             then Proceed(Request(AlgorithmField(SignatureOf(input)) as bv16, input[12..], DeclaredSize(input)))
             else Halt(Failed(CrcMismatch(computed, stored))))
  {
    ComputedCrcIsCrc(input[..8], input[12..]);
  }

  /** With the CRC flag set, fewer than 4 bytes after the header cannot hold the CRC. */
  lemma ShortChecksumRejected(input: seq<bv8>, name: string, nt: Ntdll)
    requires 8 <= |input| < 12
    requires MagicField(SignatureOf(input)) == 0x4D_414D && CrcFlagField(SignatureOf(input)) != 0
    ensures Decode(input, name, nt) == Failed(TruncatedChecksum)
  {
  }

  // ---------------------------------------------------------------------
  // Dispatch to ntdll

  /** A failed workspace query is reported with its code; the decompressor is
      never consulted. */
  lemma WorkspaceFailureStops(request: Request, nt: Ntdll)
    requires nt.workspaceSize(request.algorithm).status != 0
    ensures Dispatch(request, nt) == Failed(WorkspaceQueryFailed(StatusCode(nt.workspaceSize(request.algorithm).status)))
  {
  }

  /** The arguments the decompressor is called with: the format, the payload,
      the declared size as capacity, the payload length as a ULONG and the
      fragment workspace size. */
  function DecompressCall(request: Request, nt: Ntdll): (d: Decompressed) {
    nt.decompress(request.algorithm, request.payload, request.size,
                  Ulong(|request.payload|), nt.workspaceSize(request.algorithm).fragmentWorkspace)
  }

  /** A failed decompression is reported with its code. */
  lemma DecompressionFailureStops(request: Request, nt: Ntdll)
    requires nt.workspaceSize(request.algorithm).status == 0
    requires DecompressCall(request, nt).status != 0
    ensures Dispatch(request, nt) == Failed(DecompressionFailed(StatusCode(DecompressCall(request, nt).status)))
  {
  }

  /** On success the output is the whole declared-size buffer: what ntdll
      stored at its front, zeros after; the size warning is raised exactly
      when the final size differs from the declared one. */
  lemma SuccessfulDispatch(request: Request, nt: Ntdll)
    requires nt.workspaceSize(request.algorithm).status == 0
    requires DecompressCall(request, nt).status == 0
    ensures var r := Dispatch(request, nt);
            var d := DecompressCall(request, nt);
            && r.Written?
            && |r.output| == request.size as int
            && (forall i :: 0 <= i < |r.output| ==> r.output[i] == if i < |d.stored| then d.stored[i] else 0)
            && (r.sizeWarning <==> d.finalSize != request.size)
  {
  }

  /** The final size reported by ntdll changes only the warning, never the bytes written. */
  lemma FinalSizeOnlyWarns(request: Request, nt: Ntdll, nt': Ntdll)
    requires nt.workspaceSize == nt'.workspaceSize
    requires nt.workspaceSize(request.algorithm).status == 0
    requires DecompressCall(request, nt).status == 0
    requires DecompressCall(request, nt').status == 0
    requires DecompressCall(request, nt').stored == DecompressCall(request, nt).stored
    ensures Dispatch(request, nt').output == Dispatch(request, nt).output
  {
  }

  // ---------------------------------------------------------------------
  // Whole decode

  /** Output is only ever written for a container with the "MAM" magic whose
      CRC, when flagged, matches; and it has the declared size. */
  lemma WrittenOnlyWhenValid(input: seq<bv8>, name: string, nt: Ntdll)
    requires Decode(input, name, nt).Written?
    ensures |input| >= 8 && MagicField(SignatureOf(input)) == 0x4D_414D
    ensures CrcFlagField(SignatureOf(input)) != 0 ==>
              |input| >= 12 && Crc32.Crc(input[..8] + [0, 0, 0, 0] + input[12..]) == ReadU32(input[8..12])
    ensures |Decode(input, name, nt).output| == DeclaredSize(input) as int
  {
    if CrcFlagField(SignatureOf(input)) != 0 {
      CheckedPayload(input, name);
    }
  }

  /** A container built by `Seal` passes every check and hands its payload,
      format and size to ntdll unchanged. */
  lemma {:induction false} SealThenPrepare(algorithm: bv32, crcFlag: bv32, size: bv32, payload: seq<bv8>, name: string)
    requires algorithm < 16 && crcFlag < 16
    ensures Prepare(Seal(algorithm, crcFlag, size, payload), name)
         == Proceed(Request(algorithm as bv16, payload, size))
  {
    var c := Seal(algorithm, crcFlag, size, payload);
    var signature := MakeSignature(0x4D_414D, algorithm, crcFlag);
    var header := WriteU32(signature) + WriteU32(size);
    FieldsOfSignature(0x4D_414D, algorithm, crcFlag);
    ReadWrite(signature);
    ReadWrite(size);
    assert c[..8] == header;
    assert c[..4] == WriteU32(signature);
    assert c[4..8] == WriteU32(size);
    if crcFlag != 0 {
      var crc := Crc32.Crc(header + WriteU32(0) + payload);
      ReadWrite(crc);
      assert c[8..12] == WriteU32(crc);
      assert c[12..] == payload;
      WriteZero();
      ComputedCrcIsCrc(header, payload);
    } else {
      assert c[8..] == payload;
    }
  }

  /** Changing one byte of a payload changes the CRC the decoder computes over it. */
  lemma {:induction false} PayloadCrcDetectsChange(header: seq<bv8>, payload: seq<bv8>, i: nat, b: bv8)
    requires i < |payload| && b != payload[i]
    ensures Crc32.Crc(header + [0, 0, 0, 0] + payload[i := b]) != Crc32.Crc(header + [0, 0, 0, 0] + payload)
  {
    var pre := header + [0, 0, 0, 0] + payload[..i];
    var post := payload[i + 1..];
    assert header + [0, 0, 0, 0] + payload == pre + [payload[i]] + post;
    assert header + [0, 0, 0, 0] + payload[i := b] == pre + [b] + post;
    Crc32.SingleByteChangeDetected(pre, payload[i], b, post, 0);
  }

  /** Changing any one payload byte of a CRC-protected container makes the
      decoder reject it with a CRC mismatch, whatever ntdll would do. */
  lemma {:induction false} CorruptedPayloadRejected(algorithm: bv32, crcFlag: bv32, size: bv32, payload: seq<bv8>,
                                                    i: nat, b: bv8, name: string, nt: Ntdll)
    requires algorithm < 16 && 0 < crcFlag < 16 && i < |payload| && b != payload[i]
    ensures Decode(Seal(algorithm, crcFlag, size, payload)[12 + i := b], name, nt).Failed?
    ensures Decode(Seal(algorithm, crcFlag, size, payload)[12 + i := b], name, nt).error.CrcMismatch?
  {
    var c := Seal(algorithm, crcFlag, size, payload);
    var d := c[12 + i := b];
    SealThenPrepare(algorithm, crcFlag, size, payload, name);
    CheckedPayload(c, name);
    assert d[..4] == c[..4] && d[..8] == c[..8] && d[8..12] == c[8..12];
    assert d[12..] == payload[i := b] by {
      assert c[12..] == payload;
    }
    CheckedPayload(d, name);
    PayloadCrcDetectsChange(c[..8], payload, i, b);
  }
}
