/** The secure video trusted application: its one command, which admits a
    request only after an ordered series of checks, splits the secure
    buffer into a firmware image and page tables, decrypts the firmware
    into it, verifies the image's signature and then builds the MMU tables
    and fills in the descriptor.  The TEE services it calls (access-rights
    checks, the physical-address helper, AES decryption, SHA-1) are
    answered by an environment value. */
module VideoTa {
  import opened MachineWords
  import opened MveFwLayout
  import opened MveFwMmu

  // ---------------------------------------------------------------------
  // TEE result codes (GlobalPlatform TEE Internal Core API)
  // ---------------------------------------------------------------------

  const Success: u32 := 0
  const ErrorAccessDenied: u32 := 0xFFFF_0001
  const ErrorBadParameters: u32 := 0xFFFF_0006
  const ErrorOutOfMemory: u32 := 0xFFFF_000C
  const ErrorShortBuffer: u32 := 0xFFFF_0010
  const ErrorCorruptObject: u32 := 0xF010_0001

  /** The command identifier of the load request. */
  const CmdLoadFw: u32 := 0

  /** Bytes at the end of a decrypted image that hold its signature. */
  const SignatureLen: nat := 32

  /** The fixed AES-128 key the firmware is encrypted under: "0123456789ABCDEF". */
  const FwKey: seq<byte> := [0x30, 0x31, 0x32, 0x33, 0x34, 0x35, 0x36, 0x37,
                             0x38, 0x39, 0x41, 0x42, 0x43, 0x44, 0x45, 0x46]

  // ---------------------------------------------------------------------
  // Parameter types
  // ---------------------------------------------------------------------

  const ParamValueInput: nat := 1
  const ParamMemrefInput: nat := 5
  const ParamMemrefOutput: nat := 6

  /** TEE_PARAM_TYPES: four 4-bit parameter types in one word, parameter 0
      in the lowest nibble. */
  function ParamTypes(t0: nat, t1: nat, t2: nat, t3: nat): (types: u32)
    requires t0 < 16 && t1 < 16 && t2 < 16 && t3 < 16
    ensures types < 0x1_0000
  {
    t0 + t1 * 16 + t2 * 256 + t3 * 4096
  }

  /** TEE_PARAM_TYPE_GET: the nibble of parameter `i`. */
  function ParamTypeGet(types: u32, i: nat): (t: nat)
    requires i < 4
    ensures t < 16
  {
    if i == 0 then types % 16 else ParamTypeGet(types / 16, i - 1)
  }

  /** Every parameter's type reads back from the packed word. */
  lemma ParamTypesRoundTrip(t0: nat, t1: nat, t2: nat, t3: nat, i: nat)
    requires t0 < 16 && t1 < 16 && t2 < 16 && t3 < 16 && i < 4
    ensures ParamTypeGet(ParamTypes(t0, t1, t2, t3), i) == [t0, t1, t2, t3][i]
  {
    var w := ParamTypes(t0, t1, t2, t3);
    var w1 := t1 + t2 * 16 + t3 * 256;
    var w2 := t2 + t3 * 16;
    assert w == t0 + 16 * w1;
    assert w1 == t1 + 16 * w2;
    assert w2 == t2 + 16 * t3;
    assert w / 16 == w1 && w % 16 == t0;
    assert w1 / 16 == w2 && w1 % 16 == t1;
    assert w2 / 16 == t3 && w2 % 16 == t2;
    assert t3 % 16 == t3;
    if i == 0 {
      assert ParamTypeGet(w, 0) == t0;
    } else if i == 1 {
      assert ParamTypeGet(w, 1) == ParamTypeGet(w1, 0) == t1;
    } else if i == 2 {
      assert ParamTypeGet(w, 2) == ParamTypeGet(w1, 1) == ParamTypeGet(w2, 0) == t2;
    } else {
      assert ParamTypeGet(w, 3) == ParamTypeGet(w1, 2) == ParamTypeGet(w2, 1) == ParamTypeGet(t3, 0) == t3;
    }
  }

  /** The types the load command accepts: a non-secure input buffer, the
      secure output buffer, the descriptor output buffer and a value. */
  const LoadFwTypes: u32 := ParamTypes(ParamMemrefInput, ParamMemrefOutput, ParamMemrefOutput, ParamValueInput)

  lemma LoadFwTypesValue()
    ensures LoadFwTypes == 0x1665
  {
  }

  // ---------------------------------------------------------------------
  // Memory access rights
  // ---------------------------------------------------------------------

  const RightsRead: u32 := 0x1
  const RightsWrite: u32 := 0x2
  const RightsAnyOwner: u32 := 0x4
  const RightsNonsecure: u32 := 0x1000_0000
  const RightsSecure: u32 := 0x2000_0000

  /** Any owner may read it and it is non-secure memory (the flags are
      distinct bits, so their OR is their sum). */
  const NonsecureReadable: u32 := RightsAnyOwner + RightsRead + RightsNonsecure
  /** Any owner may write it and it is secure memory. */
  const SecureWritable: u32 := RightsAnyOwner + RightsWrite + RightsSecure

  // ---------------------------------------------------------------------
  // The request and the environment
  // ---------------------------------------------------------------------

  /** A memory reference parameter: its address and its size in 32 bits. */
  datatype MemRef = MemRef(buffer: u32, size: u32)

  /** The four parameters of the load command: the encrypted firmware,
      the secure buffer, the descriptor and the number of cores. */
  datatype LoadParams = LoadParams(ns: MemRef, sec: MemRef, desc: MemRef, ncores: u32)

  /** What an AES decryption answers: its code and the plaintext. */
  datatype CipherOut = CipherOut(code: u32, plain: seq<byte>)

  /** A digest written into a 32-byte buffer can be no longer than it. */
  type Hash = h: seq<byte> | |h| <= 32 witness []

  datatype DigestOut = DigestOut(code: u32, hash: Hash)

  /** The TEE services the application calls, as the environment answers them. */
  datatype Tee = Tee(
    /** TEE_CheckMemoryAccessRights on a buffer with the given flags. */
    checkAccess: (u32, MemRef) -> u32,
    /** The physical address the secure-data-path helper reports for a
        buffer; 0 is a NULL answer. */
    physAddress: MemRef -> u32,
    /** The whole AES-128-ECB decryption under a key (operation and key
        set-up, then TEE_CipherDoFinal): its first failing code, or
        success and the plaintext. */
    decrypt: (seq<byte>, seq<byte>) -> CipherOut,
    /** TEE_AllocateOperation for SHA-1. */
    digestSetup: u32,
    /** Whether TEE_Malloc of the 32-byte digest buffer succeeds. */
    hashAllocOk: bool,
    /** TEE_DigestDoFinal over a byte string. */
    digest: seq<byte> -> DigestOut)

  /** A computation that yields a value or fails with a TEE code. */
  datatype Outcome<T> = Ok(value: T) | Fail(code: u32)

  // ---------------------------------------------------------------------
  // Admission
  // ---------------------------------------------------------------------

  /** The size check: the secure buffer must hold the input and one page
      more, the sum taken in 32 bits. */
  predicate SizeTooShort(p: LoadParams)
  {
    p.sec.size < Wrap(p.ns.size as int + 4096)
  }

  datatype Admission = Rejected(code: u32) | Admitted(fwPhys: u32)

  /** The checks of sedget_video_load_firmware before it touches any
      buffer, one after the other: parameter types, size, the three
      access-rights checks and the physical address of the secure buffer. */
  function Admit(tee: Tee, types: u32, p: LoadParams): (r: Admission)
    ensures r.Rejected? ==> r.code != Success
  {
    if types != LoadFwTypes then Rejected(ErrorBadParameters)
    else if SizeTooShort(p) then Rejected(ErrorShortBuffer)
    else if tee.checkAccess(NonsecureReadable, p.ns) != Success then Rejected(tee.checkAccess(NonsecureReadable, p.ns))
    else if tee.checkAccess(SecureWritable, p.sec) != Success then Rejected(tee.checkAccess(SecureWritable, p.sec))
    else if tee.checkAccess(NonsecureReadable, p.desc) != Success then Rejected(tee.checkAccess(NonsecureReadable, p.desc))
    else if tee.physAddress(p.sec) == 0 then Rejected(ErrorAccessDenied)
    else Admitted(tee.physAddress(p.sec))
  }

  /** The same checks as a list, in the order the code makes them; each is
      the code it would return, or success. */
  function AdmissionChecks(tee: Tee, types: u32, p: LoadParams): (checks: seq<u32>)
    ensures |checks| == 6
    ensures checks[0] == Success <==> types == LoadFwTypes
    ensures checks[5] == Success <==> tee.physAddress(p.sec) != 0
  {
    [if types == LoadFwTypes then Success else ErrorBadParameters,
     if SizeTooShort(p) then ErrorShortBuffer else Success,
     tee.checkAccess(NonsecureReadable, p.ns),
     tee.checkAccess(SecureWritable, p.sec),
     tee.checkAccess(NonsecureReadable, p.desc),
     if tee.physAddress(p.sec) == 0 then ErrorAccessDenied else Success]
  }

  /** The first code in a list of checks that is not success. */
  function FirstFailure(checks: seq<u32>): (r: Option<u32>)
    ensures r.None? <==> forall i :: 0 <= i < |checks| ==> checks[i] == Success
    ensures r.Some? ==> exists i :: 0 <= i < |checks| && checks[i] == r.value
                                    && forall k :: 0 <= k < i ==> checks[k] == Success
    ensures r.Some? ==> r.value != Success
  {
    if |checks| == 0 then None
    else if checks[0] != Success then Some(checks[0])
    else
      var rest := FirstFailure(checks[1..]);
      if rest.Some? then
        ghost var i :| 0 <= i < |checks| - 1 && checks[1..][i] == rest.value
                       && forall k :: 0 <= k < i ==> checks[1..][k] == Success;
        assert checks[i + 1] == rest.value;
        assert forall k :: 0 <= k < i + 1 ==> checks[k] == Success by {
          forall k | 0 <= k < i + 1 ensures checks[k] == Success {
            if k > 0 { assert checks[k] == checks[1..][k - 1]; }
          }
        }
        rest
      else
        assert forall i :: 0 <= i < |checks| ==> checks[i] == Success by {
          forall i | 0 <= i < |checks| ensures checks[i] == Success {
            if i > 0 { assert checks[i] == checks[1..][i - 1]; }
          }
        }
        rest
  }

  /** Admission rejects with the first failing check of the list, in list
      order, and admits exactly when every check passes. */
  lemma AdmitIsFirstFailure(tee: Tee, types: u32, p: LoadParams)
    ensures var f := FirstFailure(AdmissionChecks(tee, types, p));
      Admit(tee, types, p) == if f.Some? then Rejected(f.value) else Admitted(tee.physAddress(p.sec))
  {
    var c := AdmissionChecks(tee, types, p);
    assert c[1..][1..][1..][1..][1..][1..] == [];
    assert c[1..][0] == c[1] && c[1..][1..][0] == c[2] && c[1..][1..][1..][0] == c[3];
    assert c[1..][1..][1..][1..][0] == c[4] && c[1..][1..][1..][1..][1..][0] == c[5];
  }

  /** A wrong set of parameter types is rejected before anything else is
      looked at: the answer is the same whatever the buffers and the
      environment. */
  lemma BadTypesRejectedFirst(tee: Tee, tee': Tee, types: u32, p: LoadParams, p': LoadParams)
    requires types != LoadFwTypes
    ensures Admit(tee, types, p) == Admit(tee', types, p') == Rejected(ErrorBadParameters)
  {
  }

  /** A too-short secure buffer is rejected before any access-rights
      check: the answer does not depend on the environment. */
  lemma ShortBufferBeforeAccessChecks(tee: Tee, tee': Tee, p: LoadParams)
    requires SizeTooShort(p)
    ensures Admit(tee, LoadFwTypes, p) == Admit(tee', LoadFwTypes, p) == Rejected(ErrorShortBuffer)
  {
  }

  /** The size check reserves one page whatever the number of cores: two
      cores pass it with room for only one page of tables. */
  lemma SizeCheckIgnoresCores()
    ensures exists p: LoadParams :: !SizeTooShort(p) && p.sec.size < p.ncores * 4096 + p.ns.size
  {
    var p := LoadParams(MemRef(0, 16), MemRef(0, 4112), MemRef(0, 12), 2);
    assert !SizeTooShort(p);
  }

  /** The check's 32-bit sum wraps: an input within a page of 4 GiB lets
      any secure buffer through. */
  lemma SizeCheckWraps(sec: MemRef)
    ensures !SizeTooShort(LoadParams(MemRef(0, 0xFFFF_F000), sec, MemRef(0, 12), 1))
  {
    assert Wrap(0xFFFF_F000 + 4096) == 0;
  }

  // ---------------------------------------------------------------------
  // Decryption and signature
  // ---------------------------------------------------------------------

  /** decrypt_firmware: decrypts under the fixed key into a buffer of
      `capacity` bytes; a plaintext longer than that is a short buffer. */
  function DecryptFirmware(tee: Tee, src: seq<byte>, capacity: nat): (r: Outcome<seq<byte>>)
    ensures r.Ok? <==> tee.decrypt(FwKey, src).code == Success && |tee.decrypt(FwKey, src).plain| <= capacity
    ensures r.Ok? ==> r.value == tee.decrypt(FwKey, src).plain
    ensures r.Fail? ==> r.code != Success
  {
    var out := tee.decrypt(FwKey, src);
    if out.code != Success then Fail(out.code)
    else if |out.plain| > capacity then Fail(ErrorShortBuffer)
    else Ok(out.plain)
  }

  /** The bytes of a decrypted image the digest covers. */
  function Payload(chunk: seq<byte>): seq<byte>
    requires |chunk| >= SignatureLen
  {
    chunk[..|chunk| - SignatureLen]
  }

  /** The last 32 bytes of a decrypted image. */
  function SignatureField(chunk: seq<byte>): seq<byte>
    requires |chunk| >= SignatureLen
  {
    chunk[|chunk| - SignatureLen..]
  }

  /** The TEE can set up a digest. */
  predicate DigestReady(tee: Tee)
  {
    tee.digestSetup == Success && tee.hashAllocOk
  }

  /** The payload's digest can be taken and the signature field begins
      with it. */
  predicate Signed(tee: Tee, chunk: seq<byte>)
    requires |chunk| >= SignatureLen
  {
    var d := tee.digest(Payload(chunk));
    d.code == Success && d.hash <= SignatureField(chunk)
  }

  /** verify_firmware_signature: the digest of all but the last 32 bytes,
      compared over its own length with the bytes that start 32 from the
      end. */
  function VerifySignature(tee: Tee, chunk: seq<byte>): (res: u32)
    requires |chunk| >= SignatureLen
    ensures res == Success <==> DigestReady(tee) && Signed(tee, chunk)
  {
    var sig := |chunk| - SignatureLen;
    if tee.digestSetup != Success then tee.digestSetup
    else if !tee.hashAllocOk then ErrorOutOfMemory
    else
      var d := tee.digest(chunk[..sig]);
      if d.code != Success then d.code
      else if chunk[sig..sig + |d.hash|] != d.hash then ErrorCorruptObject
      else Success
  }

  /** Changing a compared byte of the signature field of an accepted image
      makes it rejected as corrupt. */
  lemma TamperedSignatureRejected(tee: Tee, chunk: seq<byte>, k: nat, b: byte)
    requires |chunk| >= SignatureLen && VerifySignature(tee, chunk) == Success
    requires |chunk| - SignatureLen <= k < |chunk| - SignatureLen + |tee.digest(Payload(chunk)).hash|
    requires b != chunk[k]
    ensures VerifySignature(tee, chunk[k := b]) == ErrorCorruptObject
  {
    var sig := |chunk| - SignatureLen;
    var chunk' := chunk[k := b];
    assert chunk'[..sig] == chunk[..sig];
    var h := tee.digest(chunk[..sig]).hash;
    assert chunk'[sig..sig + |h|][k - sig] == b;
    assert chunk[sig..sig + |h|] == h;
  }

  /** The bytes of the signature field past the digest's length are never
      compared: with a 20-byte SHA-1 digest the last 12 may be anything. */
  lemma UncomparedSignatureBytesIgnored(tee: Tee, chunk: seq<byte>, k: nat, b: byte)
    requires |chunk| >= SignatureLen
    requires |chunk| - SignatureLen + |tee.digest(Payload(chunk)).hash| <= k < |chunk|
    ensures VerifySignature(tee, chunk[k := b]) == VerifySignature(tee, chunk)
  {
    var sig := |chunk| - SignatureLen;
    var chunk' := chunk[k := b];
    assert chunk'[..sig] == chunk[..sig];
    var h := tee.digest(chunk[..sig]).hash;
    assert chunk'[sig..sig + |h|] == chunk[sig..sig + |h|];
  }

  /** An image made of a payload, its digest and any padding up to 32
      bytes is accepted. */
  lemma AppendedDigestAccepted(tee: Tee, payload: seq<byte>, pad: seq<byte>)
    requires DigestReady(tee) && tee.digest(payload).code == Success
    requires |pad| == SignatureLen - |tee.digest(payload).hash|
    ensures VerifySignature(tee, payload + tee.digest(payload).hash + pad) == Success
  {
    var h := tee.digest(payload).hash;
    var chunk := payload + h + pad;
    assert Payload(chunk) == payload;
    assert SignatureField(chunk) == h + pad;
  }

  /** A plaintext the signature check is given holds at least the
      signature field.  The code does not check it: for a shorter one the
      digest length `chunkLen - 32` wraps around. */
  ghost predicate SignatureFits(tee: Tee, src: seq<byte>, capacity: nat)
  {
    var out := tee.decrypt(FwKey, src);
    out.code == Success && |out.plain| <= capacity ==> |out.plain| >= SignatureLen
  }

  /** A plaintext that passes the signature check, and so reaches the table
      builder, holds a header the builder can follow.  The code does not
      check it; unsigned plaintexts are rejected before the header is read
      and may hold anything. */
  ghost predicate SignedImageBuildable(tee: Tee, src: seq<byte>, capacity: nat)
  {
    var out := tee.decrypt(FwKey, src);
    && SignatureFits(tee, src, capacity)
    && (out.code == Success && |out.plain| <= capacity && DigestReady(tee) && Signed(tee, out.plain) ==>
          |out.plain| >= HeaderSize && Buildable(ParseHeader(out.plain[..HeaderSize])))
  }

  /** decrypt_video_firmware: decryption, then the signature check over
      the plaintext. */
  function DecryptVideoFirmware(tee: Tee, src: seq<byte>, capacity: nat): (r: Outcome<seq<byte>>)
    requires SignatureFits(tee, src, capacity)
    ensures r.Ok? <==>
      && DecryptFirmware(tee, src, capacity).Ok?
      && DigestReady(tee) && Signed(tee, DecryptFirmware(tee, src, capacity).value)
    ensures r.Ok? ==> r.value == DecryptFirmware(tee, src, capacity).value
    ensures r.Fail? ==> r.code != Success
  {
    match DecryptFirmware(tee, src, capacity)
    case Fail(code) => Fail(code)
    case Ok(plain) =>
      var res := VerifySignature(tee, plain);
      if res != Success then Fail(res) else Ok(plain)
  }

  // ---------------------------------------------------------------------
  // The load command
  // ---------------------------------------------------------------------

  /** Bytes of the secure buffer left for the image once one table page per
      core is set aside at its end, in 32 bits. */
  function Capacity(p: LoadParams): u32
  {
    Wrap(p.sec.size as int - p.ncores as int * 4096)
  }

  /** The code the load command returns. */
  function LoadStatus(tee: Tee, types: u32, p: LoadParams, src: seq<byte>): u32
    requires Admit(tee, types, p).Admitted? ==> SignatureFits(tee, src, Capacity(p))
  {
    match Admit(tee, types, p)
    case Rejected(code) => code
    case Admitted(_) =>
      match DecryptVideoFirmware(tee, src, Capacity(p))
      case Fail(code) => code
      case Ok(_) => Success
  }

  /** The load succeeds exactly when every admission check passes, the
      plaintext fits the image part of the secure buffer and its signature
      field begins with the digest of the rest. */
  lemma LoadSucceedsOnlyForSignedImages(tee: Tee, types: u32, p: LoadParams, src: seq<byte>)
    requires Admit(tee, types, p).Admitted? ==> SignatureFits(tee, src, Capacity(p))
    ensures Admit(tee, types, p).Admitted? <==> forall i :: 0 <= i < 6 ==> AdmissionChecks(tee, types, p)[i] == Success
    ensures LoadStatus(tee, types, p, src) == Success <==>
      && Admit(tee, types, p).Admitted?
      && DecryptFirmware(tee, src, Capacity(p)).Ok?
      && DigestReady(tee)
      && Signed(tee, DecryptFirmware(tee, src, Capacity(p)).value)
  {
    AdmitIsFirstFailure(tee, types, p);
  }

  /** The secure buffer after the load writes the plaintext over its zeroed
      image part. */
  function ImageAfterDecrypt(plain: seq<byte>, length: nat): (image: seq<byte>)
    requires |plain| <= length
    ensures |image| == length && image[..|plain|] == plain
    ensures forall i :: |plain| <= i < length ==> image[i] == 0
  {
    plain + seq(length - |plain|, _ => 0)
  }

  /** sedget_video_load_firmware.  The secure buffer is given as its two
      parts: the image (its first `Capacity` bytes) and the page tables
      (one page of entries per core after it).  A rejected request changes
      nothing; an admitted one goes on as `LoadAdmitted` says. */
  method LoadFirmware(tee: Tee, types: u32, p: LoadParams, src: seq<byte>, image: array<byte>,
                      l2: array<u32>, desc: SecureDescriptor) returns (rc: u32)
    requires |src| == p.ns.size
    requires Admit(tee, types, p).Admitted? ==>
      && p.ncores * 4096 <= p.sec.size
      && image.Length == p.sec.size - p.ncores * 4096
      && l2.Length == p.ncores * 1024
      && SignedImageBuildable(tee, src, Capacity(p))
    modifies image, l2, desc
    ensures rc == LoadStatus(tee, types, p, src)
    ensures rc != Success ==> desc.major == old(desc.major) && desc.minor == old(desc.minor)
    ensures Admit(tee, types, p).Rejected? ==> unchanged(image, l2, desc)
    ensures Admit(tee, types, p).Admitted? ==>
      LoadedAs(tee, src, tee.physAddress(p.sec), Capacity(p), p.ncores, image, l2, desc, old(desc.l2pages))
  {
    var admission := Admit(tee, types, p);
    if admission.Rejected? {
      return admission.code;
    }
    var len := Wrap(p.sec.size as int - p.ncores as int * 4096);
    rc := LoadAdmitted(tee, src, admission.fwPhys, len, p.ncores, image, l2, desc);
  }

  /** The state an admitted load leaves: the image part holds zeros, or the
      plaintext over zeros once decryption succeeds; the tables stay zero
      and the descriptor untouched unless the signature holds, and then the
      tables are built for the decrypted image, the descriptor carries its
      protocol version and the tables' physical address, which follows
      the image part. */
  ghost predicate LoadedAs(tee: Tee, src: seq<byte>, fwPhys: u32, capacity: u32, ncores: nat,
                           image: array<byte>, l2: array<u32>, desc: SecureDescriptor, oldL2pages: u32)
    requires SignedImageBuildable(tee, src, capacity) && l2.Length == ncores * 1024
    reads image, l2, desc
  {
    var decrypted := DecryptFirmware(tee, src, capacity);
    var checked := DecryptVideoFirmware(tee, src, capacity);
    && (decrypted.Fail? ==> image[..] == seq(image.Length, _ => 0))
    && (decrypted.Ok? && |decrypted.value| <= image.Length ==>
          image[..] == ImageAfterDecrypt(decrypted.value, image.Length))
    && (checked.Fail? ==> l2[..] == seq(l2.Length, _ => 0) && desc.l2pages == oldL2pages)
    && (checked.Ok? ==>
          var h := ParseHeader(checked.value[..HeaderSize]);
          && desc.major == h.protocolMajor && desc.minor == h.protocolMinor
          && desc.l2pages == Wrap(fwPhys as int + capacity)
          && l2[..] == Tables(seq(l2.Length, _ => 0), Kinds(h), Layout(h, fwPhys, |checked.value|), ncores))
  }

  /** The part of the load after admission: empty the secure buffer,
      decrypt into it, check the signature, build the tables and write the
      descriptor. */
  method LoadAdmitted(tee: Tee, src: seq<byte>, fwPhys: u32, len: u32, ncores: nat,
                      image: array<byte>, l2: array<u32>, desc: SecureDescriptor) returns (rc: u32)
    requires image.Length == len && l2.Length == ncores * 1024
    requires SignedImageBuildable(tee, src, len)
    modifies image, l2, desc
    ensures var checked := DecryptVideoFirmware(tee, src, len);
      rc == if checked.Ok? then Success else checked.code
    ensures rc != Success ==> desc.major == old(desc.major) && desc.minor == old(desc.minor)
    ensures LoadedAs(tee, src, fwPhys, len, ncores, image, l2, desc, old(desc.l2pages))
  {
    // Empty the whole secure buffer.
    forall i | 0 <= i < image.Length {
      image[i] := 0;
    }
    forall i | 0 <= i < l2.Length {
      l2[i] := 0;
    }
    ghost var zeroTables := l2[..];
    assert zeroTables == seq(l2.Length, _ => 0);

    var decrypted := DecryptFirmware(tee, src, len);
    if decrypted.Fail? {
      return decrypted.code;
    }
    var plain := decrypted.value;
    forall i | 0 <= i < |plain| {
      image[i] := plain[i];
    }
    assert image[..] == ImageAfterDecrypt(plain, image.Length);
    assert image[..|plain|] == plain;
    rc := VerifySignature(tee, image[..|plain|]);
    if rc != Success {
      return;
    }

    BuildSignedTables(tee, src, fwPhys, len, ncores, plain, image, l2, desc);
  }

  /** The end of an admitted load whose image is signed: build the tables
      for its header and point the descriptor at them. */
  method BuildSignedTables(tee: Tee, src: seq<byte>, fwPhys: u32, len: u32, ncores: nat, plain: seq<byte>,
                           image: array<byte>, l2: array<u32>, desc: SecureDescriptor)
    requires image.Length == len && l2.Length == ncores * 1024
    requires SignedImageBuildable(tee, src, len)
    requires DecryptFirmware(tee, src, len) == Ok(plain) && VerifySignature(tee, plain) == Success
    requires image[..] == ImageAfterDecrypt(plain, image.Length)
    requires l2[..] == seq(l2.Length, _ => 0)
    modifies l2, desc
    ensures desc.major == ParseHeader(plain[..HeaderSize]).protocolMajor
    ensures desc.minor == ParseHeader(plain[..HeaderSize]).protocolMinor
    ensures LoadedAs(tee, src, fwPhys, len, ncores, image, l2, desc, old(desc.l2pages))
  {
    SignedPlaintextBuildable(tee, src, len);
    ghost var zeroTables := l2[..];
    ghost var h := ParseHeader(plain[..HeaderSize]);
    var loaded := image[..];
    assert loaded[..HeaderSize] == plain[..HeaderSize];
    FillL2Pages(loaded, fwPhys, |plain|, l2, ncores, desc);
    assert l2[..] == Tables(zeroTables, Kinds(h), Layout(h, fwPhys, |plain|), ncores);
    desc.l2pages := Wrap(fwPhys as int + len);
  }

  /** A plaintext that decrypts within the capacity and passes the
      signature check is what `DecryptVideoFirmware` returns, and it holds
      a header the table builder can follow. */
  lemma SignedPlaintextBuildable(tee: Tee, src: seq<byte>, capacity: nat)
    requires SignedImageBuildable(tee, src, capacity)
    requires DecryptFirmware(tee, src, capacity).Ok?
    requires VerifySignature(tee, DecryptFirmware(tee, src, capacity).value) == Success
    ensures var plain := DecryptFirmware(tee, src, capacity).value;
      && DecryptVideoFirmware(tee, src, capacity) == Ok(plain)
      && |plain| >= HeaderSize && Buildable(ParseHeader(plain[..HeaderSize]))
  {
  }

  /** TA_InvokeCommandEntryPoint: the load command runs the load; any other
      command is a bad parameter and touches nothing. */
  method InvokeCommand(cmd: u32, tee: Tee, types: u32, p: LoadParams, src: seq<byte>, image: array<byte>,
                       l2: array<u32>, desc: SecureDescriptor) returns (rc: u32)
    requires cmd == CmdLoadFw ==>
      && |src| == p.ns.size
      && (Admit(tee, types, p).Admitted? ==>
            && p.ncores * 4096 <= p.sec.size
            && image.Length == p.sec.size - p.ncores * 4096
            && l2.Length == p.ncores * 1024
            && SignedImageBuildable(tee, src, Capacity(p)))
    modifies image, l2, desc
    ensures cmd != CmdLoadFw ==> rc == ErrorBadParameters && unchanged(image, l2, desc)
    ensures cmd == CmdLoadFw ==> rc == LoadStatus(tee, types, p, src)
    ensures rc != Success ==> desc.major == old(desc.major) && desc.minor == old(desc.minor)
    ensures cmd == CmdLoadFw && Admit(tee, types, p).Rejected? ==> unchanged(image, l2, desc)
    ensures cmd == CmdLoadFw && Admit(tee, types, p).Admitted? ==>
      LoadedAs(tee, src, tee.physAddress(p.sec), Capacity(p), p.ncores, image, l2, desc, old(desc.l2pages))
  {
    if cmd == CmdLoadFw {
      rc := LoadFirmware(tee, types, p, src, image, l2, desc);
    } else {
      rc := ErrorBadParameters;
    }
  }
}
