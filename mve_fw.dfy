/** The host side of firmware loading: a fixed table from codec roles to
    encrypted firmware files, the lookup of a role in it, the reading of a
    firmware file within a size limit and its hand-over to the secure
    side, and the protected buffer the firmware is loaded into, which is
    given back on every failure.  The file system and the call into the
    trusted application are answered by an environment value. */
module HostFirmware {
  import opened MachineWords
  import opened ProtectedMem

  /** The protected buffer a firmware is loaded into: 4 MiB, enough for
      the firmware MMU's second-level tables. */
  const Size4M: nat := 0x40_0000
  /** The largest firmware file the host accepts: 1 MiB. */
  const Size1M: nat := 0x10_0000

  datatype FirmwareItem = FirmwareItem(role: string, filename: string)

  /** The role table, in the order it is searched. */
  const FirmwareList: seq<FirmwareItem> := [
    FirmwareItem("video_decoder.avc", "/lib/firmware/h264dec.efwb"),
    FirmwareItem("video_encoder.avc", "/lib/firmware/h264enc.efwb"),
    FirmwareItem("video_decoder.hevc", "/lib/firmware/hevcdec.efwb"),
    FirmwareItem("video_encoder.hevc", "/lib/firmware/hevcenc.efwb"),
    FirmwareItem("video_decoder.h264", "/lib/firmware/h264dec.efwb"),
    FirmwareItem("video_decoder.vp8", "/lib/firmware/vp8dec.efwb"),
    FirmwareItem("video_encoder.vp8", "/lib/firmware/vp8enc.efwb"),
    FirmwareItem("video_decoder.vp9", "/lib/firmware/vp9dec.efwb"),
    FirmwareItem("video_encoder.vp9", "/lib/firmware/vp9enc.efwb"),
    FirmwareItem("video_decoder.rv", "/lib/firmware/rvdec.efwb"),
    FirmwareItem("video_decoder.mpeg2", "/lib/firmware/mpeg2dec.efwb"),
    FirmwareItem("video_decoder.mpeg4", "/lib/firmware/mpeg4dec.efwb"),
    FirmwareItem("video_decoder.h263", "/lib/firmware/mpeg4dec.efwb"),
    FirmwareItem("video_decoder.vc1", "/lib/firmware/vc1dec.efwb"),
    FirmwareItem("video_encoder.jpeg", "/lib/firmware/jpegenc.efwb"),
    FirmwareItem("video_decoder.jpeg", "/lib/firmware/jpegdec.efwb")
  ]

  // ---------------------------------------------------------------------
  // Role lookup
  // ---------------------------------------------------------------------

  /** The index of the first item whose role is exactly `role`, or the
      table's length when there is none. */
  function RoleIndex(items: seq<FirmwareItem>, role: string): (i: nat)
    ensures i <= |items|
    ensures i < |items| ==> items[i].role == role
    ensures forall k :: 0 <= k < i ==> items[k].role != role
  {
    if |items| == 0 then 0
    else if items[0].role == role then 0
    else
      var i := 1 + RoleIndex(items[1..], role);
      assert forall k :: 1 <= k < i ==> items[k] == items[1..][k - 1];
      i
  }

  /** The firmware file of a role, if the table has it. */
  function FirmwareFor(role: string): (file: Option<string>)
    ensures file.Some? <==> exists k :: 0 <= k < |FirmwareList| && FirmwareList[k].role == role
  {
    var i := RoleIndex(FirmwareList, role);
    if i < |FirmwareList| then Some(FirmwareList[i].filename) else None
  }

  /** The search loop of sedget_load_prot_firmware: scan the table and stop
      at the first exact match. */
  method FindRole(role: string) returns (i: nat)
    ensures i == RoleIndex(FirmwareList, role)
  {
    i := 0;
    while i < |FirmwareList|
      invariant i <= |FirmwareList|
      invariant forall k :: 0 <= k < i ==> FirmwareList[k].role != role
    {
      if FirmwareList[i].role == role {
        break;
      }
      i := i + 1;
    }
    FirstMatchIsRoleIndex(FirmwareList, role, i);
  }

  /** An index that is the table's first match, or its length when nothing
      matches, is `RoleIndex`. */
  lemma {:induction false} FirstMatchIsRoleIndex(items: seq<FirmwareItem>, role: string, i: nat)
    requires i <= |items| && (i < |items| ==> items[i].role == role)
    requires forall k :: 0 <= k < i ==> items[k].role != role
    ensures i == RoleIndex(items, role)
  {
  }

  /** The avc and h264 decoder roles both load the H.264 decoder. */
  lemma AvcAndH264ShareFirmware()
    ensures FirmwareFor("video_decoder.avc") == Some("/lib/firmware/h264dec.efwb")
    ensures FirmwareFor("video_decoder.h264") == Some("/lib/firmware/h264dec.efwb")
  {
    FirstMatchIsRoleIndex(FirmwareList, "video_decoder.avc", 0);
    FirstMatchIsRoleIndex(FirmwareList, "video_decoder.h264", 4);
  }

  /** The mpeg4 decoder role loads the MPEG-4 decoder. */
  lemma Mpeg4DecoderFirmware()
    ensures FirmwareFor("video_decoder.mpeg4") == Some("/lib/firmware/mpeg4dec.efwb")
  {
    var mpeg4 := "video_decoder.mpeg4";
    forall k | 0 <= k < 10 ensures FirmwareList[k].role != mpeg4 {
      assert |FirmwareList[k].role| < |mpeg4|;
    }
    assert FirmwareList[10].role[18] != mpeg4[18];
    FirstMatchIsRoleIndex(FirmwareList, mpeg4, 11);
  }

  /** The h263 decoder role loads the MPEG-4 decoder too. */
  lemma H263DecoderFirmware()
    ensures FirmwareFor("video_decoder.h263") == Some("/lib/firmware/mpeg4dec.efwb")
  {
    var h263 := "video_decoder.h263";
    forall k | 0 <= k < 2 ensures FirmwareList[k].role != h263 {
      assert |FirmwareList[k].role| == 17;
    }
    assert FirmwareList[2].role[15] != h263[15];
    assert FirmwareList[3].role[6] != h263[6];
    assert FirmwareList[4].role[17] != h263[17];
    forall k | 5 <= k < 12 ensures FirmwareList[k].role != h263 {
      assert |FirmwareList[k].role| != 18;
    }
    FirstMatchIsRoleIndex(FirmwareList, h263, 12);
  }

  // ---------------------------------------------------------------------
  // Reading a firmware file and handing it over
  // ---------------------------------------------------------------------

  /** What the file system, the allocator and the trusted application
      answer. */
  datatype HostEnv = HostEnv(
    /** stat(2): the file's size, or nothing when it fails. */
    stat: string -> Option<nat>,
    /** Whether fopen of the file succeeds. */
    opens: string -> bool,
    /** Whether malloc of the read buffer succeeds. */
    readBufferOk: bool,
    /** The bytes fread delivers when asked for that many. */
    read: (string, nat) -> seq<byte>,
    /** The code of the load request sent to the trusted application with
        the image, the protected buffer's descriptor and its size, and the
        number of cores; 0 is success. */
    teeLoad: (seq<byte>, int, nat, int) -> int,
    /** The secure descriptor the trusted application writes back into the
        caller's output buffer when that same request succeeds: the
        firmware protocol version and the physical address of the page
        tables it built. */
    teeDescriptor: (seq<byte>, int, nat, int) -> seq<byte>)

  /** get_firmware_file_size: 0 when the file cannot be stat'ed. */
  function FileSize(env: HostEnv, filename: string): nat
  {
    match env.stat(filename)
    case None => 0
    case Some(size) => size
  }

  /** load_firmware: the number of bytes handed over, or 0 on any failure.
      An empty file or one larger than 1 MiB is refused first. */
  function LoadFirmwareFile(env: HostEnv, filename: string, memFd: int, shmLen: nat, ncores: int): (res: nat)
    ensures res != 0 ==> res == FileSize(env, filename) && res <= Size1M
    ensures res != 0 <==>
      && 0 < FileSize(env, filename) <= Size1M
      && env.opens(filename) && env.readBufferOk
      && |env.read(filename, FileSize(env, filename))| == FileSize(env, filename)
      && env.teeLoad(env.read(filename, FileSize(env, filename)), memFd, shmLen, ncores) == 0
  {
    var size := FileSize(env, filename);
    if size == 0 || size > Size1M then 0
    else if !env.opens(filename) then 0
    else if !env.readBufferOk then 0
    else
      var data := env.read(filename, size);
      if |data| != size then 0
      else if env.teeLoad(data, memFd, shmLen, ncores) != 0 then 0
      else size
  }

  /** The descriptor bytes a load of `filename` hands back, as the trusted
      application answers the request load_firmware sends. */
  function LoadedDescriptor(env: HostEnv, filename: string, memFd: int, shmLen: nat, ncores: int): seq<byte>
  {
    env.teeDescriptor(env.read(filename, FileSize(env, filename)), memFd, shmLen, ncores)
  }

  /** The first `outSize` bytes of the output buffer after a successful
      load: the descriptor the trusted application wrote, cut at `outSize`,
      over the zeros the host put there first. */
  function OutAfterLoad(descriptor: seq<byte>, outSize: nat): (r: seq<byte>)
    ensures |r| == outSize
    ensures |descriptor| <= outSize ==> r[..|descriptor|] == descriptor
    ensures outSize <= |descriptor| ==> r == descriptor[..outSize]
    ensures forall i :: |descriptor| <= i < outSize ==> r[i] == 0
  {
    if outSize <= |descriptor| then descriptor[..outSize]
    else descriptor + seq(outSize - |descriptor|, _ => 0)
  }

  /** The size gate comes before the file is opened: a file that is empty
      or above 1 MiB is refused whatever else the environment would answer. */
  lemma SizeGateBeforeOpen(env: HostEnv, env': HostEnv, filename: string, memFd: int, shmLen: nat, ncores: int)
    requires env.stat(filename) == env'.stat(filename)
    requires FileSize(env, filename) == 0 || FileSize(env, filename) > Size1M
    ensures LoadFirmwareFile(env, filename, memFd, shmLen, ncores) == 0
    ensures LoadFirmwareFile(env', filename, memFd, shmLen, ncores) == 0
  {
  }

  // ---------------------------------------------------------------------
  // Loading a role's firmware into a protected buffer
  // ---------------------------------------------------------------------

  /** sedget_load_prot_firmware.  `role` and `out` are nothing when NULL.
      A missing argument or an unknown role returns NULL without anything
      allocated; otherwise the role's file is loaded into a new protected
      buffer, as LoadIntoNewBuffer describes. */
  method LoadProtFirmware(fds: FdTable, role: Option<string>, numCores: int, out: array?<byte>, outSize: nat,
                          env: HostEnv, ion: IonAnswer, mallocOk: bool)
    returns (buf: ProtBuf?)
    requires out != null ==> outSize <= out.Length
    requires ion.errno > 0
    requires ion.sharedFd.Some? ==> ion.sharedFd.value !in fds.open
    modifies fds, out
    ensures role.None? || out == null || outSize == 0 || FirmwareFor(role.value).None? ==>
      buf == null && unchanged(fds) && (out != null ==> unchanged(out))
    ensures buf != null <==>
      && role.Some? && out != null && outSize > 0 && FirmwareFor(role.value).Some?
      && SecureBufferFd(BufFirmware, ion) >= 0 && mallocOk
      && LoadFirmwareFile(env, FirmwareFor(role.value).value, SecureBufferFd(BufFirmware, ion), Size4M, numCores) != 0
    ensures buf == null ==> fds.open == old(fds.open)
    ensures buf != null ==>
      && role.Some? && FirmwareFor(role.value).Some?
      && fresh(buf) && IsProtBuf(buf) && !buf.released
      && buf.bufType == BufFirmware && buf.size == Size4M
      && fds.open == old(fds.open) + {buf.memFd}
      && LoadFirmwareFile(env, FirmwareFor(role.value).value, buf.memFd, Size4M, numCores) != 0
    ensures buf != null ==>
      && out != null && role.Some? && FirmwareFor(role.value).Some?
      && out[..outSize] == OutAfterLoad(LoadedDescriptor(env, FirmwareFor(role.value).value, buf.memFd, Size4M, numCores), outSize)
    ensures out != null ==> forall i :: outSize <= i < out.Length ==> out[i] == old(out[i])
  {
    if role.None? || out == null || outSize == 0 {
      return null;
    }
    var i := FindRole(role.value);
    if i == |FirmwareList| {
      return null;
    }
    var item := FirmwareList[i];
    assert FirmwareFor(role.value) == Some(item.filename);
    buf := LoadIntoNewBuffer(fds, item.filename, numCores, out, outSize, env, ion, mallocOk);
  }

  /** The rest of sedget_load_prot_firmware once the role's file is known.
      A failed allocation returns NULL without anything allocated; after
      the allocation, `out` is zeroed and the firmware loaded, and a failed
      load gives the protected buffer back before returning NULL.  Success
      returns the allocated firmware buffer, whose descriptor stays open,
      with the trusted application's secure descriptor in `out`. */
  method LoadIntoNewBuffer(fds: FdTable, filename: string, numCores: int, out: array<byte>, outSize: nat,
                           env: HostEnv, ion: IonAnswer, mallocOk: bool)
    returns (buf: ProtBuf?)
    requires outSize <= out.Length
    requires ion.errno > 0
    requires ion.sharedFd.Some? ==> ion.sharedFd.value !in fds.open
    modifies fds, out
    ensures buf != null <==>
      && SecureBufferFd(BufFirmware, ion) >= 0 && mallocOk
      && LoadFirmwareFile(env, filename, SecureBufferFd(BufFirmware, ion), Size4M, numCores) != 0
    ensures buf == null ==> fds.open == old(fds.open)
    ensures buf != null ==>
      && fresh(buf) && IsProtBuf(buf) && !buf.released
      && buf.bufType == BufFirmware && buf.size == Size4M
      && fds.open == old(fds.open) + {buf.memFd}
      && LoadFirmwareFile(env, filename, buf.memFd, Size4M, numCores) != 0
      && out[..outSize] == OutAfterLoad(LoadedDescriptor(env, filename, buf.memFd, Size4M, numCores), outSize)
    ensures forall i :: outSize <= i < out.Length ==> out[i] == old(out[i])
  {
    buf := AllocProtBuf(fds, Size4M, BufFirmware, ion, mallocOk);
    if buf == null {
      return null;
    }

    // A freshly allocated handle always holds a descriptor, so the lookup
    // below cannot fail.
    var memFd := GetMemFd(buf);

    forall k | 0 <= k < outSize {
      out[k] := 0;
    }

    if LoadFirmwareFile(env, filename, memFd, Size4M, numCores) == 0 {
      var _ := FreeProtBuf(fds, buf);
      return null;
    }

    var descriptor := LoadedDescriptor(env, filename, memFd, Size4M, numCores);
    WriteDescriptor(out, outSize, descriptor);
  }

  /** The successful load request writes the secure descriptor over the
      zeroed output buffer.  Nothing bounds it by `outSize`, so only what
      fits is kept here. */
  method WriteDescriptor(out: array<byte>, outSize: nat, descriptor: seq<byte>)
    requires outSize <= out.Length
    requires forall k :: 0 <= k < outSize ==> out[k] == 0
    modifies out
    ensures out[..outSize] == OutAfterLoad(descriptor, outSize)
    ensures forall i :: outSize <= i < out.Length ==> out[i] == old(out[i])
  {
    forall k | 0 <= k < outSize && k < |descriptor| {
      out[k] := descriptor[k];
    }
    assert out[..outSize] == OutAfterLoad(descriptor, outSize);
  }
}
