/** The host's broker of protected buffers: a handle object tagged with a
    magic word that records a protected buffer's size, type and the file
    descriptor that shares it, obtained from an ion heap chosen by the
    buffer's type.  The kernel side (the ion device and its ioctls) is
    answered by an environment value; the process's open descriptors are
    a table the calls change. */
module ProtectedMem {
  import opened MachineWords

  /** The buffer types, in enumeration order. */
  const BufInput: int := 0
  const BufIntermediate: int := 1
  const BufFirmware: int := 2

  /** The tag of a live handle: 'SGSM'. */
  const Magic: u32 := 0x5347_534D

  /** errno values. */
  const EAcces: int := 13
  const EInval: int := 22

  /** The first custom ion heap type of the Linux ion interface. */
  const IonHeapTypeCustom: nat := 5

  /** Heap identifiers of the three protected heaps. */
  const HeapIdMvePrivate: nat := IonHeapTypeCustom + 0
  const HeapIdMveProtected: nat := IonHeapTypeCustom + 1
  const HeapIdMultimediaProtected: nat := IonHeapTypeCustom + 2

  function Pow2(n: nat): (r: nat)
    ensures r >= 1
  {
    if n == 0 then 1 else 2 * Pow2(n - 1)
  }

  /** The heap mask a buffer type allocates from; no other type has one. */
  function HeapMask(t: int): (mask: Option<nat>)
    ensures mask.Some? <==> BufInput <= t <= BufFirmware
  {
    if t == BufInput then Some(Pow2(HeapIdMveProtected))
    else if t == BufIntermediate then Some(Pow2(HeapIdMultimediaProtected))
    else if t == BufFirmware then Some(Pow2(HeapIdMvePrivate))
    else None
  }

  /** Input buffers come from the MVE protected heap, intermediate ones from
      the multimedia protected heap and firmware from the MVE private heap:
      three different one-bit masks. */
  lemma HeapMasksDistinct(t1: int, t2: int)
    requires BufInput <= t1 <= BufFirmware && BufInput <= t2 <= BufFirmware && t1 != t2
    ensures HeapMask(t1).value != HeapMask(t2).value
  {
    assert Pow2(HeapIdMvePrivate) == 32;
    assert Pow2(HeapIdMveProtected) == 64;
    assert Pow2(HeapIdMultimediaProtected) == 128;
  }

  /** The open file descriptors of the process. */
  class FdTable {
    var open: set<int>

    constructor ()
      ensures open == {}
    {
      open := {};
    }

    /** close(2). */
    method Close(fd: int)
      modifies this
      ensures open == old(open) - {fd}
    {
      open := open - {fd};
    }
  }

  /** What the ion device answers: whether it opens, whether the
      allocation succeeds, the sharing descriptor it maps the buffer to, if
      any, and the (positive) errno left by the last failed call. */
  datatype IonAnswer = IonAnswer(deviceOpens: bool, allocates: bool, sharedFd: Option<nat>, errno: nat)

  /** The descriptor allocate_secure_buffer returns, or minus an errno. */
  function SecureBufferFd(t: int, ion: IonAnswer): (r: int)
    requires ion.errno > 0
    ensures r >= 0 <==> ion.deviceOpens && HeapMask(t).Some? && ion.allocates && ion.sharedFd.Some?
    ensures r >= 0 ==> r == ion.sharedFd.value
  {
    if !ion.deviceOpens then -EAcces
    else if HeapMask(t).None? || !ion.allocates || ion.sharedFd.None? then -(ion.errno as int)
    else ion.sharedFd.value
  }

  /** allocate_secure_buffer: opens the ion device, allocates `size` bytes
      from the type's heap, maps them to a sharing descriptor, drops the ion
      handle and closes the device; only the sharing descriptor stays open. */
  method AllocateSecureBuffer(fds: FdTable, size: nat, t: int, ion: IonAnswer) returns (memFd: int)
    requires ion.errno > 0
    requires ion.sharedFd.Some? ==> ion.sharedFd.value !in fds.open
    modifies fds
    ensures memFd == SecureBufferFd(t, ion)
    ensures fds.open == old(fds.open) + (if memFd >= 0 then {memFd} else {})
  {
    if !ion.deviceOpens {
      return -EAcces;
    }
    memFd := -1;
    var mask := HeapMask(t);
    if mask.Some? && ion.allocates {
      if ion.sharedFd.Some? {
        memFd := ion.sharedFd.value;
        fds.open := fds.open + {memFd};
      }
    }
    if memFd == -1 {
      memFd := -(ion.errno as int);
    }
  }

  /** The handle object. */
  class ProtBuf {
    var size: u32
    var magic: u32
    var bufType: int
    var memFd: int
    /** Set once the handle's memory has been given back. */
    ghost var released: bool

    /** fill_prot_buf on freshly allocated handle memory. */
    constructor (memSize: nat, t: int, memFd: int)
      ensures size == Wrap(memSize) && magic == Magic && bufType == t && this.memFd == memFd
      ensures !released
    {
      size := Wrap(memSize);
      magic := Magic;
      bufType := t;
      this.memFd := memFd;
      released := false;
    }
  }

  /** A handle the broker recognises: not NULL and tagged. */
  predicate IsProtBuf(buf: ProtBuf?)
    reads buf
  {
    buf != null && buf.magic == Magic
  }

  /** sedget_alloc_prot_buf: a type outside the enumeration yields NULL and
      allocates nothing; otherwise the protected buffer is allocated and, if
      the handle's memory can be had too, a tagged handle holding its
      descriptor is returned.  When the handle cannot be had, the fresh
      descriptor is closed again: a NULL answer leaves no descriptor open. */
  method AllocProtBuf(fds: FdTable, memSize: nat, t: int, ion: IonAnswer, mallocOk: bool)
    returns (buf: ProtBuf?)
    requires ion.errno > 0
    requires ion.sharedFd.Some? ==> ion.sharedFd.value !in fds.open
    modifies fds
    ensures !(BufInput <= t <= BufFirmware) ==> buf == null
    ensures buf != null <==> SecureBufferFd(t, ion) >= 0 && mallocOk
    ensures buf != null ==>
      && fresh(buf) && IsProtBuf(buf) && !buf.released
      && buf.size == Wrap(memSize) && buf.bufType == t
      && buf.memFd == ion.sharedFd.value && buf.memFd >= 0
      && fds.open == old(fds.open) + {buf.memFd}
    ensures buf == null ==> fds.open == old(fds.open)
  {
    if t < BufInput || t > BufFirmware {
      return null;
    }
    buf := null;
    var memFd := AllocateSecureBuffer(fds, memSize, t, ion);
    if memFd >= 0 {
      if mallocOk {
        buf := new ProtBuf(memSize, t, memFd);
      } else {
        fds.Close(memFd);
      }
    }
  }

  /** sedget_free_prot_buf: anything but a tagged handle is refused with
      -EINVAL and nothing changes; a handle's descriptor, if it has one, is
      closed and cleared, the handle is released and 0 is returned. */
  method FreeProtBuf(fds: FdTable, buf: ProtBuf?) returns (rc: int)
    requires buf != null ==> !buf.released
    modifies fds, buf
    ensures !old(IsProtBuf(buf)) ==> rc == -EInval && unchanged(fds) && (buf != null ==> unchanged(buf))
    ensures old(IsProtBuf(buf)) ==>
      && rc == 0
      && buf.released && buf.memFd == (if old(buf.memFd) >= 0 then -1 else old(buf.memFd))
      && buf.size == old(buf.size) && buf.magic == old(buf.magic) && buf.bufType == old(buf.bufType)
      && fds.open == old(fds.open) - (if old(buf.memFd) >= 0 then {old(buf.memFd)} else {})
  {
    if buf == null || buf.magic != Magic {
      return -EInval;
    }
    if buf.memFd >= 0 {
      fds.Close(buf.memFd);
      buf.memFd := -1;
    }
    buf.released := true;
    rc := 0;
  }

  /** sedget_get_mem_fd: a tagged handle's descriptor, -EINVAL for anything
      else. */
  method GetMemFd(buf: ProtBuf?) returns (fd: int)
    requires buf != null ==> !buf.released
    ensures IsProtBuf(buf) ==> fd == buf.memFd
    ensures !IsProtBuf(buf) ==> fd == -EInval
  {
    if buf == null || buf.magic != Magic {
      return -EInval;
    }
    return buf.memFd;
  }
}
