# Secure video firmware loader (sedget) — a Dafny model

This project models the core of a secure firmware loader for the Arm MVE video engine. It has two sides.

On the secure side, a trusted application accepts a load request. It admits the request only after an ordered series of checks. These are:

1. the parameter types;
2. the buffer size;
3. three memory access-rights checks;
4. the physical address of the secure buffer.

After admission it does the following:

- splits the secure buffer into an image part and one page of MMU tables per core;
- zero-fills the buffer;
- decrypts the firmware into the image part;
- checks the image's signature: the last 32 bytes must begin with the SHA-1 digest of the rest.

It then builds the MMU tables and fills in the descriptor. Each core gets one second-level page table, which maps:

- the firmware text;
- the shared BSS pages, one pool common to all cores;
- the private BSS pages, a fresh run for each core.

The descriptor receives the firmware's protocol version and the tables' physical address.

On the host side, the model covers:

- a fixed table from codec roles to encrypted firmware files;
- the lookup of a role in that table;
- reading a firmware file under a 1 MiB limit and handing it to the trusted application;
- a broker of protected-buffer handles, each tagged with a magic word.

A failed load gives the protected buffer back.

Modules:

- `MachineWords` (`machine_words.dfy`): bytes, 32-bit words with C wrap-around, and little-endian words.
- `MveFwLayout` (`mve_fw_layout.dfy`): the firmware header, the entry encodings, the page geometry and the secure descriptor.
- `MveFwMmu` (`mve_fw_mmu.dfy`): the page-table builder.
- `VideoTa` (`video_ta.dfy`): the trusted application's command.
- `ProtectedMem` (`protected_mem.dfy`): the protected-buffer broker.
- `HostFirmware` (`mve_fw.dfy`): the host's role lookup and load pipeline.

Several things outside this code are answered by environment values:

- the TEE services (access rights, the physical-address helper, AES, SHA-1);
- the ion device;
- the file system;
- the trusted-application call: its status and the secure descriptor it writes back.

Each such value is a datatype with function fields. So a property proved holds for every answer the environment can give, within the stated preconditions on those answers. Those preconditions are:

- a plaintext that decrypts and fits has at least the 32 signature bytes;
- a plaintext that also passes the signature check carries a header the table builder can follow;
- errno after a failed ion call is positive;
- the descriptor the ion device hands out is not already open.

The process's open file descriptors are a table that the calls change.

The table region of the secure buffer is an array of 32-bit entries. Core `c`'s table is the page of 1024 entries that starts at entry `c * 1024`. The table builder is specified by ghost functions:

- `Written` says what `write_pages` leaves;
- `CoreTable` says what one core's pass leaves;
- `Tables` says what the whole build leaves.

Every slot's final content is `SlotAfter`. It depends on `MappingAt`, which gives, for each slot, the page it maps and the access it grants.

## Model

| member | source | states |
|---|---|---|
| MachineWords.Le32RoundTrip | ta/arm/mve/mve_fw_mmu.c:48 | a header word stored little-endian reads back as the same word |
| MachineWords.Le32BytesRoundTrip | ta/arm/mve/mve_fw_mmu.c:48 | four bytes read as a word and stored again are the same four bytes |
| MveFwLayout.PageGeometry | ta/arm/mve/mve_fw_mmu.h:75-79 | a page is `1 << 12` = 4096 bytes and holds 4096 / 4 = 1024 entries |
| MveFwLayout.EntryMasksPartitionWord | ta/arm/mve/mve_fw_mmu.h:100-105 | the attribute, page-number and access masks are pairwise disjoint, together cover all 32 bits, and each is a run of ones from its field's shift |
| MveFwLayout.AttribCode | ta/arm/mve/mve_fw_mmu.h:82-88 | every attribute's value is below 4, so it fits its 2-bit field, and decodes back to that attribute |
| MveFwLayout.AccessCode | ta/arm/mve/mve_fw_mmu.h:90-96 | every access right's value is below 4 and decodes back to that right |
| MveFwLayout.ParseHeader | ta/arm/mve/mve_fw_mmu.h:11-59 | the header read from 180 bytes has arrays of the declared lengths; protocol_minor is byte 4 and protocol_major byte 5 |
| MveFwLayout.EncodeHeader | ta/arm/mve/mve_fw_mmu.h:11-59 | a header's byte image is exactly 180 bytes: no padding |
| MveFwLayout.EncodeHeaderOffsets | ta/arm/mve/mve_fw_mmu.h:11-59 | each field sits at its offset: rasc_jmp 0, minor 4, major 5, text_length 96, bss_start_address 100, bss_bitmap_size 104, bitmap 108, master_rw_start 172, master_rw_size 176 |
| MveFwLayout.ParseEncodeHeader | ta/arm/mve/mve_fw_mmu.h:11-59 | parsing a header's byte image gives back the header |
| MveFwLayout.BitmapIndexSplit | ta/arm/mve/mve_fw_mmu.c:63-64 | for a position below 512, `j >> 5` is the word `j / 32` (one of the 16 words) and `j & 0x1f` is the bit `j % 32` |
| MveFwLayout.BitmapBit | ta/arm/mve/mve_fw_mmu.c:73 | defines bitmap position j as bit j % 32 of word j / 32 |
| MveFwLayout.SecureDescriptor.constructor | ta/arm/mve/mve_fw_mmu.h:61-71 | the descriptor holds major, minor and the tables' 32-bit physical address |
| MveFwMmu.MakeEntry | ta/arm/mve/mve_fw_mmu.c:15-22 | defines an entry as the attribute in bits 30-31, the page number paddr / 4096 from bit 2 and the access in bits 0-1 |
| MveFwMmu.MakeEntryDecodes | ta/arm/mve/mve_fw_mmu.c:15-22 | decoding an entry gives back its attribute (bits 30-31), its access (bits 0-1) and its physical page (bits 2-29) |
| MveFwMmu.MakeEntryRoundTrip | ta/arm/mve/mve_fw_mmu.c:15-22 | for a page-aligned address, decoding recovers the attribute, the access and the address exactly |
| MveFwMmu.NumPages | ta/arm/mve/mve_fw_mmu.c:52 | the image's page count is the ceiling of fw_size / 4096 |
| MveFwMmu.NumTextPages | ta/arm/mve/mve_fw_mmu.c:54 | defines the text page count as (text_length + 4095) / 4096, the sum taken in 32 bits |
| MveFwMmu.NumTextPagesIsCeiling | ta/arm/mve/mve_fw_mmu.c:54 | below the last page of the address space, the text page count is the ceiling of text_length / 4096 |
| MveFwMmu.NumTextPagesWrapsToZero | ta/arm/mve/mve_fw_mmu.c:54 | within the last page, the 32-bit rounding sum wraps and the count is 0 |
| MveFwMmu.BssPageAddress | ta/arm/mve/mve_fw_mmu.c:56-65 | defines position j's virtual address as ((bss_start_address >> 12) + j) << 12, in 32 bits |
| MveFwMmu.InMasterRw | ta/arm/mve/mve_fw_mmu.c:67-68 | defines the master window test, its end computed as a 32-bit sum |
| MveFwMmu.Classify | ta/arm/mve/mve_fw_mmu.c:67-76 | defines a position as shared inside the master window, private when its bit is set, skipped otherwise |
| MveFwMmu.Kinds | ta/arm/mve/mve_fw_mmu.c:61-78 | defines the kinds of the bss_bitmap_size positions, in order; there are exactly bss_bitmap_size of them |
| MveFwMmu.KindsAt | ta/arm/mve/mve_fw_mmu.c:61-78 | position j is shared when its page address lies in the master window, whatever its bit; otherwise it is private when its bit is set and skipped when it is not |
| MveFwMmu.CountPartition | ta/arm/mve/mve_fw_mmu.c:67-76 | every position is counted as exactly one of shared, private or skipped |
| MveFwMmu.CountRankBelow | ta/arm/mve/mve_fw_mmu.c:71-75 | a position's rank among the positions of its kind is below the number of such positions counted up to any later point |
| MveFwMmu.SharedCountIgnoresBitmap | ta/arm/mve/mve_fw_mmu.c:67-72 | headers that differ only in bitmap words have the same shared count |
| MveFwMmu.CountBssPages | ta/arm/mve/mve_fw_mmu.c:56-78 | the dry run's two counters are the numbers of shared and private positions, together at most bss_bitmap_size |
| MveFwMmu.Layout | ta/arm/mve/mve_fw_mmu.c:80-82 | defines the text start, the shared pool base, the private pool base and the two counts from the header and fw_phys |
| MveFwMmu.LayoutPools | ta/arm/mve/mve_fw_mmu.c:80-82 | the text maps from fw_phys, the shared pool starts num_pages pages later and the private pool num_shared_pages after that |
| MveFwMmu.PoolBasesIgnoreBitmap | ta/arm/mve/mve_fw_mmu.c:80-82 | both pool bases are the same whatever the bitmap bits: num_bss_pages is never used for placement |
| MveFwMmu.MappingAt | ta/arm/mve/mve_fw_mmu.c:84-117 | defines what each slot of a core's table maps: nothing for slot 0 and skipped positions; the text page, the shared page of its rank, or the page of its rank in the core's run otherwise |
| MveFwMmu.SlotAfter | ta/arm/mve/mve_fw_mmu.c:84-117 | defines a slot's final entry: its mapping with the private attribute, or its earlier value |
| MveFwMmu.SharedSlotMapping | ta/arm/mve/mve_fw_mmu.c:96-102 | definitional helper: reads back the shared case of the per-slot mapping; the property of the built tables is `MveFwMmu.BuiltSharedSlot` |
| MveFwMmu.PrivateSlotMapping | ta/arm/mve/mve_fw_mmu.c:103-109 | definitional helper: reads back the private case of the per-slot mapping; the property of the built tables is `MveFwMmu.BuiltPrivateSlot` |
| MveFwMmu.SkippedSlotMapping | ta/arm/mve/mve_fw_mmu.c:110-116 | definitional helper: reads back the skipped case of the per-slot mapping; the property of the built tables is `MveFwMmu.BuiltSkippedSlot` |
| MveFwMmu.NonPrivateSlotsAgreeAcrossCores | ta/arm/mve/mve_fw_mmu.c:84-102 | definitional helper: the per-slot mapping of a slot that is not private does not depend on the core; the property of the built tables is `MveFwMmu.BuiltNonPrivateSlotsAgree` |
| MveFwMmu.BuiltSharedSlot | ta/arm/mve/mve_fw_mmu.c:96-102 | in the built tables, a shared position's slot holds, on every core, the read-write entry for the shared page of its rank |
| MveFwMmu.BuiltPrivateSlot | ta/arm/mve/mve_fw_mmu.c:103-109 | in the built tables, a private position's slot of core c holds the read-write entry for the page of its rank in core c's run |
| MveFwMmu.BuiltSkippedSlot | ta/arm/mve/mve_fw_mmu.c:110-116 | in the built tables, a skipped position's slot keeps its earlier value |
| MveFwMmu.BuiltNonPrivateSlotsAgree | ta/arm/mve/mve_fw_mmu.c:84-102 | in the built tables, every slot that is not private holds the same entry on all cores whose tables started equal there |
| MveFwMmu.DistinctPositionsDistinctPages | ta/arm/mve/mve_fw_mmu.c:89-117 | within one core, two positions of the same non-skipped kind map different pages |
| MveFwMmu.SharedPositionsDiffer | ta/arm/mve/mve_fw_mmu.c:96-102 | within one core, two shared positions map different shared pages |
| MveFwMmu.PrivatePositionsDiffer | ta/arm/mve/mve_fw_mmu.c:103-109 | within one core, two private positions map different private pages |
| MveFwMmu.PrivatePagesDisjointAcrossCores | ta/arm/mve/mve_fw_mmu.c:82-109 | private pages of two different cores never coincide |
| MveFwMmu.RunBaseNext | ta/arm/mve/mve_fw_mmu.c:82-109 | the next core's private run starts where this core's cursor stops: the private cursor is never reset |
| MveFwMmu.RunsOfDifferentCoresGetDifferentPages | ta/arm/mve/mve_fw_mmu.c:82-109 | page k1 of core c1's run and page k2 of core c2's run are different addresses when c1 differs from c2 |
| MveFwMmu.RunsOfDifferentCoresDiffer | ta/arm/mve/mve_fw_mmu.c:82-109 | the page numbers of two different cores' runs differ, and both lie inside the pool of ncores runs |
| MveFwMmu.RunEndBelow | ta/arm/mve/mve_fw_mmu.c:84-109 | a core's run ends no later than any later core's run begins |
| MveFwMmu.RunStartIsProduct | ta/arm/mve/mve_fw_mmu.c:82-109 | core i's first private page is page i * B of the private pool, B being the private pages per core |
| MveFwMmu.PageFromInjective | ta/arm/mve/mve_fw_mmu.c:101-108 | distinct page numbers below 2^20 give distinct 32-bit addresses |
| MveFwMmu.PageFromAdd | ta/arm/mve/mve_fw_mmu.c:81-82 | counting n pages on from page m reaches page m + n, in 32 bits |
| MveFwMmu.PageFromNext | ta/arm/mve/mve_fw_mmu.c:101-108 | advancing a cursor by 4096 moves it to the next page |
| MveFwMmu.Written | ta/arm/mve/mve_fw_mmu.c:24-37 | defines the region after n consecutive private entries are stored from a slot on |
| MveFwMmu.CoreTable | ta/arm/mve/mve_fw_mmu.c:84-117 | defines the region after the first m slots of one core's table are set to their SlotAfter values |
| MveFwMmu.Tables | ta/arm/mve/mve_fw_mmu.c:84-118 | defines the region after the tables of cores 0 .. n-1 are written in turn, each with its own private run |
| MveFwMmu.WrittenAt | ta/arm/mve/mve_fw_mmu.c:31-35 | the n entries from the start slot map consecutive pages, with private attribute; every other entry is unchanged |
| MveFwMmu.WritePages | ta/arm/mve/mve_fw_mmu.c:24-37 | writes num_pages private entries (executable, or read-write for BSS), the k-th mapping paddr + k*4096; returns the slot after them and changes nothing else |
| MveFwMmu.CoreTableAt | ta/arm/mve/mve_fw_mmu.c:84-117 | after a pass over m slots, each of those slots holds its final value; every other entry is unchanged |
| MveFwMmu.CoreTableStep | ta/arm/mve/mve_fw_mmu.c:89-117 | one more slot of a pass updates exactly that slot |
| MveFwMmu.CoreTableBeyond | ta/arm/mve/mve_fw_mmu.c:89-117 | slots past the last bitmap position are never written |
| MveFwMmu.TextIsCoreTable | ta/arm/mve/mve_fw_mmu.c:87-88 | slot 0 stays blank and slots 1..num_text_pages map the image from fw_phys, executable |
| MveFwMmu.WritePosition | ta/arm/mve/mve_fw_mmu.c:89-117 | one position writes its slot as its kind says; only the cursor that was used advances |
| MveFwMmu.WritePositions | ta/arm/mve/mve_fw_mmu.c:89-117 | position j always maps slot 1 + num_text_pages + j; after the loop the private cursor has moved by the private count |
| MveFwMmu.WriteCoreTable | ta/arm/mve/mve_fw_mmu.c:84-117 | one core's pass leaves the core's whole table as CoreTable says; the private cursor ends B pages further on |
| MveFwMmu.TablesAt | ta/arm/mve/mve_fw_mmu.c:84-118 | after the build, slot s of core c holds its SlotAfter value for core c's private run |
| MveFwMmu.TablesUnchangedAbove | ta/arm/mve/mve_fw_mmu.c:84-118 | the build leaves every entry past the last core's table unchanged |
| MveFwMmu.FillL2Pages | ta/arm/mve/mve_fw_mmu.c:39-119 | copies major and minor from the header, leaves l2pages alone, and writes the tables of ncores cores as Tables says |
| VideoTa.ParamTypes | ta/optee/sedget_video_ta.c:188-191 | four parameter types pack into a word below 2^16 |
| VideoTa.ParamTypesRoundTrip | ta/optee/sedget_video_ta.c:188-191 | each parameter's type reads back from the packed word |
| VideoTa.LoadFwTypesValue | ta/optee/sedget_video_ta.c:188-191 | the accepted types (memref in, memref out, memref out, value in) pack to 0x1665 |
| VideoTa.Admit | ta/optee/sedget_video_ta.c:188-241 | a rejection never carries the success code |
| VideoTa.AdmissionChecks | ta/optee/sedget_video_ta.c:188-241 | the six checks in order; the first passes exactly for the load types, the last exactly for a non-NULL physical address |
| VideoTa.FirstFailure | ta/optee/sedget_video_ta.c:188-241 | returns the first code of a list that is not success, or nothing when all pass |
| VideoTa.AdmitIsFirstFailure | ta/optee/sedget_video_ta.c:188-241 | admission returns the first failing check's code unchanged, in the order types, size, input read, secure write, descriptor read, NULL address; it admits with the physical address when all pass |
| VideoTa.BadTypesRejectedFirst | ta/optee/sedget_video_ta.c:188-194 | wrong parameter types give BAD_PARAMETERS whatever the buffers and the environment |
| VideoTa.ShortBufferBeforeAccessChecks | ta/optee/sedget_video_ta.c:196-198 | a secure buffer shorter than the input plus one page gives SHORT_BUFFER before any access check |
| VideoTa.SizeTooShort | ta/optee/sedget_video_ta.c:196-198 | defines the size check: the secure size is below the input size plus one page, the sum in 32 bits |
| VideoTa.SizeCheckIgnoresCores | ta/optee/sedget_video_ta.c:196-198 | the size check reserves one page whatever ncores is: two cores pass it with room for one table page |
| VideoTa.SizeCheckWraps | ta/optee/sedget_video_ta.c:196-198 | the check's 32-bit sum wraps for an input within a page of 4 GiB |
| VideoTa.DecryptFirmware | ta/optee/sedget_video_ta.c:25-78 | success exactly when the decryption succeeds and its plaintext fits the capacity; a failure carries a non-success code |
| VideoTa.VerifySignature | ta/optee/sedget_video_ta.c:80-119 | success exactly when the digest can be set up, the digest of bytes [0, len-32) is taken and the 32-byte field at len-32 begins with it |
| VideoTa.TamperedSignatureRejected | ta/optee/sedget_video_ta.c:106-111 | changing a compared signature byte of an accepted image gives CORRUPT_OBJECT |
| VideoTa.UncomparedSignatureBytesIgnored | ta/optee/sedget_video_ta.c:99-111 | signature bytes past the digest's length (12 of 32 for SHA-1) do not affect the verdict |
| VideoTa.AppendedDigestAccepted | ta/optee/sedget_video_ta.c:80-119 | a payload followed by its digest and padding to 32 bytes is accepted |
| VideoTa.SignatureFits | ta/optee/sedget_video_ta.c:99-100 | the assumption that a plaintext that decrypts and fits is at least 32 bytes, so that `chunkLen - 32` does not wrap |
| VideoTa.SignedImageBuildable | ta/arm/mve/mve_fw_mmu.c:61-117 | the assumption that a plaintext that decrypts, fits and is signed carries a header whose bitmap and tables fit their arrays; unsigned plaintexts are unconstrained |
| VideoTa.DecryptVideoFirmware | ta/optee/sedget_video_ta.c:121-139 | a plaintext is returned exactly when its decryption succeeded within the capacity and its signature field begins with its payload's digest; otherwise the decryption's or the check's error code |
| VideoTa.Capacity | ta/optee/sedget_video_ta.c:257 | defines the image part's length: the secure size less one page per core, in 32 bits |
| VideoTa.LoadStatus | ta/optee/sedget_video_ta.c:174-279 | defines the load's return code: the admission's rejection, else the decryption's or the signature check's code, else success |
| VideoTa.LoadSucceedsOnlyForSignedImages | ta/optee/sedget_video_ta.c:174-279 | admission holds exactly when all six checks pass; the load succeeds exactly when admission holds, the plaintext fits the image part, and its signature field begins with the digest of the rest, for every plaintext, buildable header or not |
| VideoTa.ImageAfterDecrypt | ta/optee/sedget_video_ta.c:261-272 | the image part holds the plaintext followed by zeros |
| VideoTa.LoadedAs | ta/optee/sedget_video_ta.c:256-279 | defines the state an admitted load leaves: the zeroed image part, with the plaintext over it once decrypted; zero tables and the old l2pages unless signed; otherwise the built tables, the header's version and l2pages = fw_phys + len |
| VideoTa.LoadFirmware | ta/optee/sedget_video_ta.c:174-302 | returns the load status; a rejection writes nothing; any failure leaves the descriptor's version bytes as they were; otherwise the state is LoadedAs: zero-filled, decrypted into, and only for a signed image the tables built and the descriptor filled |
| VideoTa.LoadAdmitted | ta/optee/sedget_video_ta.c:243-279 | after admission: zero-fill, decrypt, verify, then build the tables and set l2pages to fw_phys + capacity; any failure leaves the descriptor untouched |
| VideoTa.SignedPlaintextBuildable | ta/optee/sedget_video_ta.c:265-277 | a plaintext that decrypts within the capacity and passes the signature check is DecryptVideoFirmware's result and holds a header the builder can follow |
| VideoTa.BuildSignedTables | ta/optee/sedget_video_ta.c:274-279 | for a signed image: the descriptor gets the header's version, the tables are built and l2pages points after the image part, as LoadedAs says |
| VideoTa.InvokeCommand | ta/optee/sedget_video_ta.c:328-340 | command 0 runs the load, with its return code and LoadFirmware's state guarantees (nothing written on rejection, LoadedAs on admission, version untouched on failure); any other command gives BAD_PARAMETERS and touches nothing |
| ProtectedMem.HeapMask | host/src/memory/protected_mem.c:50-63 | a heap mask exists exactly for the three buffer types |
| ProtectedMem.HeapMasksDistinct | host/src/memory/ion_ext.h:23-30 | INPUT, INTERMEDIATE and FIRMWARE use three different heap masks |
| ProtectedMem.FdTable.Close | host/src/memory/protected_mem.c:121 | close(2) removes exactly that descriptor from the open ones |
| ProtectedMem.SecureBufferFd | host/src/memory/protected_mem.c:34-90 | the result is a descriptor exactly when the device opens, the type has a heap, and the allocation and mapping succeed; otherwise it is -EACCES or -errno |
| ProtectedMem.AllocateSecureBuffer | host/src/memory/protected_mem.c:34-90 | returns SecureBufferFd's answer and leaves only the mapped descriptor newly open |
| ProtectedMem.ProtBuf.constructor | host/src/memory/protected_mem.c:92-101 | a filled handle holds the size (as a 32-bit field), the magic 'SGSM', the type and the descriptor |
| ProtectedMem.IsProtBuf | host/src/memory/protected_mem.c:129 | defines a handle the broker accepts: not NULL and tagged with the magic |
| ProtectedMem.AllocProtBuf | host/src/memory/protected_mem.c:103-125 | an out-of-range type gives NULL; a handle is returned exactly when the buffer and the handle memory are both obtained, tagged and holding a non-negative descriptor; NULL leaves no descriptor open |
| ProtectedMem.FreeProtBuf | host/src/memory/protected_mem.c:127-142 | NULL or an untagged object gives -EINVAL and changes nothing; otherwise the descriptor is closed and set to -1, the handle is released and 0 is returned |
| ProtectedMem.GetMemFd | host/src/memory/protected_mem.c:144-152 | a tagged handle's descriptor, -EINVAL for anything else, with no state change |
| HostFirmware.RoleIndex | host/src/arm/mve_fw.c:126-134 | the index of the first exact match, or the table length when none matches |
| HostFirmware.FirmwareFor | host/src/arm/mve_fw.c:126-136 | a file is found exactly when some table role equals the argument |
| HostFirmware.FindRole | host/src/arm/mve_fw.c:126-134 | the scan loop stops at RoleIndex |
| HostFirmware.FirstMatchIsRoleIndex | host/src/arm/mve_fw.c:126-134 | an index that is the first match, or the length when nothing matches, is RoleIndex |
| HostFirmware.AvcAndH264ShareFirmware | host/src/arm/mve_fw.c:33-50 | video_decoder.avc and video_decoder.h264 both load /lib/firmware/h264dec.efwb |
| HostFirmware.Mpeg4DecoderFirmware | host/src/arm/mve_fw.c:33-50 | video_decoder.mpeg4 loads /lib/firmware/mpeg4dec.efwb |
| HostFirmware.H263DecoderFirmware | host/src/arm/mve_fw.c:33-50 | video_decoder.h263 loads /lib/firmware/mpeg4dec.efwb |
| HostFirmware.FileSize | host/src/arm/mve_fw.c:52-60 | defines the file size as stat's answer, or 0 when stat fails |
| HostFirmware.LoadFirmwareFile | host/src/arm/mve_fw.c:62-108 | nonzero only when the file size is in (0, 1 MiB] and every later step succeeds, and then equal to that size |
| HostFirmware.SizeGateBeforeOpen | host/src/arm/mve_fw.c:71-75 | an empty file, or one over 1 MiB, gives 0 whatever the other file-system answers |
| HostFirmware.LoadProtFirmware | host/src/arm/mve_fw.c:111-165 | a handle is returned exactly when the role, `out` and a nonzero `out_size` are given, the role is known, the ion allocation and malloc succeed and the firmware file loads; a missing argument or an unknown role gives NULL with nothing allocated; NULL always leaves the open descriptors as they were; success returns a fresh, tagged 4 MiB firmware handle once the file is loaded, and the first `out_size` bytes of `out` then hold the secure descriptor the trusted application returned, cut at `out_size`, with zeros after it; bytes past `out_size` are untouched |
| HostFirmware.LoadIntoNewBuffer | host/src/arm/mve_fw.c:141-165 | a handle is returned exactly when the ion allocation and malloc succeed and the file loads through the new descriptor; a failed allocation or load leaves the open descriptors as they were; success returns a fresh, tagged 4 MiB firmware handle whose descriptor is now open, the file loaded through it, and `out` holding the returned descriptor over zeros up to `out_size`, untouched beyond |
| HostFirmware.WriteDescriptor | ta/optee/sedget_video_ta.c:274-279 | over a zeroed output buffer, the descriptor write leaves exactly `OutAfterLoad` in the first `out_size` bytes and nothing else changed |
| HostFirmware.OutAfterLoad | host/src/arm/mve_fw.c:150-153 | the output buffer after a load is `out_size` bytes long, starts with the descriptor (or its first `out_size` bytes), and is zero past the descriptor |

## Left out

- AES-128-ECB decryption (FIPS 197) and the SHA-1 digest (FIPS 180-4) are environment functions. The block-multiple length check happens inside the TEE.
- The GlobalPlatform TEE services are also environment values: TEE_CheckMemoryAccessRights and the secure-data-path helper. The helper's session handling is not modelled, including the unset value it returns when its session cannot be opened.
- The model is of a build without CFG_CACHE_API, so the cache calls (TEE_CacheInvalidate, TEE_CacheFlush) are left out along with their error returns. With that option, a failing invalidate returns its code before the zero-fill. A failing flush returns its code after the tables and the descriptor have been written.
- Logging is left out.
- The trusted application's create, open-session, close-session and destroy entry points do nothing and are left out.
- host/src/optee/tee_service.c is not part of this model. The host's call into the trusted application is two environment functions: `teeLoad` gives its status and `teeDescriptor` the secure descriptor it writes back into `out`. The TEE client library's copying of the output buffer is not modelled: the model keeps the host's zeros past the descriptor.
- The secure buffer is modelled as two arrays: the image bytes and the table entries. That they are adjacent in one buffer is not modelled, and neither is the entries' little-endian byte layout.
- VideoTa.LoadFirmware: requires `ncores * 4096 <= sec.size` once admitted, which the code never checks. `SizeCheckIgnoresCores` shows that the size check does not imply it.
- VideoTa.LoadFirmware: once admitted, requires `SignedImageBuildable`, which the code does not check. A plaintext that decrypts, fits and passes the signature check must hold a 180-byte header with `bss_bitmap_size <= 512`, and each core's table must fit its page. Plaintexts that fail decryption or the signature are not constrained.
- VideoTa.DecryptVideoFirmware: requires `SignatureFits`: a plaintext that decrypts and fits is at least 32 bytes. For a shorter one the code's digest length `chunkLen - 32` wraps around, and the digest then reads outside the buffer. That behaviour is not modelled.
- VideoTa.LoadFirmware: the descriptor buffer is checked for read access only, although the load writes to it. The model follows the code.
- VideoTa.LoadFirmware: memref sizes are 32-bit fields, so the size check's sum wraps. A build with 64-bit sizes would not wrap.
- MveFwMmu.FillL2Pages: requires `bss_bitmap_size <= 512` and `1 + num_text_pages + bss_bitmap_size <= 1024`, which the code does not check.
- MveFwMmu.FillL2Pages: `fw_size` is taken as unbounded, so its rounding sum does not wrap.
- MveFwMmu.MakeEntryDecodes: entries are built as the sum of their three fields, not with shifts and masks. That the masks are disjoint is what makes the sum equal to the bitwise OR. The bitwise form is not stated.
- MveFwMmu.DistinctPositionsDistinctPages: requires the private pool to fit below 2^20 pages. Beyond that, 32-bit addresses wrap and pages can coincide.
- MveFwMmu.PrivatePagesDisjointAcrossCores: requires the same 2^20-page bound, for the same reason.
- ProtectedMem: the ion device and its ioctls are the `IonAnswer` environment value. ION_HEAP_TYPE_CUSTOM is taken as 5 from the Linux ion interface header, which is not part of this model.
- ProtectedMem.SecureBufferFd: errno after a failed call is taken to be positive.
- ProtectedMem.FreeProtBuf: releasing the handle's memory is a ghost `released` flag. Passing a released handle again is excluded by the preconditions.
- HostFirmware.LoadFirmwareFile: stat, fopen, malloc and fread are environment answers. Freeing the read buffer and closing the file are not modelled.
- HostFirmware.LoadProtFirmware: `out_size` is never compared with the descriptor's size. The header documents an out-of-memory error when `out_size` is too small (host/include/sedget_video.h:52-53), but the code rejects only 0 (host/src/arm/mve_fw.c:121), and the trusted application checks only read access to that buffer (ta/optee/sedget_video_ta.c:228-232). So a descriptor longer than `out_size` is written past the `out_size`-byte buffer the trusted application was given. The model keeps only its first `out_size` bytes and does not raise the documented error.
- HostFirmware.LoadProtFirmware: on a failed load the model says nothing about `out`. The trusted application may already have written part of the descriptor there.
- HostFirmware.LoadProtFirmware: the failure branch after sedget_get_mem_fd cannot be taken, because a fresh handle always holds a non-negative descriptor. That branch is not modelled.
