# Nanvix microkernel resource tables in Dafny

This project models the resource tables of the Nanvix microkernel and
proves what their operations do. Each table is a fixed array of slots that
a few kernel operations update in place, returning precise error codes.

- **Active channels** (`ActiveChannels`, `active.dfy`). These are hardware
  mailbox or portal endpoints.
  - Each channel has a pool of ports, a reference count, a busy flag and a
    read-only or write-only direction.
  - A logical address packs a channel and a port into one integer.
  - Asynchronous reads and writes bind a message buffer to a port and make
    the channel busy. A wait gives the buffer back and makes the channel
    idle again.
  - Buffers come from a pool, which also keeps messages delivered to a
    local port before anyone asked for them.
  - The table invariant `ActivePool.Valid` holds across every operation:
    - a channel's reference count equals its number of used ports;
    - every buffer bound to a port is taken, is not kept, and belongs to
      that port alone.
- **Synchronization points** (`Sync`, `sync.dfy`). A node list is reduced
  to a 64-bit footprint. Identical create or open requests share one slot
  and count references. A release frees the slot only when the count
  reaches zero.
- **Keyed semaphores** (`Semaphores`, `semaphore.dfy`), and the two kernel
  calls over them, semget and semctl (`SemCalls`, `semcalls.dfy`).
  - Each slot has a key, an owner and a bounded list of user processes.
  - A separate class models the counting down/up primitive.
- **Thread-specific data** (`ThreadKeys`, `key.dfy`): keys with
  destructors, and (key, thread, value) slots.
- **ACPI table lookup** (`Acpi`, `acpi.dfy`), over a byte image of memory:
  - the byte-sum checksum of sections 5.2.5.3 and 5.2.6 of the ACPI
    Specification;
  - the signature scan of the RSDT (section 5.2.7), which finds the MADT
    (section 5.2.12);
  - the validation sequence of `acpi_info_parse`.
- **`__memset`** (`Memset`, `memset.dfy`).

Shared pieces live in `slots.dfy` and `errno.dfy`:

- the per-slot flags of the resource pool;
- `FirstIndex`, the "lowest index that satisfies a condition" search that
  every table scan performs;
- `CountWhere`, which counts the elements that satisfy a condition;
- bytes;
- the error numbers and the `COMM_STATUS_*` codes.

How the model represents the source:

- Every C table becomes a class holding a `const` array of slot datatypes.
- Methods state the whole new table as `old(tab[..])` with one slot
  replaced.
- Read-only scans are proved equal to `FirstIndex`.
- Collaborators the source calls but that are not part of this model become
  parameters holding the value they return:
  - the `do_*` hardware hooks;
  - the `sync_*` primitives;
  - `process_get_curr` (the `pid` argument);
  - the hardware's write into a read buffer (`arrived`).

## Model

| member | source | states |
|---|---|---|
| Memset.ToUnsignedChar | src/libcore/memset.c:15-18 | the byte stored is congruent to `c` modulo 256, and equals `c` for 0..255 |
| Memset.Memset | src/libcore/memset.c:13-22 | bytes [0, n) hold `c` as unsigned char, bytes from n on are unchanged, the result is `s` |
| Acpi.DoChecksum | src/kernel/hal/arch/acpi.c:29-38 | true iff the bytes of the region add up to 0 modulo 256; a zero-length region is valid |
| Acpi.ChecksumByteMakesValid | src/kernel/hal/arch/acpi.c:29-38 | a property of the checksum rule that `do_checksum` checks, not of code in the source (which never computes a checksum): some value of the checksum byte always makes a table pass |
| Acpi.StrnEqualWithoutNul | src/kernel/hal/arch/acpi.c:68 | for a signature without NUL bytes, the bounded string comparison is plain equality of the first n bytes |
| Acpi.EntryCount | src/kernel/hal/arch/acpi.c:54 | the entry count is (length - 36) / 4 for a long enough table; a shorter length wraps around in 32-bit size_t |
| Acpi.FirstHitFrom | src/kernel/hal/arch/acpi.c:58-76 | the lowest entry from i on that passes the signature and checksum tests, or -1 when none does |
| Acpi.FoundTable | src/kernel/hal/arch/acpi.c:49-80 | the table found lies in the image, has the signature and a valid checksum; NULL exactly when no entry passes |
| Acpi.BadChecksumIsSkipped | src/kernel/hal/arch/acpi.c:70-72 | an entry with a bad checksum does not stop the scan: the result is the scan's result from the next entry |
| Acpi.AcceptEntry | src/kernel/hal/arch/acpi.c:59-74 | one loop step accepts an entry exactly when its signature matches and its checksum is valid |
| Acpi.FindTableBySig | src/kernel/hal/arch/acpi.c:49-80 | the scan loop returns the first accepted entry's address, or NULL |
| Acpi.AcpiInfoParse | src/kernel/hal/arch/acpi.c:94-158 | a failed parse returns -EINVAL |
| Acpi.AcpiInfoParseFailsOnlyOnBadTables | src/kernel/hal/arch/acpi.c:100-134 | the parse fails iff the RSDP checksum is bad, or the revision is not 0, or the RSDT checksum is bad |
| Acpi.AcpiInfoParseFindsMadt | src/kernel/hal/arch/acpi.c:149-157 | a successful parse hands on a table in the image with signature "APIC" and a valid checksum |
| Acpi.AcpiInfoParsePanicsWithoutMadt | src/kernel/hal/arch/acpi.c:149-152 | the parse panics only when every check passed and no RSDT entry is an acceptable MADT |
| Semaphores.AccessCheck | src/kernel/pm/semaphore.c:133-142 | -ENOENT iff the slot is inactive (whoever asks), -EACCES iff active and the caller is neither owner nor user, else 0 |
| Semaphores.Registered | src/kernel/pm/semaphore.c:169-177 | after registration the caller has access, and state, key, owner and count are unchanged |
| Semaphores.DroppedRemovesOneRegistration | src/kernel/pm/semaphore.c:105-117 | dropping a user frees exactly one of its entries: one registration fewer, one free entry more |
| Semaphores.CreatedSlotIsFoundByKey | src/kernel/pm/semaphore.c:190-212 | once create has put the key into the first inactive slot, the key lookup finds that slot |
| Semaphores.SemTable.InitProcUsers | src/kernel/pm/semaphore.c:32-41 | the caller becomes the owner, every user entry is freed, no other slot changes |
| Semaphores.SemTable.KeyCheck | src/kernel/pm/semaphore.c:62-72 | the lowest active slot holding the key, -1 iff there is none |
| Semaphores.SemTable.IsSemaphoreGet | src/kernel/pm/semaphore.c:81-96 | true iff the caller is the owner or one of the users |
| Semaphores.SemTable.Drop | src/kernel/pm/semaphore.c:105-117 | 0 iff the caller was a user, whose first entry is then freed; -1 and no change otherwise |
| Semaphores.SemTable.Set | src/kernel/pm/semaphore.c:133-148 | returns the access check's result, and sets the counter exactly when that is 0 |
| Semaphores.SemTable.Get | src/kernel/pm/semaphore.c:158-180 | -ENOENT for an inactive slot; semid with no change for owner or user; else the caller takes the first free user entry, or -ENOBUFS |
| Semaphores.SemTable.Create | src/kernel/pm/semaphore.c:190-212 | -EEXIST with no change when an active slot holds the key; else the first inactive slot becomes active with that key and the caller as owner, or -ENOBUFS; the new slot is what the key lookup finds |
| Semaphores.SemTable.Delete | src/kernel/pm/semaphore.c:222-247 | access errors first; the owner deactivates the slot (0); a user is dropped and the call returns -EBADMSG |
| Semaphores.SemTable.GetCount | src/kernel/pm/semaphore.c:257-270 | the access check's error, else the counter |
| Semaphores.SemTable.GetId | src/kernel/pm/semaphore.c:280-288 | the lowest active slot holding the key, taken as unsigned, else -ENOENT |
| Semaphores.SemTable.Init | src/kernel/pm/semaphore.c:293-307 | every slot becomes inactive, owned by the caller, with all user entries free; key and counter are kept |
| Semaphores.Semaphore.Down | src/kernel/pm/semaphore.c:318-331 | with a positive counter, takes exactly one from it |
| Semaphores.Semaphore.Up | src/kernel/pm/semaphore.c:341-347 | adds exactly one to the counter |
| SemCalls.Semget | src/kernel/kcall/sem/semget.c:22-47 | an existing key gives its slot with no change (the caller is not registered); a new key gives the new slot, owned by the caller; -ENOBUFS when full; a non-negative result is the slot the key lookup finds |
| SemCalls.SemgetTwice | src/kernel/kcall/sem/semget.c:22-47 | two calls with the same key, by any two processes, return the same id |
| SemCalls.Semctl | src/kernel/kcall/sem/semctl.c:41-60 | command 0 is getcount, 1 is set, 2 is delete, each with its full outcome; any other command gives -EINVAL and changes nothing |
| ThreadKeys.AllocatedValueIsNeverFound | src/kernel/pm/key.c:82-99 | a value stored in a slot taken from the pool is not found again by the search, which skips used slots |
| ThreadKeys.FoundValueIsReadBack | src/kernel/pm/key.c:82-99 | a value written into the slot the search found is read back from that same slot |
| ThreadKeys.KeyStore.SearchValue | src/kernel/pm/key.c:82-99 | the first of the first THREAD_KEY_MAX value slots that is unused and matches the key or the thread, else -1 |
| ThreadKeys.KeyStore.AllocKey | src/kernel/pm/key.c:122-123 | the lowest unused key becomes used, or -1 with no change |
| ThreadKeys.KeyStore.AllocValue | src/kernel/pm/key.c:225-227 | the lowest unused value slot becomes used, or -1 with no change |
| ThreadKeys.KeyStore.KeyCreate | src/kernel/pm/key.c:113-130 | -EINVAL for a NULL out-parameter, -EAGAIN when no key is free; else the lowest free key is taken, written out and given the destructor |
| ThreadKeys.KeyStore.KeyDelete | src/kernel/pm/key.c:143-155 | -EINVAL out of range, -EBADF for an unused key; else only that key is freed |
| ThreadKeys.KeyStore.GetSpecific | src/kernel/pm/key.c:169-190 | 0 with the found slot's value iff tid >= 0, the key is in range and used, and the search finds a slot; -1 otherwise |
| ThreadKeys.KeyStore.SetSpecific | src/kernel/pm/key.c:205-238 | the argument errors first; a non-NULL value goes into the found slot, else a fresh one, else -EAGAIN; a NULL value frees the found slot |
| Sync.OrShiftIsSetBit | src/kernel/noc/sync.c:130 | on a 64-bit machine word, `footprint \|= (1ULL << k)` sets bit k and keeps every other bit, exactly as the bit-sequence model's update does |
| Sync.FootprintWordRepresents | src/kernel/noc/sync.c:128-130 | the machine word the loop builds from 0ULL has, bit for bit, the footprint the model stores |
| Sync.ComputeFootprint | src/kernel/noc/sync.c:128-130 | the loop computes the footprint of the node list |
| Sync.FootprintHasBit | src/kernel/noc/sync.c:128-130 | bit k of the footprint is set iff node k is in the list |
| Sync.FootprintIgnoresOrderAndRepeats | src/kernel/noc/sync.c:223-225 | two lists with the same nodes have the same footprint, whatever the order and repetitions |
| Sync.Initialised | src/kernel/noc/sync.c:107-115 | a new point is used, not busy, has one reference, and faces the request's direction only |
| Sync.InitialisedIsShared | src/kernel/noc/sync.c:133-157 | a point just set up for a request that matched nothing is the slot the next identical request finds |
| Sync.SyncTable.FindSame | src/kernel/noc/sync.c:133-157 | the lowest used slot of the same direction, master, footprint and type, or -1 |
| Sync.SyncTable.AllocSlot | src/kernel/noc/sync.c:98-99 | the lowest unused slot becomes used, or -1 with no change |
| Sync.SyncTable.AttachNew | src/kernel/noc/sync.c:92-118 | -EAGAIN when full; the hardware error with the slot given back; else the slot is set up with one reference |
| Sync.SyncTable.Attach | src/kernel/noc/sync.c:123-166 | an identical request adds one reference to that slot alone; otherwise a new slot; a non-negative result is what the next identical search finds |
| Sync.SyncTable.Create | src/kernel/noc/sync.c:123-166 | do_sync_create: Attach for the input direction |
| Sync.SyncTable.Open | src/kernel/noc/sync.c:218-261 | do_sync_open: Attach for the output direction |
| Sync.SyncTable.Release | src/kernel/noc/sync.c:276-297 | one reference less; at zero a successful release frees and resets the slot, a failed one returns its error and leaves the slot used with no references, which breaks Valid |
| Sync.SyncTable.Unlink | src/kernel/noc/sync.c:306-322 | -EBADF with no change unless the id names a used input point; otherwise the release |
| Sync.SyncTable.Close | src/kernel/noc/sync.c:331-347 | -EBADF with no change unless the id names a used output point; otherwise the release |
| Sync.SyncTable.Wait | src/kernel/noc/sync.c:356-374 | the hardware result on a used input point, -EBADF otherwise; nothing changes |
| Sync.SyncTable.Signal | src/kernel/noc/sync.c:383-401 | the hardware result on a used output point, -EBADF otherwise; nothing changes |
| ActiveChannels.AddressRoundTrip | src/kernel/noc/active.c:306-313 | decoding a composed address gives back the channel and the port |
| ActiveChannels.AddressesAreDistinct | src/kernel/noc/active.c:218 | distinct (channel, port) pairs get distinct logical addresses |
| ActiveChannels.ChosenPort | src/kernel/noc/active.c:49-71 | -EINVAL, or a free port with every lower port used; a port is chosen whenever refcount < nports and some port is free |
| ActiveChannels.RefcountGuardIsRedundant | src/kernel/noc/active.c:57 | while refcount counts the used ports, a port is chosen iff some port is free |
| ActiveChannels.PortToTake | src/kernel/noc/active.c:195-207 | the chosen port for output; for input the given port iff it is in [0, nports), else -EINVAL |
| ActiveChannels.AttachedKeepsCount | src/kernel/noc/active.c:212-216 | taking a free port keeps refcount equal to the number of used ports |
| ActiveChannels.DetachedKeepsCount | src/kernel/noc/active.c:267-271 | giving back a used port keeps refcount equal to the number of used ports |
| ActiveChannels.AttachThenDetach | src/kernel/noc/active.c:172-280 | releasing the port just allocated restores the channel |
| ActiveChannels.DetachedPortIsChosenAgain | src/kernel/noc/active.c:49-71 | after a release, output allocation picks the same port again when all lower ports are used |
| ActiveChannels.Initialised | src/kernel/noc/active.c:675-681 | a set-up channel is used, not busy, with no references, faces its direction only, and fits a search for its endpoints |
| ActiveChannels.OnlyHitIsFound | src/kernel/noc/active.c:110-157 | when no channel fitted, a slot set up to fit is what the search finds |
| ActiveChannels.MissStaysMissing | src/kernel/noc/active.c:110-157 | a slot changed into one that does not fit leaves a failing search failing |
| ActiveChannels.PendingFrom | src/kernel/noc/active.c:325 | the buffer search: the lowest taken id holding a kept message for the address, from the source (any when ANY_SRC), or -1 |
| ActiveChannels.FreeFrom | src/kernel/noc/active.c:361 | the buffer allocation: the lowest id not taken, or -1 when every id is taken |
| ActiveChannels.KeptMessageIsPending | src/kernel/noc/active.c:452-465 | a message kept for a local reader is found by that reader's buffer search |
| ActiveChannels.ActivePool.ChoosePort | src/kernel/noc/active.c:49-71 | the loop returns ChosenPort |
| ActiveChannels.ActivePool.Search | src/kernel/noc/active.c:110-157 | the lowest fitting channel, else -EINVAL; a hit is used, faces the direction and has the endpoints; nothing changes |
| ActiveChannels.ActivePool.MbufferSearch | src/kernel/noc/active.c:325 | the loop returns the buffer search's result |
| ActiveChannels.ActivePool.MbufferAlloc | src/kernel/noc/active.c:361 | the lowest free id gets a blank buffer; -EAGAIN with no change when the pool is full |
| ActiveChannels.ActivePool.Alloc | src/kernel/noc/active.c:172-227 | -EINVAL for no channel or no port, -EBUSY for a used port, both with no change; else exactly that port is taken, refcount grows by one, the composed address is returned, and Valid holds |
| ActiveChannels.ActivePool.Release | src/kernel/noc/active.c:237-280 | -EBUSY while a message is pending for a readable port, -EINVAL for an unused port; else exactly that port is given back |
| ActiveChannels.ActivePool.StartRead | src/kernel/noc/active.c:344-398 | -ENOMSG, -EBUSY, the allow error, the pool error in that order; a failed read leaves the port with no buffer and the pool as it was; else the buffer is bound, the channel is busy with remote -1 |
| ActiveChannels.ActivePool.ARead | src/kernel/noc/active.c:289-399 | -EBADF for an unused port; a pending message is delivered and its buffer freed (COMM_STATUS_RECEIVED); otherwise StartRead's outcome |
| ActiveChannels.ActivePool.StageBuffer | src/kernel/noc/active.c:434-470 | a bound buffer is reused; otherwise a new buffer holds the message; it is kept for a local remote (COMM_STATUS_RECEIVED), else bound to the port; a full pool changes nothing |
| ActiveChannels.ActivePool.AWrite | src/kernel/noc/active.c:408-498 | -EINVAL for an unused port; then the buffer step; -EBUSY keeps the bound buffer; a failed write returns its error; else the channel becomes busy |
| ActiveChannels.ActivePool.Settle | src/kernel/noc/active.c:561-598 | the wait's error; success on a write channel; on a read channel delivery when dest and source match, else COMM_STATUS_AGAIN, keeping the message iff the port dest names is used |
| ActiveChannels.ActivePool.Wait | src/kernel/noc/active.c:512-616 | -EBADF with no change for an unused port, an idle channel or no bound buffer; else the port loses its buffer, the channel becomes idle, and the buffer is kept (holding the message) or freed |
| ActiveChannels.ActivePool.AllocActive | src/kernel/noc/active.c:618-638 | the lowest unused slot gets fresh flags and is marked used, or -1 with no change |
| ActiveChannels.ActivePool.FreeActive | src/kernel/noc/active.c:640-643 | only the slot's used flag is cleared |
| ActiveChannels.ActivePool.Create | src/kernel/noc/active.c:654-684 | -EBUSY when an input channel for the node exists, -EAGAIN when full, the hardware error with the slot given back; else a read-only channel, which later searches find |
| ActiveChannels.ActivePool.Open | src/kernel/noc/active.c:699-736 | an existing output channel is returned unchanged; else -EAGAIN when full; the hardware error frees the slot; a `local` that is not a local node gives -EINVAL, and the slot taken stays used; two local nodes get hwfd -EINVAL |
| ActiveChannels.ActivePool.CreateTwice | src/kernel/noc/active.c:654-684 | after a successful create, a second create for the node gives -EBUSY |
| ActiveChannels.ActivePool.OpenTwice | src/kernel/noc/active.c:699-736 | after a successful open, a second open for the pair returns the same channel |

## Left out

- Spinlocks and `dcache_invalidate` are not modelled: every operation is one atomic step. The unlock and relock around `do_wait` in `active_wait` become two consecutive steps.
- `clock_read` and the latency and volume statistics (`struct pstats`) are not modelled.
- `active_set_notallowed` is not modelled: the allow state lives in a header that is not part of this model.
- `do_copy` is not modelled as code. For a write, the buffer gets the caller's payload with destination `config.remote` and source `copySrc`. For a read, the payload is handed over as `delivered`.
- The hardware hooks (`do_create`, `do_open`, `do_allow`, `do_aread`, `do_awrite`, `do_wait`, `sync_create`, `sync_open`, `sync_unlink`, `sync_close`, `sync_wait`, `sync_signal`) are parameters holding the value they return.
- `active.h` is not part of this model. The `ACTIVE_LADDRESS_*` macros are taken to be `fd * nports + port`, decoded with C's truncating `/` and `%`.
- `mbuffer.h` is not part of this model. The buffer pool is taken to be a map from id to buffer, with one pool per table:
  - allocation takes the lowest free id, or returns -EAGAIN when the pool is full;
  - the search returns the lowest kept buffer for the destination and source;
  - KEEP marks a buffer kept and DISCARD frees it.
- The resource pool (`resource_alloc`, `resource_free`, `RESOURCE_INITIALIZER`, `resource_set_rdonly`, `resource_set_wronly`) is not part of this model. It is taken to behave as follows, in `ThreadKeys.KeyStore.AllocKey`, `ThreadKeys.KeyStore.AllocValue`, `Sync.SyncTable.AllocSlot`, `ActiveChannels.ActivePool.AllocActive` and `Slots`:
  - allocation marks the lowest unused slot used and returns its index, or returns -1 when every slot is used;
  - freeing clears only the used flag;
  - the initializer clears every flag;
  - read-only means readable and not writable, and write-only the reverse.
- `node_is_local` is a fixed set of node numbers (`localNodes`).
- ActiveChannels.ActivePool.Release, ARead, AWrite, Wait: these require the logical address to decode to a channel of the table. The C code indexes the array without a check, so an address out of range is undefined behaviour there.
- ActiveChannels.ActivePool.Wait: requires the destination of the arrived message to be non-negative, so that the port it names exists.
- Semaphores.Semaphore.Down: sleeping on the condition variable is not modelled, so the call requires a positive counter. `cond_broadcast` in `semaphore_up` is not modelled.
- `semaphore_init` is not part of this model. `semaphore_set` is taken to set the counter to `count`, and the constructor of `Semaphores.Semaphore` stands for it.
- Semaphores.SemTable: the semaphore operations require the id to be in range. The C code indexes the table without a range check, so an id out of range is undefined behaviour there.
- SemCalls.Semctl: for commands 0 to 2 it requires the id to be in range, like the operations it calls. In the source this id comes unchecked from user space: the system call passes its first argument straight through (src/kernel/kcall/mod.c:134), and neither `kcall_semctl` (src/kernel/kcall/sem/semctl.c:41-60) nor `semaphore_getcount`/`semaphore_set` (src/kernel/pm/semaphore.c:133-136, 257-260) checks it. Any user process can therefore make the kernel index `semtable` out of bounds, which is a defect of the source. The model does not represent that out-of-bounds access.
- Acpi: the log output, the RSDP and SDT printing, and `parse_madt` are not modelled. `parse_madt` is not part of this model.
- Acpi.AcpiInfoParse: `kpanic` is the outcome `Panic`.
- Acpi.AcpiInfoParse, Acpi.EntryCount: `struct rsdp_t` and `struct acpi_sdt_header` are not part of this model, and their layout is assumed to be that of ACPI 1.0:
  - `sizeof(*rsdp)` is 20, so the RSDP checksum covers 20 bytes (36 if the struct carried the ACPI 2.0 fields);
  - the revision is at offset 15 of the RSDP, and the 32-bit RSDT address at offset 16;
  - the SDT header is 36 bytes, with its 32-bit length at offset 4;
  - the `others[]` entries of the RSDT are 4-byte addresses;
  - `size_t` is 32 bits, so `length - sizeof(h)` wraps modulo 2^32 when the length is below 36.
- Sync: the node list must be non-empty (the source reads `nodes[0]`). Nodes must lie in [0, 64), where `1ULL << node` is defined.
- Sync: the footprint stored in a slot is a sequence of 64 bits rather than a machine word. `Sync.FootprintWordRepresents` ties the machine word built with `|=` and `<<` to it bit by bit, but the table compares the bit sequences.
- Memset.Memset: the caller must supply a buffer of at least `n` bytes.
