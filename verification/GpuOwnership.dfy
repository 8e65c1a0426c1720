/**
  * Ownership of GPU buffers and CPU mappings: create, destroy, map and unmap against a kernel
  * that may refuse any request.
  *
  * The kernel is a value that records what is really allocated, bound and leased, and whether
  * each release the client asked for was due. Every reply is chosen by the environment; a
  * refused request changes nothing, and the kernel never grants a handle, cookie or lease
  * token that is still in use.
  */
module GpuOwnership {
  import opened Words

  type u64 = n: nat | n <= U64_MAX

  function WrapAdd(a: u64, b: u64): u64 { (a + b) % (U64_MAX + 1) }

  datatype Status = Success | InvalidArgument | AbiMismatch | Busy | Failed(code: nat)

  const GPU_READ: bv32 := 1
  const GPU_WRITE: bv32 := 2
  const KNOWN_ALLOCATION_FLAGS: bv32 := 15   // read, write, CPU-visible, zeroed
  const KNOWN_MAP_ACCESS: bv32 := 3          // CPU read, CPU write

  datatype AllocationDesc = AllocationDesc(
    structSize: nat, version: nat, heap: nat, flags: bv32, sizeBytes: u64, alignment: bv64, reservedZero: bool)

  datatype AllocatedBufferDesc = AllocatedBufferDesc(
    structSize: nat, version: nat, deviceId: u64, deviceGeneration: u64, resourceCookie: u64,
    allocation: AllocationDesc, requiredAccess: bv32, reserved: nat)

  datatype BufferDesc = BufferDesc(
    structSize: nat, version: nat, deviceId: u64, deviceGeneration: u64, resourceCookie: u64,
    allocation: u64, allocationOffset: u64, sizeBytes: u64, requiredAccess: bv32, reserved: nat)

  /** RinGpuProcessBufferV1 and RinGpuProcessAllocatedBufferV1 share this layout. */
  datatype BufferRecord = BufferRecord(structSize: nat, version: nat, state: nat, reserved0: nat, desc: BufferDesc)

  datatype MemoryMapping = MemoryMapping(
    structSize: nat, version: nat, access: bv32, reserved0: nat, allocation: u64, address: u64, sizeBytes: u64,
    mapping: u64, deviceGeneration: u64, reserved: nat)

  datatype Mapping = Mapping(
    structSize: nat, version: nat, state: nat, access: bv32, deviceId: u64, deviceGeneration: u64,
    allocation: u64, mapping: u64, address: u64, allocationOffset: u64, sizeBytes: u64, reserved: nat)

  const BUFFER_DESC_SIZE: nat := 64
  const BUFFER_SIZE: nat := 80
  const MAPPING_SIZE: nat := 80
  const MEMORY_MAPPING_SIZE: nat := 64
  const ALLOCATED_BUFFER_DESC_SIZE: nat := 104
  const ALLOCATION_DESC_SIZE: nat := 64
  const VERSION: nat := 1
  const BOUND: nat := 1             // also MAPPED, for a mapping record
  const PENDING: nat := 2           // DESTROY_PENDING, UNMAP_PENDING
  const HEAP_LOCAL: nat := 1
  const HEAP_SYSTEM: nat := 2

  const ZERO_DESC: BufferDesc := BufferDesc(0, 0, 0, 0, 0, 0, 0, 0, 0, 0)
  const ZERO_BUFFER: BufferRecord := BufferRecord(0, 0, 0, 0, ZERO_DESC)
  const ZERO_MAPPING: Mapping := Mapping(0, 0, 0, 0, 0, 0, 0, 0, 0, 0, 0, 0)

  // ---------- The kernel ----------

  datatype AllocKey = AllocKey(deviceId: u64, deviceGeneration: u64, allocation: u64)
  datatype CookieKey = CookieKey(deviceId: u64, deviceGeneration: u64, cookie: u64)
  datatype LeaseKey = LeaseKey(alloc: AllocKey, token: u64)
  datatype Extent = Extent(address: u64, sizeBytes: u64)

  /** `due`: the thing the client asked to release was there to be released. */
  datatype Request = UnbindRequest(due: bool) | FreeRequest(due: bool) | UnmapRequest(due: bool)

  datatype Kernel = Kernel(
    live: set<AllocKey>, bound: map<CookieKey, AllocKey>, leases: map<LeaseKey, Extent>, requests: seq<Request>)

  datatype Reply<T> = Refused(code: nat) | Granted(value: T)

  function KernelAllocate(k: Kernel, d: u64, g: u64, reply: Reply<u64>): (Kernel, Status, u64) {
    match reply
    case Refused(code) => (k, Failed(code), 0)
    case Granted(handle) =>
      if AllocKey(d, g, handle) in k.live then (k, Failed(0), 0)
      else if handle == 0 then (k, Success, 0)
      else (k.(live := k.live + {AllocKey(d, g, handle)}), Success, handle)
  }

  function KernelBind(k: Kernel, cookie: CookieKey, alloc: AllocKey, reply: Reply<()>): (Kernel, Status) {
    match reply
    case Refused(code) => (k, Failed(code))
    case Granted(_) =>
      if alloc !in k.live || cookie in k.bound then (k, Failed(0))
      else (k.(bound := k.bound[cookie := alloc]), Success)
  }

  function KernelUnbind(k: Kernel, cookie: CookieKey, reply: Reply<()>): (Kernel, Status) {
    var k' := k.(requests := k.requests + [UnbindRequest(cookie in k.bound)]);
    match reply
    case Refused(code) => (k', Failed(code))
    case Granted(_) => if cookie !in k.bound then (k', Failed(0)) else (k'.(bound := k.bound - {cookie}), Success)
  }

  predicate Unbound(k: Kernel, alloc: AllocKey) { alloc !in k.bound.Values }

  function KernelFree(k: Kernel, alloc: AllocKey, reply: Reply<()>): (Kernel, Status) {
    var due := alloc in k.live && Unbound(k, alloc);
    var k' := k.(requests := k.requests + [FreeRequest(due)]);
    match reply
    case Refused(code) => (k', Failed(code))
    case Granted(_) => if !due then (k', Failed(0)) else (k'.(live := k.live - {alloc}), Success)
  }

  /** A granted mapping with a zero token leases nothing; its other fields may be anything. */
  function KernelMap(k: Kernel, alloc: AllocKey, reply: Reply<MemoryMapping>): (Kernel, Status) {
    match reply
    case Refused(code) => (k, Failed(code))
    case Granted(r) =>
      if LeaseKey(alloc, r.mapping) in k.leases then (k, Failed(0))
      else if r.mapping == 0 then (k, Success)
      else (k.(leases := k.leases[LeaseKey(alloc, r.mapping) := Extent(r.address, r.sizeBytes)]), Success)
  }

  function KernelUnmap(k: Kernel, lease: LeaseKey, reply: Reply<()>): (Kernel, Status) {
    var k' := k.(requests := k.requests + [UnmapRequest(lease in k.leases)]);
    match reply
    case Refused(code) => (k', Failed(code))
    case Granted(_) => if lease !in k.leases then (k', Failed(0)) else (k'.(leases := k.leases - {lease}), Success)
  }

  // ---------- Validation, as the client does it ----------

  predicate AccessValid(access: bv32) { access != 0 && access & !(GPU_READ | GPU_WRITE) == 0 }

  predicate MapAccessValid(access: bv32) { access != 0 && access & !KNOWN_MAP_ACCESS == 0 }

  predicate AllocationDescValid(a: AllocationDesc) {
    && a.structSize == ALLOCATION_DESC_SIZE && a.version == VERSION
    && (a.heap == HEAP_LOCAL || a.heap == HEAP_SYSTEM)
    && a.flags & !KNOWN_ALLOCATION_FLAGS == 0 && a.flags & (GPU_READ | GPU_WRITE) != 0
    && a.sizeBytes != 0 && a.reservedZero
  }

  predicate BufferDescValid(d: BufferDesc) {
    && d.structSize == BUFFER_DESC_SIZE && d.version == VERSION
    && d.deviceId != 0 && d.deviceGeneration != 0 && d.resourceCookie != 0 && d.allocation != 0 && d.sizeBytes != 0
    && d.allocationOffset <= U64_MAX - d.sizeBytes
    && AccessValid(d.requiredAccess) && d.reserved == 0
  }

  predicate AllocatedDescValid(d: AllocatedBufferDesc) {
    && d.structSize == ALLOCATED_BUFFER_DESC_SIZE && d.version == VERSION
    && d.deviceId != 0 && d.deviceGeneration != 0 && d.resourceCookie != 0
    && AllocationDescValid(d.allocation)
    && (d.allocation.alignment == 0 || d.allocation.alignment & (d.allocation.alignment - 1) == 0)
    && AccessValid(d.requiredAccess) && d.requiredAccess & d.allocation.flags == d.requiredAccess
    && d.reserved == 0
  }

  predicate AllocatedValid(b: BufferRecord) {
    && b.structSize == BUFFER_SIZE && b.version == VERSION && (b.state == BOUND || b.state == PENDING)
    && b.reserved0 == 0 && BufferDescValid(b.desc) && b.desc.allocationOffset == 0
  }

  predicate BufferValid(b: BufferRecord) {
    && b.structSize == BUFFER_SIZE && b.version == VERSION && b.state == BOUND && b.reserved0 == 0
    && BufferDescValid(b.desc)
  }

  predicate BufferRangeValid(b: BufferRecord, offset: u64, length: u64) {
    BufferValid(b) && length != 0 && offset <= b.desc.sizeBytes && length <= b.desc.sizeBytes - offset
  }

  predicate MappingValid(machine: Machine, p: Mapping) {
    && p.structSize == MAPPING_SIZE && p.version == VERSION
    && p.deviceId != 0 && p.deviceGeneration != 0 && p.allocation != 0 && p.mapping != 0
    && MapAccessValid(p.access) && p.reserved == 0
    && if p.state == PENDING then p.address == 0 && p.allocationOffset == 0 && p.sizeBytes == 0
       else
         && p.state == BOUND && p.address != 0 && p.sizeBytes != 0
         && p.allocationOffset <= U64_MAX - p.sizeBytes
         && p.address <= WordMax(machine) && p.sizeBytes - 1 <= WordMax(machine) - p.address
  }

  // ---------- Allocated buffers ----------

  function MemoryAllocate(k: Kernel, d: u64, g: u64, a: AllocationDesc, reply: Reply<u64>): (Kernel, Status, u64) {
    if d == 0 || g == 0 || !AllocationDescValid(a) then (k, InvalidArgument, 0) else
    var (k', status, handle) := KernelAllocate(k, d, g, reply);
    if status == Success && handle == 0 then (k', AbiMismatch, 0) else (k', status, handle)
  }

  function KeyOf(d: BufferDesc): AllocKey { AllocKey(d.deviceId, d.deviceGeneration, d.allocation) }

  function CookieOf(d: BufferDesc): CookieKey { CookieKey(d.deviceId, d.deviceGeneration, d.resourceCookie) }

  function MemoryDestroy(k: Kernel, key: AllocKey, reply: Reply<()>): (Kernel, Status) {
    if key.deviceId == 0 || key.deviceGeneration == 0 || key.allocation == 0 then (k, InvalidArgument)
    else KernelFree(k, key, reply)
  }

  function BufferBind(k: Kernel, d: BufferDesc, reply: Reply<()>): (Kernel, Status) {
    if !BufferDescValid(d) then (k, InvalidArgument) else KernelBind(k, CookieOf(d), KeyOf(d), reply)
  }

  function BufferUnbind(k: Kernel, b: BufferRecord, reply: Reply<()>): (Kernel, Status) {
    if !BufferValid(b) then (k, InvalidArgument) else KernelUnbind(k, CookieOf(b.desc), reply)
  }

  datatype CreateReplies = CreateReplies(allocate: Reply<u64>, bind: Reply<()>, free: Reply<()>)

  function DescFor(d: AllocatedBufferDesc, allocation: u64): BufferDesc {
    BufferDesc(BUFFER_DESC_SIZE, VERSION, d.deviceId, d.deviceGeneration, d.resourceCookie, allocation,
               0, d.allocation.sizeBytes, d.requiredAccess, 0)
  }

  function CreateBuffer(k: Kernel, d: AllocatedBufferDesc, out: BufferRecord, replies: CreateReplies)
    : (Kernel, BufferRecord, Status)
  {
    if !AllocatedDescValid(d) then (k, out, InvalidArgument)
    else if out != ZERO_BUFFER then (k, out, if AllocatedValid(out) then Busy else InvalidArgument)
    else
      var (k1, granted, handle) := MemoryAllocate(k, d.deviceId, d.deviceGeneration, d.allocation, replies.allocate);
      if granted != Success then (k1, out, granted) else
      var desc := DescFor(d, handle);
      var (k2, bound) := BufferBind(k1, desc, replies.bind);
      if bound == Success then (k2, BufferRecord(BUFFER_SIZE, VERSION, BOUND, 0, desc), Success) else
      var (k3, freed) := MemoryDestroy(k2, KeyOf(desc), replies.free);
      if freed == Success then (k3, out, bound)
      else (k3, BufferRecord(BUFFER_SIZE, VERSION, PENDING, 0, desc), freed)
  }

  function DestroyBuffer(k: Kernel, b: BufferRecord, unbind: Reply<()>, free: Reply<()>)
    : (Kernel, BufferRecord, Status)
  {
    if !AllocatedValid(b) then (k, b, InvalidArgument) else
    var (k1, unbound) := if b.state == BOUND then BufferUnbind(k, b, unbind) else (k, Success);
    if unbound != Success then (k1, b, unbound) else
    var (k2, freed) := MemoryDestroy(k1, KeyOf(b.desc), free);
    if freed == Success then (k2, ZERO_BUFFER, Success) else (k2, b.(state := PENDING), freed)
  }

  // ---------- CPU mappings ----------

  function MemoryUnmap(k: Kernel, lease: LeaseKey, reply: Reply<()>): (Kernel, Status) {
    if lease.alloc.deviceId == 0 || lease.alloc.deviceGeneration == 0 || lease.alloc.allocation == 0 || lease.token == 0
    then (k, InvalidArgument)
    else KernelUnmap(k, lease, reply)
  }

  const RESET: MemoryMapping := MemoryMapping(MEMORY_MAPPING_SIZE, VERSION, 0, 0, 0, 0, 0, 0, 0, 0)

  predicate MemoryMappingValid(machine: Machine, key: AllocKey, access: bv32, r: MemoryMapping) {
    && r.structSize == MEMORY_MAPPING_SIZE && r.version == VERSION && r.access == access && r.reserved0 == 0
    && r.allocation == key.allocation && r.address != 0 && r.address <= WordMax(machine) && r.sizeBytes != 0
    && r.sizeBytes - 1 <= WordMax(machine) - r.address
    && r.mapping != 0 && r.deviceGeneration == key.deviceGeneration && r.reserved == 0
  }

  function MemoryMap(machine: Machine, k: Kernel, key: AllocKey, access: bv32,
                     mapGrant: Reply<MemoryMapping>, unmap: Reply<()>): (Kernel, MemoryMapping, Status)
  {
    if key.deviceId == 0 || key.deviceGeneration == 0 || key.allocation == 0 || !MapAccessValid(access)
    then (k, RESET, InvalidArgument) else
    var (k1, status) := KernelMap(k, key, mapGrant);
    if status != Success then (k1, RESET, status)
    else if MemoryMappingValid(machine, key, access, mapGrant.value) then (k1, mapGrant.value, Success)
    else if mapGrant.value.mapping == 0 then (k1, RESET, AbiMismatch)
    else
      var (k2, cleanup) := MemoryUnmap(k1, LeaseKey(key, mapGrant.value.mapping), unmap);
      if cleanup == Success then (k2, RESET, AbiMismatch)
      else (k2,
            RESET.(access := access, allocation := key.allocation, mapping := mapGrant.value.mapping,
                   deviceGeneration := key.deviceGeneration),
            cleanup)
  }

  function PendingMapping(d: BufferDesc, access: bv32, token: u64): Mapping {
    Mapping(MAPPING_SIZE, VERSION, PENDING, access, d.deviceId, d.deviceGeneration, d.allocation, token, 0, 0, 0, 0)
  }

  /** The first cleanup block: what the returned lease must be for the view to be taken from it. */
  predicate LeaseServes(machine: Machine, d: BufferDesc, access: bv32, r: MemoryMapping) {
    && r.allocation == d.allocation && r.deviceGeneration == d.deviceGeneration && r.access == access
    && r.address != 0 && r.address <= WordMax(machine)
    && WrapAdd(d.allocationOffset, d.sizeBytes) <= r.sizeBytes
    && d.allocationOffset <= U64_MAX - r.address
  }

  /** The second cleanup block. */
  predicate ViewWraps(machine: Machine, d: BufferDesc, viewAddress: u64) {
    viewAddress > WordMax(machine) || d.sizeBytes - 1 > WordMax(machine) - viewAddress
  }

  /** Gives the lease back, or keeps its token for a retry. */
  function GiveBack(k: Kernel, d: BufferDesc, access: bv32, token: u64, out: Mapping, unmap: Reply<()>)
    : (Kernel, Mapping, Status)
  {
    var (k', cleanup) := MemoryUnmap(k, LeaseKey(KeyOf(d), token), unmap);
    if cleanup == Success then (k', out, AbiMismatch) else (k', PendingMapping(d, access, token), cleanup)
  }

  /** The buffer's part of a lease that serves it. */
  function ViewMapping(d: BufferDesc, access: bv32, r: MemoryMapping): Mapping {
    Mapping(MAPPING_SIZE, VERSION, BOUND, access, d.deviceId, d.deviceGeneration, d.allocation, r.mapping,
            WrapAdd(r.address, d.allocationOffset), d.allocationOffset, d.sizeBytes, 0)
  }

  function MapBuffer(machine: Machine, k: Kernel, b: BufferRecord, access: bv32, out: Mapping,
                     mapGrant: Reply<MemoryMapping>, unmap: Reply<()>): (Kernel, Mapping, Status)
  {
    if !MapAccessValid(access) then (k, out, InvalidArgument)
    else if out != ZERO_MAPPING then (k, out, if MappingValid(machine, out) then Busy else InvalidArgument)
    else if !BufferRangeValid(b, 0, b.desc.sizeBytes) then (k, out, InvalidArgument)
    else
      var d := b.desc;
      var (k1, r, status) := MemoryMap(machine, k, KeyOf(d), access, mapGrant, unmap);
      if status != Success then
        (k1,
         if r.mapping != 0 && r == RESET.(access := access, allocation := d.allocation, mapping := r.mapping,
                                          deviceGeneration := d.deviceGeneration)
         then PendingMapping(d, access, r.mapping) else out,
         status)
      else if !LeaseServes(machine, d, access, r) then GiveBack(k1, d, access, r.mapping, out, unmap)
      else
        var viewAddress := WrapAdd(r.address, d.allocationOffset);
        if ViewWraps(machine, d, viewAddress) then GiveBack(k1, d, access, r.mapping, out, unmap)
        else
          (k1, ViewMapping(d, access, r), Success)
  }

  function LeaseOf(p: Mapping): LeaseKey {
    LeaseKey(AllocKey(p.deviceId, p.deviceGeneration, p.allocation), p.mapping)
  }

  function UnmapBuffer(machine: Machine, k: Kernel, p: Mapping, unmap: Reply<()>): (Kernel, Mapping, Status) {
    if !MappingValid(machine, p) then (k, p, InvalidArgument) else
    var (k', status) := MemoryUnmap(k, LeaseOf(p), unmap);
    (k', if status == Success then ZERO_MAPPING else p, status)
  }

  // ---------- Any run of calls ----------

  /** The caller's records by place, all zeroed at the start, and the kernel they speak to. */
  datatype World = World(machine: Machine, kernel: Kernel, buffers: nat -> BufferRecord, mappings: nat -> Mapping)

  datatype Step =
    | Create(slot: nat, desc: AllocatedBufferDesc, replies: CreateReplies)
    | Destroy(slot: nat, unbindReply: Reply<()>, freeReply: Reply<()>)
    | Map(slot: nat, buffer: BufferRecord, access: bv32, mapReply: Reply<MemoryMapping>, unmapReply: Reply<()>)
    | Unmap(slot: nat, unmapReply: Reply<()>)

  function Put<T>(records: nat -> T, slot: nat, record: T): (r: nat -> T)
    ensures forall s: nat :: r(s) == if s == slot then record else records(s)
  {
    (s: nat) => if s == slot then record else records(s)
  }

  function Apply(w: World, step: Step): World {
    match step
    case Create(slot, desc, replies) =>
      var (k, b, _) := CreateBuffer(w.kernel, desc, w.buffers(slot), replies);
      w.(kernel := k, buffers := Put(w.buffers, slot, b))
    case Destroy(slot, unbind, free) =>
      var (k, b, _) := DestroyBuffer(w.kernel, w.buffers(slot), unbind, free);
      w.(kernel := k, buffers := Put(w.buffers, slot, b))
    case Map(slot, buffer, access, mapGrant, unmap) =>
      var (k, p, _) := MapBuffer(w.machine, w.kernel, buffer, access, w.mappings(slot), mapGrant, unmap);
      w.(kernel := k, mappings := Put(w.mappings, slot, p))
    case Unmap(slot, unmap) =>
      var (k, p, _) := UnmapBuffer(w.machine, w.kernel, w.mappings(slot), unmap);
      w.(kernel := k, mappings := Put(w.mappings, slot, p))
  }

  function Run(w: World, steps: seq<Step>): World {
    if steps == [] then w else Apply(Run(w, steps[..|steps| - 1]), steps[|steps| - 1])
  }

  function Start(machine: Machine): World {
    World(machine, Kernel({}, map[], map[], []), _ => ZERO_BUFFER, _ => ZERO_MAPPING)
  }

  /** The places hold exactly the keys, each key in exactly one place. */
  ghost predicate Ledger<K(!new)>(names: nat -> Option<K>, keys: set<K>) {
    && (forall s: nat :: names(s).Some? ==> names(s).value in keys)
    && (forall s: nat, t: nat :: names(s).Some? && names(s) == names(t) ==> s == t)
    && (forall key :: key in keys ==> exists s: nat :: names(s) == Some(key))
  }

  function AllocationName(b: BufferRecord): Option<AllocKey> {
    if b == ZERO_BUFFER then None else Some(KeyOf(b.desc))
  }

  function CookieName(b: BufferRecord): Option<CookieKey> {
    if b.state == BOUND then Some(CookieOf(b.desc)) else None
  }

  function LeaseName(p: Mapping): Option<LeaseKey> {
    if p == ZERO_MAPPING then None else Some(LeaseOf(p))
  }

  /** A record in use is one destroy accepts, and a BOUND one has its cookie on its own allocation. */
  predicate BufferSound(k: Kernel, b: BufferRecord) {
    && AllocatedValid(b)
    && (b.state == BOUND && CookieOf(b.desc) in k.bound ==> k.bound[CookieOf(b.desc)] == KeyOf(b.desc))
  }

  /**
    * The live allocations are exactly those of the records in use, the bound cookies exactly those of the BOUND ones.
    */
  ghost predicate BuffersOwned(k: Kernel, buffers: nat -> BufferRecord) {
    && Ledger((s: nat) => AllocationName(buffers(s)), k.live)
    && Ledger((s: nat) => CookieName(buffers(s)), k.bound.Keys)
    && (forall s: nat :: buffers(s) != ZERO_BUFFER ==> BufferSound(k, buffers(s)))
  }

  /** A MAPPED view is its buffer's part of the lease, inside it and inside the address space. */
  predicate ViewInside(machine: Machine, p: Mapping, lease: Extent) {
    && p.address == lease.address + p.allocationOffset
    && p.allocationOffset + p.sizeBytes <= lease.sizeBytes
    && p.address + p.sizeBytes - 1 <= WordMax(machine)
  }

  predicate MappingSound(machine: Machine, k: Kernel, p: Mapping) {
    && MappingValid(machine, p)
    && (p.state == BOUND && LeaseOf(p) in k.leases ==> ViewInside(machine, p, k.leases[LeaseOf(p)]))
  }

  /** The outstanding leases are exactly those of the mapping records in use. */
  ghost predicate LeasesOwned(machine: Machine, k: Kernel, mappings: nat -> Mapping) {
    && Ledger((s: nat) => LeaseName(mappings(s)), k.leases.Keys)
    && (forall s: nat :: mappings(s) != ZERO_MAPPING ==> MappingSound(machine, k, mappings(s)))
  }

  /** Every release ever requested was due: nothing was released twice, or freed while bound. */
  predicate AllDue(requests: seq<Request>) {
    forall i :: 0 <= i < |requests| ==> requests[i].due
  }

  ghost predicate Inv(w: World) {
    && BuffersOwned(w.kernel, w.buffers)
    && LeasesOwned(w.machine, w.kernel, w.mappings)
    && AllDue(w.kernel.requests)
  }

  /** The client's checks leave nothing for the second cleanup block of map to catch. */
  lemma SecondCleanupUnreachable(machine: Machine, d: BufferDesc, access: bv32, r: MemoryMapping)
    requires BufferDescValid(d) && MemoryMappingValid(machine, KeyOf(d), access, r)
    requires LeaseServes(machine, d, access, r)
    ensures !ViewWraps(machine, d, WrapAdd(r.address, d.allocationOffset))
    ensures WrapAdd(r.address, d.allocationOffset) == r.address + d.allocationOffset
  {
    assert WrapAdd(d.allocationOffset, d.sizeBytes) == d.allocationOffset + d.sizeBytes;
  }

  // What each call can do, in terms of what is owned.

  /** Create ends with nothing owned and nothing changed, or with exactly what the record it hands back says. */
  lemma CreateOutcome(k: Kernel, d: AllocatedBufferDesc, out: BufferRecord, replies: CreateReplies)
    requires forall c :: c in k.bound ==> k.bound[c] in k.live
    ensures var (k', b, status) := CreateBuffer(k, d, out, replies);
            && k'.leases == k.leases
            && (AllDue(k.requests) ==> AllDue(k'.requests))
            && (status == Success <==>
                  && AllocatedDescValid(d) && out == ZERO_BUFFER
                  && replies.allocate.Granted? && replies.allocate.value != 0
                  && AllocKey(d.deviceId, d.deviceGeneration, replies.allocate.value) !in k.live
                  && replies.bind.Granted? && CookieKey(d.deviceId, d.deviceGeneration, d.resourceCookie) !in k.bound)
            && if b == out then status != Success && k'.live == k.live && k'.bound == k.bound
               else
                 && out == ZERO_BUFFER && AllocatedValid(b)
                 && KeyOf(b.desc) !in k.live && k'.live == k.live + {KeyOf(b.desc)}
                 && (b.state == BOUND <==> status == Success)
                 && if b.state == BOUND
                    then CookieOf(b.desc) !in k.bound && k'.bound == k.bound[CookieOf(b.desc) := KeyOf(b.desc)]
                    else k'.bound == k.bound
  {
    if AllocatedDescValid(d) && out == ZERO_BUFFER {
      var (k1, granted, handle) := MemoryAllocate(k, d.deviceId, d.deviceGeneration, d.allocation, replies.allocate);
      if granted == Success {
        var desc := DescFor(d, handle);
        assert BufferDescValid(desc);
        var (k2, bound) := BufferBind(k1, desc, replies.bind);
        if bound != Success {
          assert Unbound(k2, KeyOf(desc));
          var (k3, freed) := MemoryDestroy(k2, KeyOf(desc), replies.free);
          assert k.live + {KeyOf(desc)} - {KeyOf(desc)} == k.live;
        }
      }
    }
  }

  /** Destroy releases each half at most once, and the record it leaves names exactly what is left. */
  lemma DestroyOutcome(k: Kernel, b: BufferRecord, unbind: Reply<()>, free: Reply<()>)
    requires AllocatedValid(b) && KeyOf(b.desc) in k.live
    requires forall c :: c in k.bound && k.bound[c] == KeyOf(b.desc) ==> b.state == BOUND && c == CookieOf(b.desc)
    requires b.state == BOUND ==> CookieOf(b.desc) in k.bound
    ensures var (k', b', status) := DestroyBuffer(k, b, unbind, free);
            && k'.leases == k.leases
            && (AllDue(k.requests) ==> AllDue(k'.requests))
            && (status == Success <==> b' == ZERO_BUFFER)
            && (status == Success <==> (b.state == BOUND ==> unbind.Granted?) && free.Granted?)
            && (b' == b || b' == b.(state := PENDING) || b' == ZERO_BUFFER)
            && k'.live == (if b' == ZERO_BUFFER then k.live - {KeyOf(b.desc)} else k.live)
            && k'.bound == (if b.state == BOUND && b' != b then k.bound - {CookieOf(b.desc)} else k.bound)
  {
    var (k1, unbound) := if b.state == BOUND then BufferUnbind(k, b, unbind) else (k, Success);
    if unbound == Success {
      assert Unbound(k1, KeyOf(b.desc));
    }
  }

  // Ledgers under a change of one place.

  lemma LedgerSame<K(!new)>(names: nat -> Option<K>, names': nat -> Option<K>, keys: set<K>)
    requires Ledger(names, keys) && forall s: nat :: names'(s) == names(s)
    ensures Ledger(names', keys)
  {
  }

  lemma LedgerAdd<K(!new)>(names: nat -> Option<K>, names': nat -> Option<K>, keys: set<K>, slot: nat, key: K)
    requires Ledger(names, keys) && names(slot) == None && key !in keys
    requires forall s: nat :: names'(s) == if s == slot then Some(key) else names(s)
    ensures Ledger(names', keys + {key})
  {
    forall other | other in keys + {key}
      ensures exists s: nat :: names'(s) == Some(other)
    {
      if other in keys {
        var s: nat :| names(s) == Some(other);
        assert names'(s) == Some(other);
      } else {
        assert names'(slot) == Some(other);
      }
    }
  }

  lemma LedgerDrop<K(!new)>(names: nat -> Option<K>, names': nat -> Option<K>, keys: set<K>, slot: nat, key: K)
    requires Ledger(names, keys) && names(slot) == Some(key)
    requires forall s: nat :: names'(s) == if s == slot then None else names(s)
    ensures Ledger(names', keys - {key})
  {
    forall other | other in keys - {key}
      ensures exists s: nat :: names'(s) == Some(other)
    {
      var s: nat :| names(s) == Some(other);
      assert names'(s) == Some(other);
    }
  }

  lemma BuffersSame(k: Kernel, k': Kernel, buffers: nat -> BufferRecord, buffers': nat -> BufferRecord)
    requires BuffersOwned(k, buffers) && k'.live == k.live && k'.bound == k.bound
    requires forall s: nat :: buffers'(s) == buffers(s)
    ensures BuffersOwned(k', buffers')
  {
    LedgerSame((s: nat) => AllocationName(buffers(s)), (s: nat) => AllocationName(buffers'(s)), k.live);
    LedgerSame((s: nat) => CookieName(buffers(s)), (s: nat) => CookieName(buffers'(s)), k.bound.Keys);
  }

  lemma AddBuffer(k: Kernel, k': Kernel, buffers: nat -> BufferRecord, slot: nat, b: BufferRecord)
    requires BuffersOwned(k, buffers) && buffers(slot) == ZERO_BUFFER
    requires AllocatedValid(b) && KeyOf(b.desc) !in k.live && k'.live == k.live + {KeyOf(b.desc)}
    requires if b.state == BOUND
             then CookieOf(b.desc) !in k.bound && k'.bound == k.bound[CookieOf(b.desc) := KeyOf(b.desc)]
             else k'.bound == k.bound
    ensures BuffersOwned(k', Put(buffers, slot, b))
  {
    var buffers' := Put(buffers, slot, b);
    var cookies: nat -> Option<CookieKey> := (s: nat) => CookieName(buffers(s));
    var cookies': nat -> Option<CookieKey> := (s: nat) => CookieName(buffers'(s));
    LedgerAdd((s: nat) => AllocationName(buffers(s)), (s: nat) => AllocationName(buffers'(s)),
              k.live, slot, KeyOf(b.desc));
    if b.state == BOUND {
      LedgerAdd(cookies, cookies', k.bound.Keys, slot, CookieOf(b.desc));
      assert k'.bound.Keys == k.bound.Keys + {CookieOf(b.desc)};
    } else {
      LedgerSame(cookies, cookies', k.bound.Keys);
    }
    forall s: nat | buffers'(s) != ZERO_BUFFER
      ensures BufferSound(k', buffers'(s))
    {
      if s != slot {
        assert BufferSound(k, buffers(s));
        if buffers(s).state == BOUND { assert cookies(s).value in k.bound.Keys; }
      }
    }
  }

  /** A BOUND record whose cookie is given up becomes PENDING. */
  lemma DemoteBuffer(k: Kernel, k': Kernel, buffers: nat -> BufferRecord, slot: nat)
    requires BuffersOwned(k, buffers) && buffers(slot).state == BOUND
    requires k'.live == k.live && k'.bound == k.bound - {CookieOf(buffers(slot).desc)}
    ensures BuffersOwned(k', Put(buffers, slot, buffers(slot).(state := PENDING)))
  {
    var b := buffers(slot);
    var buffers' := Put(buffers, slot, b.(state := PENDING));
    LedgerSame((s: nat) => AllocationName(buffers(s)), (s: nat) => AllocationName(buffers'(s)), k.live);
    LedgerDrop((s: nat) => CookieName(buffers(s)), (s: nat) => CookieName(buffers'(s)),
               k.bound.Keys, slot, CookieOf(b.desc));
    assert k'.bound.Keys == k.bound.Keys - {CookieOf(b.desc)};
    assert BufferSound(k, b);
    forall s: nat | buffers'(s) != ZERO_BUFFER
      ensures BufferSound(k', buffers'(s))
    {
      assert BufferSound(k, buffers(s));
    }
  }

  /** A PENDING record whose allocation is freed becomes empty. */
  lemma DropBuffer(k: Kernel, k': Kernel, buffers: nat -> BufferRecord, slot: nat)
    requires BuffersOwned(k, buffers) && buffers(slot).state == PENDING
    requires k'.live == k.live - {KeyOf(buffers(slot).desc)} && k'.bound == k.bound
    ensures BuffersOwned(k', Put(buffers, slot, ZERO_BUFFER))
  {
    var b := buffers(slot);
    var buffers' := Put(buffers, slot, ZERO_BUFFER);
    LedgerDrop((s: nat) => AllocationName(buffers(s)), (s: nat) => AllocationName(buffers'(s)),
               k.live, slot, KeyOf(b.desc));
    LedgerSame((s: nat) => CookieName(buffers(s)), (s: nat) => CookieName(buffers'(s)), k.bound.Keys);
  }

  /** Only a record's own cookie can be bound to its allocation. */
  lemma BoundOnlyByItself(k: Kernel, buffers: nat -> BufferRecord, slot: nat, c: CookieKey)
    requires BuffersOwned(k, buffers) && buffers(slot) != ZERO_BUFFER
    requires c in k.bound && k.bound[c] == KeyOf(buffers(slot).desc)
    ensures buffers(slot).state == BOUND && c == CookieOf(buffers(slot).desc)
  {
    var cookies: nat -> Option<CookieKey> := (s: nat) => CookieName(buffers(s));
    var names: nat -> Option<AllocKey> := (s: nat) => AllocationName(buffers(s));
    var s: nat :| cookies(s) == Some(c);
    assert BufferSound(k, buffers(s));
    assert names(s) == names(slot);
  }

  lemma BoundIsLive(k: Kernel, buffers: nat -> BufferRecord, c: CookieKey)
    requires BuffersOwned(k, buffers) && c in k.bound
    ensures k.bound[c] in k.live
  {
    var cookies: nat -> Option<CookieKey> := (s: nat) => CookieName(buffers(s));
    var names: nat -> Option<AllocKey> := (s: nat) => AllocationName(buffers(s));
    var s: nat :| cookies(s) == Some(c);
    assert BufferSound(k, buffers(s));
    assert names(s).value in k.live;
  }

  lemma CreateKeeps(k: Kernel, buffers: nat -> BufferRecord, slot: nat, d: AllocatedBufferDesc, replies: CreateReplies)
    requires BuffersOwned(k, buffers)
    ensures var (k', b, _) := CreateBuffer(k, d, buffers(slot), replies);
            && BuffersOwned(k', Put(buffers, slot, b))
            && k'.leases == k.leases && (AllDue(k.requests) ==> AllDue(k'.requests))
  {
    forall c | c in k.bound ensures k.bound[c] in k.live { BoundIsLive(k, buffers, c); }
    CreateOutcome(k, d, buffers(slot), replies);
    var (k', b, _) := CreateBuffer(k, d, buffers(slot), replies);
    if b == buffers(slot) {
      BuffersSame(k, k', buffers, Put(buffers, slot, b));
    } else {
      AddBuffer(k, k', buffers, slot, b);
    }
  }

  lemma DestroyKeeps(k: Kernel, buffers: nat -> BufferRecord, slot: nat, unbind: Reply<()>, free: Reply<()>)
    requires BuffersOwned(k, buffers)
    ensures var (k', b, _) := DestroyBuffer(k, buffers(slot), unbind, free);
            && BuffersOwned(k', Put(buffers, slot, b))
            && k'.leases == k.leases && (AllDue(k.requests) ==> AllDue(k'.requests))
  {
    var b := buffers(slot);
    var (k', b', _) := DestroyBuffer(k, b, unbind, free);
    if b == ZERO_BUFFER {
      BuffersSame(k, k, buffers, Put(buffers, slot, b));
    } else {
      DestroyPremises(k, buffers, slot);
      DestroyOutcome(k, b, unbind, free);
      if b' == b {
        BuffersSame(k, k', buffers, Put(buffers, slot, b));
      } else {
        var pending := Put(buffers, slot, b.(state := PENDING));
        var k1 := if b.state == BOUND then k.(bound := k.bound - {CookieOf(b.desc)}) else k;
        if b.state == BOUND { DemoteBuffer(k, k1, buffers, slot); } else { BuffersSame(k, k1, buffers, pending); }
        if b' == ZERO_BUFFER {
          DropBuffer(k1, k', pending, slot);
          BuffersSame(k', k', Put(pending, slot, b'), Put(buffers, slot, b'));
        } else {
          BuffersSame(k1, k', pending, Put(buffers, slot, b'));
        }
      }
    }
  }

  lemma DestroyPremises(k: Kernel, buffers: nat -> BufferRecord, slot: nat)
    requires BuffersOwned(k, buffers) && buffers(slot) != ZERO_BUFFER
    ensures var b := buffers(slot);
            && AllocatedValid(b) && KeyOf(b.desc) in k.live
            && (b.state == BOUND ==> CookieOf(b.desc) in k.bound)
            && forall c :: c in k.bound && k.bound[c] == KeyOf(b.desc) ==> b.state == BOUND && c == CookieOf(b.desc)
  {
    var b := buffers(slot);
    var cookies: nat -> Option<CookieKey> := (s: nat) => CookieName(buffers(s));
    var names: nat -> Option<AllocKey> := (s: nat) => AllocationName(buffers(s));
    assert BufferSound(k, b);
    assert names(slot).value in k.live;
    if b.state == BOUND { assert cookies(slot).value in k.bound.Keys; }
    forall c | c in k.bound && k.bound[c] == KeyOf(b.desc)
      ensures b.state == BOUND && c == CookieOf(b.desc)
    {
      BoundOnlyByItself(k, buffers, slot, c);
    }
  }

  /** The inner map either grants one fresh lease it has validated, keeps one it could not give back, or leaves none. */
  lemma MemoryMapOutcome(machine: Machine, k: Kernel, key: AllocKey, access: bv32,
                         mapGrant: Reply<MemoryMapping>, unmap: Reply<()>)
    requires key.deviceId != 0 && key.deviceGeneration != 0 && key.allocation != 0 && MapAccessValid(access)
    ensures var (k', r, status) := MemoryMap(machine, k, key, access, mapGrant, unmap);
            var lease := LeaseKey(key, r.mapping);
            && k'.live == k.live && k'.bound == k.bound
            && (AllDue(k.requests) ==> AllDue(k'.requests))
            && if r.mapping == 0 then status != Success && k'.leases == k.leases
               else
                 && lease !in k.leases && lease in k'.leases && k'.leases == k.leases[lease := k'.leases[lease]]
                 && if status == Success
                    then
                      && MemoryMappingValid(machine, key, access, r)
                      && k'.leases[lease] == Extent(r.address, r.sizeBytes)
                    else r == RESET.(access := access, allocation := key.allocation, mapping := r.mapping,
                                     deviceGeneration := key.deviceGeneration)
  {
    var (k1, status) := KernelMap(k, key, mapGrant);
    if status == Success && mapGrant.value.mapping != 0 && !MemoryMappingValid(machine, key, access, mapGrant.value) {
      assert k1.leases - {LeaseKey(key, mapGrant.value.mapping)} == k.leases;
    }
  }

  lemma GiveBackOutcome(k: Kernel, k1: Kernel, d: BufferDesc, access: bv32, token: u64, out: Mapping, unmap: Reply<()>)
    requires BufferDescValid(d) && token != 0 && LeaseKey(KeyOf(d), token) !in k.leases
    requires LeaseKey(KeyOf(d), token) in k1.leases
    requires k1.leases == k.leases[LeaseKey(KeyOf(d), token) := k1.leases[LeaseKey(KeyOf(d), token)]]
    ensures var (k', p, status) := GiveBack(k1, d, access, token, out, unmap);
            && k'.live == k1.live && k'.bound == k1.bound && (AllDue(k1.requests) ==> AllDue(k'.requests))
            && status != Success
            && if unmap.Granted? then p == out && k'.leases == k.leases
               else p == PendingMapping(d, access, token) && k'.leases == k1.leases
  {
    assert k1.leases - {LeaseKey(KeyOf(d), token)} == k.leases;
  }

  /** One lease more than before, the one the record names; a MAPPED record views its buffer's part of it. */
  ghost predicate LeasedAs(machine: Machine, k: Kernel, k': Kernel, d: BufferDesc, p: Mapping) {
    && MappingSound(machine, k', p)
    && (p.state == BOUND ==> p.allocationOffset == d.allocationOffset && p.sizeBytes == d.sizeBytes)
    && LeaseOf(p) !in k.leases && LeaseOf(p) in k'.leases
    && k'.leases == k.leases[LeaseOf(p) := k'.leases[LeaseOf(p)]]
  }

  /** Not given back: the record keeps the token for a retry. */
  lemma PendingLeased(machine: Machine, k: Kernel, k': Kernel, d: BufferDesc, access: bv32, token: u64)
    requires BufferDescValid(d) && MapAccessValid(access) && token != 0
    requires LeaseKey(KeyOf(d), token) !in k.leases && LeaseKey(KeyOf(d), token) in k'.leases
    requires k'.leases == k.leases[LeaseKey(KeyOf(d), token) := k'.leases[LeaseKey(KeyOf(d), token)]]
    ensures LeasedAs(machine, k, k', d, PendingMapping(d, access, token))
  {
    assert LeaseOf(PendingMapping(d, access, token)) == LeaseKey(KeyOf(d), token);
  }

  /** Served: the record's view lies inside the lease. */
  lemma ViewLeased(machine: Machine, k: Kernel, k': Kernel, d: BufferDesc, access: bv32, r: MemoryMapping)
    requires BufferDescValid(d) && MapAccessValid(access)
    requires MemoryMappingValid(machine, KeyOf(d), access, r) && LeaseServes(machine, d, access, r)
    requires LeaseKey(KeyOf(d), r.mapping) !in k.leases
    requires k'.leases == k.leases[LeaseKey(KeyOf(d), r.mapping) := Extent(r.address, r.sizeBytes)]
    ensures LeasedAs(machine, k, k', d, ViewMapping(d, access, r))
  {
    SecondCleanupUnreachable(machine, d, access, r);
    assert WrapAdd(d.allocationOffset, d.sizeBytes) == d.allocationOffset + d.sizeBytes;
    var p := ViewMapping(d, access, r);
    assert LeaseOf(p) == LeaseKey(KeyOf(d), r.mapping);
    assert ViewInside(machine, p, k'.leases[LeaseOf(p)]);
  }

  /** Map ends with no lease more, or with exactly the one its record names. */
  ghost predicate MapEnded(machine: Machine, k: Kernel, d: BufferDesc, out: Mapping, k': Kernel, p: Mapping,
                           status: Status) {
    && k'.live == k.live && k'.bound == k.bound
    && (AllDue(k.requests) ==> AllDue(k'.requests))
    && if p == out then status != Success && k'.leases == k.leases
       else out == ZERO_MAPPING && (p.state == BOUND <==> status == Success) && LeasedAs(machine, k, k', d, p)
  }

  /** The kernel or the inner map refused: no lease, or one whose token is kept. */
  lemma MapRefused(machine: Machine, k: Kernel, k1: Kernel, d: BufferDesc, access: bv32, r: MemoryMapping,
                   status: Status)
    requires BufferDescValid(d) && MapAccessValid(access) && status != Success
    requires k1.live == k.live && k1.bound == k.bound && (AllDue(k.requests) ==> AllDue(k1.requests))
    requires if r.mapping == 0 then k1.leases == k.leases
             else
               && LeaseKey(KeyOf(d), r.mapping) !in k.leases && LeaseKey(KeyOf(d), r.mapping) in k1.leases
               && k1.leases == k.leases[LeaseKey(KeyOf(d), r.mapping) := k1.leases[LeaseKey(KeyOf(d), r.mapping)]]
    ensures MapEnded(machine, k, d, ZERO_MAPPING, k1,
                     if r.mapping == 0 then ZERO_MAPPING else PendingMapping(d, access, r.mapping), status)
  {
    if r.mapping != 0 { PendingLeased(machine, k, k1, d, access, r.mapping); }
  }

  /** The lease does not cover the view: it is given back, or its token is kept. */
  lemma MapGivenBack(machine: Machine, k: Kernel, k1: Kernel, d: BufferDesc, access: bv32, token: u64, unmap: Reply<()>)
    requires BufferDescValid(d) && MapAccessValid(access) && token != 0
    requires k1.live == k.live && k1.bound == k.bound && (AllDue(k.requests) ==> AllDue(k1.requests))
    requires LeaseKey(KeyOf(d), token) !in k.leases && LeaseKey(KeyOf(d), token) in k1.leases
    requires k1.leases == k.leases[LeaseKey(KeyOf(d), token) := k1.leases[LeaseKey(KeyOf(d), token)]]
    ensures var (k', p, status) := GiveBack(k1, d, access, token, ZERO_MAPPING, unmap);
            MapEnded(machine, k, d, ZERO_MAPPING, k', p, status)
  {
    GiveBackOutcome(k, k1, d, access, token, ZERO_MAPPING, unmap);
    if !unmap.Granted? {
      PendingLeased(machine, k, GiveBack(k1, d, access, token, ZERO_MAPPING, unmap).0, d, access, token);
    }
  }

  /** What map does with the answer of the inner map. */
  lemma MapOfReply(machine: Machine, k: Kernel, b: BufferRecord, access: bv32,
                   mapGrant: Reply<MemoryMapping>, unmap: Reply<()>)
    requires MapAccessValid(access) && BufferRangeValid(b, 0, b.desc.sizeBytes)
    ensures var d := b.desc;
            var (k1, r, status) := MemoryMap(machine, k, KeyOf(d), access, mapGrant, unmap);
            MapBuffer(machine, k, b, access, ZERO_MAPPING, mapGrant, unmap) ==
              if status != Success
              then (k1, if r.mapping == 0 then ZERO_MAPPING else PendingMapping(d, access, r.mapping), status)
              else if LeaseServes(machine, d, access, r) then (k1, ViewMapping(d, access, r), Success)
              else GiveBack(k1, d, access, r.mapping, ZERO_MAPPING, unmap)
  {
    var d := b.desc;
    MemoryMapOutcome(machine, k, KeyOf(d), access, mapGrant, unmap);
    var (k1, r, status) := MemoryMap(machine, k, KeyOf(d), access, mapGrant, unmap);
    if status == Success && LeaseServes(machine, d, access, r) { SecondCleanupUnreachable(machine, d, access, r); }
  }

  lemma MapOutcome(machine: Machine, k: Kernel, b: BufferRecord, access: bv32, out: Mapping,
                   mapGrant: Reply<MemoryMapping>, unmap: Reply<()>)
    ensures var (k', p, status) := MapBuffer(machine, k, b, access, out, mapGrant, unmap);
            MapEnded(machine, k, b.desc, out, k', p, status)
  {
    if MapAccessValid(access) && out == ZERO_MAPPING && BufferRangeValid(b, 0, b.desc.sizeBytes) {
      var d := b.desc;
      MapOfReply(machine, k, b, access, mapGrant, unmap);
      MemoryMapOutcome(machine, k, KeyOf(d), access, mapGrant, unmap);
      var (k1, r, status) := MemoryMap(machine, k, KeyOf(d), access, mapGrant, unmap);
      if status != Success {
        MapRefused(machine, k, k1, d, access, r, status);
      } else if LeaseServes(machine, d, access, r) {
        ViewLeased(machine, k, k1, d, access, r);
      } else {
        MapGivenBack(machine, k, k1, d, access, r.mapping, unmap);
      }
    }
  }

  /** A well-formed lease serves the buffer exactly when it covers the view. */
  lemma ServesWhenCovered(machine: Machine, d: BufferDesc, access: bv32, r: MemoryMapping)
    requires BufferDescValid(d) && MemoryMappingValid(machine, KeyOf(d), access, r)
    ensures LeaseServes(machine, d, access, r) <==> d.allocationOffset + d.sizeBytes <= r.sizeBytes
  {
    assert WrapAdd(d.allocationOffset, d.sizeBytes) == d.allocationOffset + d.sizeBytes;
  }

  lemma MemoryMapSucceeds(machine: Machine, k: Kernel, key: AllocKey, access: bv32,
                          mapGrant: Reply<MemoryMapping>, unmap: Reply<()>)
    requires key.deviceId != 0 && key.deviceGeneration != 0 && key.allocation != 0 && MapAccessValid(access)
    ensures var (_, r, status) := MemoryMap(machine, k, key, access, mapGrant, unmap);
            && (status == Success <==>
                  && mapGrant.Granted? && MemoryMappingValid(machine, key, access, mapGrant.value)
                  && LeaseKey(key, mapGrant.value.mapping) !in k.leases)
            && (status == Success ==> r == mapGrant.value)
  {
  }

  /** Map succeeds exactly when the kernel grants a fresh, well-formed lease that covers the buffer's view. */
  lemma MapSucceeds(machine: Machine, k: Kernel, b: BufferRecord, access: bv32, out: Mapping,
                    mapGrant: Reply<MemoryMapping>, unmap: Reply<()>)
    ensures MapBuffer(machine, k, b, access, out, mapGrant, unmap).2 == Success <==>
            && MapAccessValid(access) && out == ZERO_MAPPING && BufferValid(b)
            && mapGrant.Granted? && MemoryMappingValid(machine, KeyOf(b.desc), access, mapGrant.value)
            && LeaseKey(KeyOf(b.desc), mapGrant.value.mapping) !in k.leases
            && b.desc.allocationOffset + b.desc.sizeBytes <= mapGrant.value.sizeBytes
  {
    if MapAccessValid(access) && out == ZERO_MAPPING && BufferValid(b) {
      var d := b.desc;
      MemoryMapSucceeds(machine, k, KeyOf(d), access, mapGrant, unmap);
      var (_, r, status) := MemoryMap(machine, k, KeyOf(d), access, mapGrant, unmap);
      if status == Success {
        ServesWhenCovered(machine, d, access, r);
        if LeaseServes(machine, d, access, r) { SecondCleanupUnreachable(machine, d, access, r); }
      }
    }
  }

  lemma MappingsSame(machine: Machine, k: Kernel, k': Kernel, mappings: nat -> Mapping, mappings': nat -> Mapping)
    requires LeasesOwned(machine, k, mappings) && k'.leases == k.leases
    requires forall s: nat :: mappings'(s) == mappings(s)
    ensures LeasesOwned(machine, k', mappings')
  {
    LedgerSame((s: nat) => LeaseName(mappings(s)), (s: nat) => LeaseName(mappings'(s)), k.leases.Keys);
    forall s: nat | mappings'(s) != ZERO_MAPPING ensures MappingSound(machine, k', mappings'(s)) {
      assert MappingSound(machine, k, mappings(s));
    }
  }

  lemma AddMapping(machine: Machine, k: Kernel, k': Kernel, mappings: nat -> Mapping, slot: nat, d: BufferDesc,
                   p: Mapping)
    requires LeasesOwned(machine, k, mappings) && mappings(slot) == ZERO_MAPPING != p
    requires LeasedAs(machine, k, k', d, p)
    ensures LeasesOwned(machine, k', Put(mappings, slot, p))
  {
    var mappings' := Put(mappings, slot, p);
    var names: nat -> Option<LeaseKey> := (s: nat) => LeaseName(mappings(s));
    LedgerAdd(names, (s: nat) => LeaseName(mappings'(s)), k.leases.Keys, slot, LeaseOf(p));
    assert k'.leases.Keys == k.leases.Keys + {LeaseOf(p)};
    forall s: nat | mappings'(s) != ZERO_MAPPING
      ensures MappingSound(machine, k', mappings'(s))
    {
      if s != slot {
        assert names(s).value in k.leases.Keys;
        StillSound(machine, k, k', mappings(s), p);
      }
    }
  }

  /** Another lease is nothing to a record that is sound. */
  lemma StillSound(machine: Machine, k: Kernel, k': Kernel, other: Mapping, p: Mapping)
    requires MappingSound(machine, k, other) && LeaseOf(other) in k.leases
    requires LeaseOf(p) !in k.leases && LeaseOf(p) in k'.leases
    requires k'.leases == k.leases[LeaseOf(p) := k'.leases[LeaseOf(p)]]
    ensures MappingSound(machine, k', other)
  {
    assert k'.leases[LeaseOf(other)] == k.leases[LeaseOf(other)];
  }

  lemma DropMapping(machine: Machine, k: Kernel, k': Kernel, mappings: nat -> Mapping, slot: nat)
    requires LeasesOwned(machine, k, mappings) && mappings(slot) != ZERO_MAPPING
    requires k'.leases == k.leases - {LeaseOf(mappings(slot))}
    ensures LeasesOwned(machine, k', Put(mappings, slot, ZERO_MAPPING))
  {
    var mappings' := Put(mappings, slot, ZERO_MAPPING);
    var names: nat -> Option<LeaseKey> := (s: nat) => LeaseName(mappings(s));
    LedgerDrop(names, (s: nat) => LeaseName(mappings'(s)), k.leases.Keys, slot, LeaseOf(mappings(slot)));
    assert k'.leases.Keys == k.leases.Keys - {LeaseOf(mappings(slot))};
    forall s: nat | mappings'(s) != ZERO_MAPPING
      ensures MappingSound(machine, k', mappings'(s))
    {
      assert MappingSound(machine, k, mappings(s));
    }
  }

  lemma MapKeeps(machine: Machine, k: Kernel, mappings: nat -> Mapping, slot: nat, b: BufferRecord, access: bv32,
                 mapGrant: Reply<MemoryMapping>, unmap: Reply<()>)
    requires LeasesOwned(machine, k, mappings)
    ensures var (k', p, _) := MapBuffer(machine, k, b, access, mappings(slot), mapGrant, unmap);
            LeasesOwned(machine, k', Put(mappings, slot, p))
  {
    MapOutcome(machine, k, b, access, mappings(slot), mapGrant, unmap);
    var (k', p, _) := MapBuffer(machine, k, b, access, mappings(slot), mapGrant, unmap);
    if p == mappings(slot) {
      MappingsSame(machine, k, k', mappings, Put(mappings, slot, p));
    } else {
      AddMapping(machine, k, k', mappings, slot, b.desc, p);
    }
  }

  /** Unmap of a record in use succeeds exactly when the kernel agrees, and then empties it. */
  lemma UnmapKeeps(machine: Machine, k: Kernel, mappings: nat -> Mapping, slot: nat, unmap: Reply<()>)
    requires LeasesOwned(machine, k, mappings)
    ensures var (k', p, status) := UnmapBuffer(machine, k, mappings(slot), unmap);
            && LeasesOwned(machine, k', Put(mappings, slot, p))
            && k'.live == k.live && k'.bound == k.bound && (AllDue(k.requests) ==> AllDue(k'.requests))
            && (status == Success <==> mappings(slot) != ZERO_MAPPING && unmap.Granted?)
            && p == (if status == Success then ZERO_MAPPING else mappings(slot))
  {
    var p := mappings(slot);
    var (k', p', status) := UnmapBuffer(machine, k, p, unmap);
    if p != ZERO_MAPPING {
      var names: nat -> Option<LeaseKey> := (s: nat) => LeaseName(mappings(s));
      assert MappingSound(machine, k, p);
      assert names(slot).value in k.leases.Keys;
      if unmap.Granted? {
        DropMapping(machine, k, k', mappings, slot);
      }
    }
    if p' == p {
      MappingsSame(machine, k, k', mappings, Put(mappings, slot, p'));
    }
  }

  lemma StepKeepsInv(w: World, step: Step)
    requires Inv(w)
    ensures Inv(Apply(w, step))
  {
    var k, k' := w.kernel, Apply(w, step).kernel;
    match step
    case Create(slot, d, replies) =>
      CreateKeeps(k, w.buffers, slot, d, replies);
      MappingsSame(w.machine, k, k', w.mappings, w.mappings);
    case Destroy(slot, unbind, free) =>
      DestroyKeeps(k, w.buffers, slot, unbind, free);
      MappingsSame(w.machine, k, k', w.mappings, w.mappings);
    case Map(slot, b, access, mapGrant, unmap) =>
      MapOutcome(w.machine, k, b, access, w.mappings(slot), mapGrant, unmap);
      MapKeeps(w.machine, k, w.mappings, slot, b, access, mapGrant, unmap);
      BuffersSame(k, k', w.buffers, w.buffers);
    case Unmap(slot, unmap) =>
      UnmapKeeps(w.machine, k, w.mappings, slot, unmap);
      BuffersSame(k, k', w.buffers, w.buffers);
  }

  lemma StartOwnsNothing(machine: Machine)
    ensures Inv(Start(machine))
  {
    var w := Start(machine);
    forall s: nat
      ensures AllocationName(w.buffers(s)) == None && CookieName(w.buffers(s)) == None
      ensures LeaseName(w.mappings(s)) == None
    {
    }
    assert Ledger((s: nat) => AllocationName(w.buffers(s)), w.kernel.live);
    assert Ledger((s: nat) => CookieName(w.buffers(s)), w.kernel.bound.Keys);
    assert Ledger((s: nat) => LeaseName(w.mappings(s)), w.kernel.leases.Keys);
  }

  /** Over any run of calls and any replies, nothing is lost and nothing is released twice. */
  lemma {:induction false} NothingLostNothingTwice(machine: Machine, steps: seq<Step>)
    ensures Inv(Run(Start(machine), steps)) && Run(Start(machine), steps).machine == machine
  {
    if steps == [] {
      StartOwnsNothing(machine);
    } else {
      NothingLostNothingTwice(machine, steps[..|steps| - 1]);
      StepKeepsInv(Run(Start(machine), steps[..|steps| - 1]), steps[|steps| - 1]);
    }
  }

  // ---------- The calls as the source makes them, on records the caller owns ----------

  /** The kernel side of the connection; `kernel` changes only as it decides. */
  class Port {
    var kernel: Kernel

    constructor ()
      ensures kernel == Kernel({}, map[], map[], [])
    {
      kernel := Kernel({}, map[], map[], []);
    }

    method Allocate(d: u64, g: u64, a: AllocationDesc, reply: Reply<u64>) returns (status: Status, handle: u64)
      modifies this
      ensures (kernel, status, handle) == MemoryAllocate(old(kernel), d, g, a, reply)
    {
      handle := 0;
      if d == 0 || g == 0 || !AllocationDescValid(a) { return InvalidArgument, handle; }
      var (k, answer, granted) := KernelAllocate(kernel, d, g, reply);
      kernel, status, handle := k, answer, granted;
      if status == Success && handle == 0 { status := AbiMismatch; }
    }

    method Bind(desc: BufferDesc, reply: Reply<()>) returns (status: Status)
      modifies this
      ensures (kernel, status) == BufferBind(old(kernel), desc, reply)
    {
      if !BufferDescValid(desc) { return InvalidArgument; }
      var (k, answer) := KernelBind(kernel, CookieOf(desc), KeyOf(desc), reply);
      kernel, status := k, answer;
    }

    method Unbind(b: BufferRecord, reply: Reply<()>) returns (status: Status)
      modifies this
      ensures (kernel, status) == BufferUnbind(old(kernel), b, reply)
    {
      if !BufferValid(b) { return InvalidArgument; }
      var (k, answer) := KernelUnbind(kernel, CookieOf(b.desc), reply);
      kernel, status := k, answer;
    }

    method Free(key: AllocKey, reply: Reply<()>) returns (status: Status)
      modifies this
      ensures (kernel, status) == MemoryDestroy(old(kernel), key, reply)
    {
      if key.deviceId == 0 || key.deviceGeneration == 0 || key.allocation == 0 { return InvalidArgument; }
      var (k, answer) := KernelFree(kernel, key, reply);
      kernel, status := k, answer;
    }

    method Release(lease: LeaseKey, reply: Reply<()>) returns (status: Status)
      modifies this
      ensures (kernel, status) == MemoryUnmap(old(kernel), lease, reply)
    {
      var key := lease.alloc;
      if key.deviceId == 0 || key.deviceGeneration == 0 || key.allocation == 0 || lease.token == 0 {
        return InvalidArgument;
      }
      var (k, answer) := KernelUnmap(kernel, lease, reply);
      kernel, status := k, answer;
    }

    method MapMemory(machine: Machine, key: AllocKey, access: bv32, mapGrant: Reply<MemoryMapping>, unmap: Reply<()>)
      returns (r: MemoryMapping, status: Status)
      modifies this
      ensures (kernel, r, status) == MemoryMap(machine, old(kernel), key, access, mapGrant, unmap)
    {
      r := RESET;
      if key.deviceId == 0 || key.deviceGeneration == 0 || key.allocation == 0 || !MapAccessValid(access) {
        return r, InvalidArgument;
      }
      var (k, answer) := KernelMap(kernel, key, mapGrant);
      kernel, status := k, answer;
      if status != Success { return; }
      r := mapGrant.value;
      if MemoryMappingValid(machine, key, access, r) { return; }
      var token := r.mapping;
      r := RESET;
      if token != 0 {
        status := Release(LeaseKey(key, token), unmap);
        if status != Success {
          r := r.(access := access, allocation := key.allocation, mapping := token,
                  deviceGeneration := key.deviceGeneration);
          return;
        }
      }
      status := AbiMismatch;
    }
  }

  /** The caller's storage for an allocated buffer. */
  class BufferSlot {
    var record: BufferRecord

    constructor ()
      ensures record == ZERO_BUFFER
    {
      record := ZERO_BUFFER;
    }

    method Create(port: Port, d: AllocatedBufferDesc, replies: CreateReplies) returns (status: Status)
      modifies this, port
      ensures (port.kernel, record, status) == CreateBuffer(old(port.kernel), d, old(record), replies)
    {
      if !AllocatedDescValid(d) { return InvalidArgument; }
      if record != ZERO_BUFFER { return if AllocatedValid(record) then Busy else InvalidArgument; }
      var handle;
      status, handle := port.Allocate(d.deviceId, d.deviceGeneration, d.allocation, replies.allocate);
      if status != Success { return; }
      var desc := DescFor(d, handle);
      status := port.Bind(desc, replies.bind);
      if status != Success {
        var cleanup := port.Free(KeyOf(desc), replies.free);
        if cleanup != Success {
          record := BufferRecord(BUFFER_SIZE, VERSION, PENDING, 0, desc);
          status := cleanup;
        }
        return;
      }
      record := BufferRecord(BUFFER_SIZE, VERSION, BOUND, 0, desc);
    }

    method Destroy(port: Port, unbind: Reply<()>, free: Reply<()>) returns (status: Status)
      modifies this, port
      ensures (port.kernel, record, status) == DestroyBuffer(old(port.kernel), old(record), unbind, free)
    {
      var copy := record;
      if !AllocatedValid(copy) { return InvalidArgument; }
      if copy.state == BOUND {
        status := port.Unbind(copy, unbind);
        if status != Success { return; }
        copy := copy.(state := PENDING);
      }
      status := port.Free(KeyOf(copy.desc), free);
      record := if status == Success then ZERO_BUFFER else copy;
    }
  }

  /** The caller's storage for a CPU mapping. */
  class MappingSlot {
    var record: Mapping

    constructor ()
      ensures record == ZERO_MAPPING
    {
      record := ZERO_MAPPING;
    }

    method GiveLeaseBack(port: Port, d: BufferDesc, access: bv32, token: u64, unmap: Reply<()>) returns (status: Status)
      modifies this, port
      ensures (port.kernel, record, status) == GiveBack(old(port.kernel), d, access, token, old(record), unmap)
    {
      status := port.Release(LeaseKey(KeyOf(d), token), unmap);
      if status == Success { return AbiMismatch; }
      record := PendingMapping(d, access, token);
    }

    method Map(machine: Machine, port: Port, b: BufferRecord, access: bv32, mapGrant: Reply<MemoryMapping>,
               unmap: Reply<()>)
      returns (status: Status)
      modifies this, port
      ensures (port.kernel, record, status) ==
              MapBuffer(machine, old(port.kernel), b, access, old(record), mapGrant, unmap)
    {
      if !MapAccessValid(access) { return InvalidArgument; }
      if record != ZERO_MAPPING { return if MappingValid(machine, record) then Busy else InvalidArgument; }
      if !BufferRangeValid(b, 0, b.desc.sizeBytes) { return InvalidArgument; }
      var d := b.desc;
      var r;
      r, status := port.MapMemory(machine, KeyOf(d), access, mapGrant, unmap);
      if status != Success {
        if r.mapping != 0 && r == RESET.(access := access, allocation := d.allocation, mapping := r.mapping,
                                         deviceGeneration := d.deviceGeneration) {
          record := PendingMapping(d, access, r.mapping);
        }
        return;
      }
      if !LeaseServes(machine, d, access, r) {
        status := GiveLeaseBack(port, d, access, r.mapping, unmap);
        return;
      }
      var viewAddress := WrapAdd(r.address, d.allocationOffset);
      if ViewWraps(machine, d, viewAddress) {
        status := GiveLeaseBack(port, d, access, r.mapping, unmap);
        return;
      }
      record := Mapping(MAPPING_SIZE, VERSION, BOUND, access, d.deviceId, d.deviceGeneration, d.allocation, r.mapping,
                        viewAddress, d.allocationOffset, d.sizeBytes, 0);
    }

    method Unmap(machine: Machine, port: Port, unmap: Reply<()>) returns (status: Status)
      modifies this, port
      ensures (port.kernel, record, status) == UnmapBuffer(machine, old(port.kernel), old(record), unmap)
    {
      if !MappingValid(machine, record) { return InvalidArgument; }
      status := port.Release(LeaseOf(record), unmap);
      if status == Success { record := ZERO_MAPPING; }
    }
  }
}
