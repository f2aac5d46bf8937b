/** secure_memory_allocate, _wipe and _free over one flat memory; only mapped addresses are in its domain. */
module SecureHeap {
  import opened Bytes
  import opened SecureMemory

  /** An unsigned byte as a number; bit operations go through `byte`. */
  type Octet = x: nat | x < 256

  type Memory = map<nat, Octet>

  const PREFIX := PAGE + HEADER  // from the mapping's start to the user block

  // ---------------------------------------------------------------- reading and writing integers, little endian

  /** Every address of [at, end). */
  predicate Mapped(m: Memory, at: nat, end: nat) {
    forall a :: at <= a < end ==> a in m
  }

  predicate Agree(m: Memory, k: Memory, at: nat, end: nat) {
    forall a :: at <= a < end ==> a in m && a in k && m[a] == k[a]
  }

  /** The integer stored in [at, end). */
  function Read(m: Memory, at: nat, end: nat): nat
    requires Mapped(m, at, end)
    decreases end - at
  {
    if at >= end then 0 else m[at] + 256 * Read(m, at + 1, end)
  }

  function Write(m: Memory, at: nat, end: nat, value: nat): (r: Memory)
    requires Mapped(m, at, end)
    ensures r.Keys == m.Keys
    decreases end - at
  {
    if at >= end then m else Write(m[at := value % 256], at + 1, end, value / 256)
  }

  lemma {:induction false} WriteKeeps(m: Memory, at: nat, end: nat, value: nat, a: nat)
    requires Mapped(m, at, end) && a in m && !(at <= a < end)
    ensures a in Write(m, at, end, value) && Write(m, at, end, value)[a] == m[a]
    decreases end - at
  {
    if at < end {
      WriteKeeps(m[at := value % 256], at + 1, end, value / 256, a);
    }
  }

  function Pow256(n: nat): (p: nat)
    ensures p > 0
  {
    if n == 0 then 1 else 256 * Pow256(n - 1)
  }

  lemma {:induction false} ReadDependsOnRange(m: Memory, k: Memory, at: nat, end: nat)
    requires Agree(m, k, at, end)
    ensures Read(m, at, end) == Read(k, at, end)
    decreases end - at
  {
    if at < end {
      ReadDependsOnRange(m, k, at + 1, end);
    }
  }

  lemma {:induction false} ReadBack(m: Memory, at: nat, end: nat, value: nat)
    requires Mapped(m, at, end) && at <= end && value < Pow256(end - at)
    ensures Read(Write(m, at, end, value), at, end) == value
    decreases end - at
  {
    if at < end {
      var k := m[at := value % 256];
      ReadBack(k, at + 1, end, value / 256);
      WriteKeeps(k, at + 1, end, value / 256, at);
    }
  }

  // ---------------------------------------------------------------- the allocation header

  datatype Header = Header(magic: nat, size: nat, canary: nat)

  function ReadHeader(m: Memory, at: nat): Header
    requires Mapped(m, at, at + HEADER)
  {
    Header(Read(m, at, at + 4), Read(m, at + 8, at + 16), Read(m, at + 32, at + 36))
  }

  /** An integer field at [from, to) of a struct. */
  datatype Field = Field(from: nat, to: nat, value: nat)

  predicate Holdable(f: Field) {
    f.from <= f.to <= HEADER && f.value < Pow256(f.to - f.from)
  }

  predicate Disjoint(f: Field, g: Field) {
    f.to <= g.from || g.to <= f.from
  }

  predicate InHeader(fields: seq<Field>) {
    forall k :: 0 <= k < |fields| ==> fields[k].to <= HEADER
  }

  /** Assigns the first n fields, one after the other. */
  function StoreFields(m: Memory, at: nat, fields: seq<Field>, n: nat): (r: Memory)
    requires Mapped(m, at, at + HEADER) && InHeader(fields) && n <= |fields|
    ensures r.Keys == m.Keys
  {
    if n == 0 then m
    else
      var f := fields[n - 1];
      Write(StoreFields(m, at, fields, n - 1), at + f.from, at + f.to, f.value)
  }

  lemma LastFieldReads(m: Memory, k: Memory, at: nat, f: Field)
    requires Mapped(m, at, at + HEADER) && Holdable(f) && k == Write(m, at + f.from, at + f.to, f.value)
    ensures Read(k, at + f.from, at + f.to) == f.value
  {
    ReadBack(m, at + f.from, at + f.to, f.value);
  }

  lemma EarlierFieldKept(m: Memory, k: Memory, at: nat, f: Field, g: Field)
    requires Mapped(m, at, at + HEADER) && f.to <= HEADER && g.to <= HEADER && Disjoint(f, g)
    requires k == Write(m, at + g.from, at + g.to, g.value)
    ensures Read(k, at + f.from, at + f.to) == Read(m, at + f.from, at + f.to)
  {
    forall a | at + f.from <= a < at + f.to ensures a in k && k[a] == m[a] {
      WriteKeeps(m, at + g.from, at + g.to, g.value, a);
    }
    ReadDependsOnRange(m, k, at + f.from, at + f.to);
  }

  /** Field i is assigned among the first n, and no later one of them overlaps it. */
  predicate Survives(fields: seq<Field>, n: nat, i: nat)
    requires n <= |fields|
  {
    && i < n && Holdable(fields[i])
    && forall k :: i < k < n ==> Disjoint(fields[i], fields[k])
  }

  /** The value found in a field. */
  function FieldOf(m: Memory, at: nat, f: Field): nat
    requires Mapped(m, at, at + HEADER) && f.to <= HEADER
  {
    Read(m, at + f.from, at + f.to)
  }

  lemma StoredLast(m: Memory, at: nat, fields: seq<Field>, n: nat)
    requires Mapped(m, at, at + HEADER) && InHeader(fields) && 0 < n <= |fields| && Holdable(fields[n - 1])
    ensures FieldOf(StoreFields(m, at, fields, n), at, fields[n - 1]) == fields[n - 1].value
  {
    LastFieldReads(StoreFields(m, at, fields, n - 1), StoreFields(m, at, fields, n), at, fields[n - 1]);
  }

  lemma StoredEarlier(m: Memory, at: nat, fields: seq<Field>, n: nat, f: Field)
    requires Mapped(m, at, at + HEADER) && InHeader(fields) && 0 < n <= |fields|
    requires f.to <= HEADER && Disjoint(f, fields[n - 1])
    ensures FieldOf(StoreFields(m, at, fields, n), at, f) == FieldOf(StoreFields(m, at, fields, n - 1), at, f)
  {
    EarlierFieldKept(StoreFields(m, at, fields, n - 1), StoreFields(m, at, fields, n), at, f, fields[n - 1]);
  }

  lemma {:induction false} FieldReadsBack(m: Memory, at: nat, fields: seq<Field>, n: nat, i: nat)
    requires Mapped(m, at, at + HEADER) && InHeader(fields) && n <= |fields| && Survives(fields, n, i)
    ensures FieldOf(StoreFields(m, at, fields, n), at, fields[i]) == fields[i].value
  {
    if i == n - 1 {
      StoredLast(m, at, fields, n);
    } else {
      FieldReadsBack(m, at, fields, n - 1, i);
      StoredEarlier(m, at, fields, n, fields[i]);
    }
  }

  lemma {:induction false} StoreKeeps(m: Memory, at: nat, fields: seq<Field>, n: nat, a: nat)
    requires Mapped(m, at, at + HEADER) && InHeader(fields) && n <= |fields|
    requires a in m && !(at <= a < at + HEADER)
    ensures a in StoreFields(m, at, fields, n) && StoreFields(m, at, fields, n)[a] == m[a]
  {
    if n > 0 {
      StoreKeeps(m, at, fields, n - 1, a);
      var f := fields[n - 1];
      WriteKeeps(StoreFields(m, at, fields, n - 1), at + f.from, at + f.to, f.value, a);
    }
  }

  function HeaderFields(size: nat, level: nat, time: nat): (fields: seq<Field>)
    ensures InHeader(fields)
  {
    [Field(0, 4, MAGIC), Field(8, 16, size), Field(16, 20, level), Field(24, 32, time), Field(32, 36, CANARY)]
  }

  function WriteHeader(m: Memory, at: nat, size: nat, level: nat, time: nat): (r: Memory)
    requires Mapped(m, at, at + HEADER)
    ensures r.Keys == m.Keys
    ensures forall a :: a in m && !(at <= a < at + HEADER) ==> r[a] == m[a]
  {
    var fields := HeaderFields(size, level, time);
    assert forall a :: a in m && !(at <= a < at + HEADER) ==> StoreFields(m, at, fields, |fields|)[a] == m[a] by {
      forall a | a in m && !(at <= a < at + HEADER) ensures StoreFields(m, at, fields, |fields|)[a] == m[a] {
        StoreKeeps(m, at, fields, |fields|, a);
      }
    }
    StoreFields(m, at, fields, |fields|)
  }

  lemma Powers256()
    ensures Pow256(4) == 0x1_0000_0000 && Pow256(8) == SIZE_MAX + 1
  {
  }

  lemma HeaderFieldSurvives(size: nat, level: nat, time: nat, i: nat)
    requires size <= SIZE_MAX && level <= 0xFFFF_FFFF && time <= SIZE_MAX && i < 5
    ensures Survives(HeaderFields(size, level, time), 5, i)
  {
    Powers256();
  }

  /** The five field stores do not overlap: each is read back, at its own offset. */
  lemma {:induction false} HeaderReadsBack(m: Memory, at: nat, size: nat, level: nat, time: nat)
    requires Mapped(m, at, at + HEADER) && size <= SIZE_MAX
    ensures ReadHeader(WriteHeader(m, at, size, level, time), at) == Header(MAGIC, size, CANARY)
    ensures level <= 0xFFFF_FFFF && time <= SIZE_MAX ==>
              && Read(WriteHeader(m, at, size, level, time), at + 16, at + 20) == level
              && Read(WriteHeader(m, at, size, level, time), at + 24, at + 32) == time
  {
    var fields := HeaderFields(size, level, time);
    Powers256();
    FieldReadsBack(m, at, fields, 5, 0);
    FieldReadsBack(m, at, fields, 5, 1);
    FieldReadsBack(m, at, fields, 5, 4);
    if level <= 0xFFFF_FFFF && time <= SIZE_MAX {
      HeaderFieldSurvives(size, level, time, 2);
      HeaderFieldSurvives(size, level, time, 3);
      FieldReadsBack(m, at, fields, 5, 2);
      FieldReadsBack(m, at, fields, 5, 3);
    }
  }

  // ---------------------------------------------------------------- the heap as a value

  /** A block handed out: the size asked for and the length of the mapping behind it. */
  datatype Block = Block(size: nat, length: nat)

  /** The mapped memory, and the blocks handed out and not yet freed. */
  datatype Heap = Heap(memory: Memory, live: map<nat, Block>)

  /** The user block and both guard pages fit the mapping, with less than a page to spare. */
  predicate Tight(b: Block) {
    && 0 < b.size && Fits(b.size)
    && b.length % PAGE == 0
    && PREFIX + b.size + PAGE <= b.length < PREFIX + b.size + PAGE + PAGE
  }

  /** The mapping behind the block at ptr. */
  predicate InRegion(ptr: nat, b: Block, a: nat) {
    ptr - PREFIX <= a < ptr - PREFIX + b.length
  }

  predicate Apart(p: nat, b: Block, q: nat, c: Block) {
    p - PREFIX + b.length <= q - PREFIX || q - PREFIX + c.length <= p - PREFIX
  }

  /** A live block: page aligned, entirely mapped. */
  predicate Placed(m: Memory, ptr: nat, b: Block) {
    && Tight(b)
    && ptr >= PREFIX && (ptr - PREFIX) % PAGE == 0
    && Mapped(m, ptr - PREFIX, ptr - PREFIX + b.length)
  }

  /** Its header as it was written. */
  predicate Marked(m: Memory, ptr: nat, b: Block) {
    && ptr >= PREFIX && Mapped(m, ptr - HEADER, ptr)
    && ReadHeader(m, ptr - HEADER) == Header(MAGIC, b.size, CANARY)
  }

  predicate BlockOk(h: Heap, p: nat) {
    p in h.live ==> Placed(h.memory, p, h.live[p]) && Marked(h.memory, p, h.live[p])
  }

  predicate PairOk(h: Heap, p: nat, q: nat) {
    p in h.live && q in h.live && p != q ==> Apart(p, h.live[p], q, h.live[q])
  }

  ghost predicate Covered(h: Heap, a: nat) {
    a in h.memory ==> exists p :: p in h.live && InRegion(p, h.live[p], a)
  }

  /** The mapped memory is the disjoint union of the live blocks' regions, and every header is intact. */
  ghost predicate Valid(h: Heap) {
    && (forall p :: BlockOk(h, p))
    && (forall p, q :: PairOk(h, p, q))
    && (forall a :: Covered(h, a))
  }

  /** What mmap promises: a page-aligned run of unmapped addresses inside the address space. */
  predicate Fresh(m: Memory, base: nat, total: nat) {
    && base > 0 && base % PAGE == 0 && base + total <= SIZE_MAX
    && forall a :: base <= a < base + total ==> a !in m
  }

  /** (uint8_t)(i ^ 0x42). */
  function Pattern(i: nat): Octet {
    (ByteOf(i) ^ 0x42) as nat
  }

  function InitialByte(level: nat, contextExists: bool, i: nat): Octet {
    if level == LEVEL_MAXIMUM && contextExists then Pattern(i)
    else if level == LEVEL_MAXIMUM || level == LEVEL_HIGH then 0xAA
    else 0
  }

  predicate Within(base: nat, total: nat, a: nat) {
    base <= a < base + total
  }

  function Mmap(m: Memory, base: nat, total: nat): Memory {
    m + map a | base <= a < base + total && Within(base, total, a) :: 0
  }

  function Munmap(m: Memory, base: nat, total: nat): Memory {
    map a | a in m && !(base <= a < base + total) :: m[a]
  }

  function Content(level: nat, contextExists: bool): nat -> Octet {
    (i: nat) => InitialByte(level, contextExists, i)
  }

  /** What each security level writes into a new block. */
  lemma {:induction false} InitialBytes(level: nat, contextExists: bool, i: nat)
    ensures level < 3 || level > 4 ==> Content(level, contextExists)(i) == 0
    ensures level == 3 || (level == 4 && !contextExists) ==> Content(level, contextExists)(i) == 0xAA
    ensures level == 4 && contextExists ==> Content(level, contextExists)(i) as bv8 == ByteOf(i) ^ 0x42
  {
    ByteOfNatOfByte(ByteOf(i) ^ 0x42);
  }

  function FillBlock(m: Memory, ptr: nat, size: nat, content: nat -> Octet): Memory {
    map a | a in m :: if ptr <= a < ptr + size then content(a - ptr) else m[a]
  }

  datatype Request = Request(size: nat, level: nat, time: nat, contextExists: bool, mapping: Option<nat>)

  lemma MmapMaps(m: Memory, base: nat, total: nat)
    ensures Mapped(Mmap(m, base, total), base, base + total)
  {
    assert forall a :: base <= a < base + total ==> Within(base, total, a);
  }

  /** The fresh mapping, its header and its initial content. */
  function Formatted(m: Memory, base: nat, total: nat, r: Request): Memory
    requires PREFIX + r.size + PAGE <= total
  {
    MmapMaps(m, base, total);
    var mapped := Mmap(m, base, total);
    var headed := WriteHeader(mapped, base + PAGE, r.size, r.level, r.time);
    FillBlock(headed, base + PREFIX, r.size, Content(r.level, r.contextExists))
  }

  predicate Succeeds(r: Request) {
    r.size > 0 && r.mapping.Some?
  }

  /** What a call may assume: mmap keeps its promise when it succeeds, and is not asked for a wrapped length. */
  predicate Served(h: Heap, r: Request) {
    Succeeds(r) ==> Fits(r.size) && Fresh(h.memory, r.mapping.value, TotalSize(r.size))
  }

  /** The new heap, and the pointer returned (0 is NULL). */
  function Allocate(h: Heap, r: Request): (Heap, nat)
    requires Served(h, r)
  {
    if r.size == 0 || r.mapping.None? then (h, 0)
    else
      var base := r.mapping.value;
      RegionHolds(r.size);
      var ptr := base + PREFIX;
      (Heap(Formatted(h.memory, base, TotalSize(r.size), r), h.live[ptr := Block(r.size, TotalSize(r.size))]), ptr)
  }

  function Wiped(m: Memory, ptr: nat, size: nat): Memory {
    map a | a in m :: if ptr <= a < ptr + size then 0 else m[a]
  }

  /** A readable header and, when its marks are right, a mapped block behind it. */
  predicate Freeable(m: Memory, ptr: nat) {
    && ptr >= PREFIX && Mapped(m, ptr - HEADER, ptr)
    && var header := ReadHeader(m, ptr - HEADER);
       header.magic == MAGIC && header.canary == CANARY ==> Mapped(m, ptr, ptr + header.size)
  }

  /** Frees what the header says, after checking both marks. */
  function Free(h: Heap, ptr: nat): Heap
    requires ptr == 0 || Freeable(h.memory, ptr)
  {
    if ptr == 0 then h
    else
      var header := ReadHeader(h.memory, ptr - HEADER);
      if header.magic != MAGIC || header.canary != CANARY then h
      else Heap(Munmap(Wiped(h.memory, ptr, header.size), ptr - PREFIX, TotalSize(header.size)), h.live - {ptr})
  }

  function Store(h: Heap, ptr: nat, i: nat, value: Octet): Heap {
    h.(memory := h.memory[ptr + i := value])
  }

  lemma RegionHolds(size: nat)
    requires Fits(size)
    ensures TotalSize(size) % PAGE == 0
    ensures PREFIX + size + PAGE <= TotalSize(size) < PREFIX + size + PAGE + PAGE
  {
    TotalIsRoundedUp(size);
  }

  /** The length free computes from the header is the length allocate asked mmap for. */
  lemma SameLength(b: Block)
    requires Tight(b)
    ensures TotalSize(b.size) == b.length
  {
    RegionHolds(b.size);
  }

  // ---------------------------------------------------------------- what every operation keeps

  /** Memory that agrees on a block's header bytes keeps its marks. */
  lemma MarksKept(m: Memory, k: Memory, ptr: nat, b: Block)
    requires Marked(m, ptr, b) && Agree(m, k, ptr - HEADER, ptr)
    ensures Marked(k, ptr, b)
  {
    var at := ptr - HEADER;
    ReadDependsOnRange(m, k, at, at + 4);
    ReadDependsOnRange(m, k, at + 8, at + 16);
    ReadDependsOnRange(m, k, at + 32, at + 36);
  }

  /** The header of one live block lies outside the user bytes of every live block. */
  lemma HeaderOutsideBlocks(h: Heap, p: nat, ptr: nat, a: nat)
    requires Valid(h) && p in h.live && ptr in h.live && p - HEADER <= a < p
    ensures a in h.memory && !(ptr <= a < ptr + h.live[ptr].size)
  {
    assert BlockOk(h, p) && BlockOk(h, ptr) && PairOk(h, p, ptr);
  }

  /** Changing only user bytes of a live block keeps everything. */
  lemma OverwriteKeepsValid(h: Heap, ptr: nat, m: Memory)
    requires Valid(h) && ptr in h.live && m.Keys == h.memory.Keys
    requires forall a :: a in m && !(ptr <= a < ptr + h.live[ptr].size) ==> m[a] == h.memory[a]
    ensures Valid(h.(memory := m))
  {
    var k := h.(memory := m);
    forall p: nat ensures BlockOk(k, p) {
      assert BlockOk(h, p);
      if p in h.live {
        forall a | p - HEADER <= a < p ensures a in h.memory && a in m && m[a] == h.memory[a] {
          HeaderOutsideBlocks(h, p, ptr, a);
        }
        MarksKept(h.memory, m, p, h.live[p]);
      }
    }
    forall p: nat, q: nat ensures PairOk(k, p, q) {
      assert PairOk(h, p, q);
    }
    forall a: nat ensures Covered(k, a) {
      assert Covered(h, a);
    }
  }

  /** A stored byte is read back, and no other byte of the memory changes. */
  lemma {:induction false} StoreReadsBack(h: Heap, ptr: nat, i: nat, value: Octet)
    requires Valid(h) && ptr in h.live && i < h.live[ptr].size
    ensures var k := Store(h, ptr, i, value);
            && k.live == h.live && k.memory.Keys == h.memory.Keys && k.memory[ptr + i] == value
            && forall a :: a in h.memory && a != ptr + i ==> k.memory[a] == h.memory[a]
  {
    assert BlockOk(h, ptr);
  }

  /** A block whose magic number or canary was overwritten is not freed: nothing is unmapped. */
  lemma {:induction false} DamagedHeaderKept(h: Heap, ptr: nat)
    requires ptr != 0 && Freeable(h.memory, ptr)
    requires Read(h.memory, ptr - 40, ptr - 36) != 0xDEADBEEF || Read(h.memory, ptr - 8, ptr - 4) != 0xCAFEBABE
    ensures Free(h, ptr) == h
  {
  }

  lemma StoreKeepsValid(h: Heap, ptr: nat, i: nat, value: Octet)
    requires Valid(h) && ptr in h.live && i < h.live[ptr].size
    ensures Valid(Store(h, ptr, i, value))
  {
    assert BlockOk(h, ptr);
    OverwriteKeepsValid(h, ptr, Store(h, ptr, i, value).memory);
  }

  /** The mapping, the header and the filled block leave all older memory alone. */
  lemma FormattedExtends(m: Memory, base: nat, total: nat, r: Request)
    requires PREFIX + r.size + PAGE <= total && Fresh(m, base, total)
    ensures forall a :: a in Formatted(m, base, total, r) <==> a in m || Within(base, total, a)
    ensures forall a :: a in m ==> Formatted(m, base, total, r)[a] == m[a]
  {
  }

  lemma FormattedMarked(m: Memory, base: nat, total: nat, r: Request)
    requires PREFIX + r.size + PAGE <= total && r.size <= SIZE_MAX
    ensures Marked(Formatted(m, base, total, r), base + PREFIX, Block(r.size, total))
  {
    MmapMaps(m, base, total);
    var mapped := Mmap(m, base, total);
    var headed := WriteHeader(mapped, base + PAGE, r.size, r.level, r.time);
    HeaderReadsBack(mapped, base + PAGE, r.size, r.level, r.time);
    assert Agree(headed, Formatted(m, base, total, r), base + PAGE, base + PREFIX);
    MarksKept(headed, Formatted(m, base, total, r), base + PREFIX, Block(r.size, total));
  }

  /** k is h with one more block, mapped where nothing was. */
  ghost predicate Grew(h: Heap, k: Heap, ptr: nat, b: Block) {
    && Placed(k.memory, ptr, b) && Marked(k.memory, ptr, b)
    && k.live == h.live[ptr := b]
    && (forall a :: a in k.memory <==> a in h.memory || InRegion(ptr, b, a))
    && (forall a :: a in h.memory ==> k.memory[a] == h.memory[a])
    && (forall a :: InRegion(ptr, b, a) ==> a !in h.memory)
  }

  lemma GrewFrom(h: Heap, k: Heap, base: nat, b: Block)
    requires Tight(b) && Fresh(h.memory, base, b.length) && k.live == h.live[base + PREFIX := b]
    requires forall a :: a in k.memory <==> a in h.memory || Within(base, b.length, a)
    requires forall a :: a in h.memory ==> k.memory[a] == h.memory[a]
    requires Marked(k.memory, base + PREFIX, b)
    ensures Grew(h, k, base + PREFIX, b)
  {
    assert forall a :: InRegion(base + PREFIX, b, a) <==> Within(base, b.length, a);
    assert forall a :: base <= a < base + b.length ==> Within(base, b.length, a);
  }

  lemma AllocateGrows(h: Heap, r: Request)
    requires Served(h, r) && Succeeds(r)
    ensures var (k, ptr) := Allocate(h, r); Grew(h, k, ptr, Block(r.size, TotalSize(r.size)))
  {
    var base, total := r.mapping.value, TotalSize(r.size);
    RegionHolds(r.size);
    FormattedExtends(h.memory, base, total, r);
    FormattedMarked(h.memory, base, total, r);
    GrewFrom(h, Allocate(h, r).0, base, Block(r.size, total));
  }

  lemma MmapZeroes(m: Memory, base: nat, total: nat, a: nat)
    requires base <= a < base + total
    ensures a in Mmap(m, base, total) && Mmap(m, base, total)[a] == 0
  {
    assert Within(base, total, a);
  }

  lemma HeaderKeepsAbove(m: Memory, at: nat, r: Request, a: nat)
    requires Mapped(m, at, at + HEADER) && a in m && a >= at + HEADER
    ensures var headed := WriteHeader(m, at, r.size, r.level, r.time); a in headed && headed[a] == m[a]
  {
  }

  lemma HeadedZeroes(m: Memory, base: nat, total: nat, r: Request, a: nat)
    requires PREFIX + r.size + PAGE <= total && base + PREFIX <= a < base + total
    ensures Mapped(Mmap(m, base, total), base + PAGE, base + PAGE + HEADER)
    ensures var headed := WriteHeader(Mmap(m, base, total), base + PAGE, r.size, r.level, r.time);
            a in headed && headed[a] == 0
  {
    MmapMaps(m, base, total);
    MmapZeroes(m, base, total, a);
    HeaderKeepsAbove(Mmap(m, base, total), base + PAGE, r, a);
  }

  lemma FilledContents(m: Memory, ptr: nat, size: nat, content: nat -> Octet, a: nat)
    requires a in m && a >= ptr
    ensures var f := FillBlock(m, ptr, size, content);
            a in f && f[a] == if a < ptr + size then content(a - ptr) else m[a]
  {
  }

  /** A new block holds the level's pattern in all of its bytes, and zeros in the slack behind them. */
  lemma {:induction false} FormattedContents(m: Memory, base: nat, total: nat, r: Request, a: nat)
    requires PREFIX + r.size + PAGE <= total && base + PREFIX <= a < base + total
    ensures var f, ptr := Formatted(m, base, total, r), base + PREFIX;
            a in f && f[a] == if a < ptr + r.size then Content(r.level, r.contextExists)(a - ptr) else 0
  {
    HeadedZeroes(m, base, total, r, a);
    var headed := WriteHeader(Mmap(m, base, total), base + PAGE, r.size, r.level, r.time);
    FilledContents(headed, base + PREFIX, r.size, Content(r.level, r.contextExists), a);
  }

  lemma GrewIsNew(h: Heap, k: Heap, ptr: nat, b: Block)
    requires Valid(h) && Grew(h, k, ptr, b)
    ensures ptr !in h.live
  {
    assert BlockOk(h, ptr);
    assert InRegion(ptr, b, ptr);
  }

  lemma GrewApart(h: Heap, k: Heap, ptr: nat, b: Block, p: nat)
    requires Valid(h) && Grew(h, k, ptr, b) && p in h.live
    ensures Apart(p, h.live[p], ptr, b)
  {
    assert BlockOk(h, p);
    var common := if p < ptr then ptr - PREFIX else p - PREFIX;
    assert InRegion(ptr, b, common) ==> common !in h.memory;
  }

  lemma GrewCovered(h: Heap, k: Heap, ptr: nat, b: Block, a: nat)
    requires Valid(h) && Grew(h, k, ptr, b)
    ensures Covered(k, a)
  {
    GrewIsNew(h, k, ptr, b);
    assert Covered(h, a);
    if a in h.memory {
      var p :| p in h.live && InRegion(p, h.live[p], a);
      assert p in k.live && InRegion(p, k.live[p], a);
    } else if a in k.memory {
      assert InRegion(ptr, k.live[ptr], a);
    }
  }

  lemma GrewValid(h: Heap, k: Heap, ptr: nat, b: Block)
    requires Valid(h) && Grew(h, k, ptr, b)
    ensures Valid(k)
  {
    forall p: nat ensures BlockOk(k, p) {
      assert BlockOk(h, p);
      if p in h.live && p != ptr {
        MarksKept(h.memory, k.memory, p, h.live[p]);
      }
    }
    forall p: nat, q: nat ensures PairOk(k, p, q) {
      assert PairOk(h, p, q);
      if p in h.live && q == ptr {
        GrewApart(h, k, ptr, b, p);
      }
      if q in h.live && p == ptr {
        GrewApart(h, k, ptr, b, q);
      }
    }
    forall a: nat ensures Covered(k, a) {
      GrewCovered(h, k, ptr, b, a);
    }
  }

  lemma {:induction false} AllocateKeepsValid(h: Heap, r: Request)
    requires Valid(h) && Served(h, r)
    ensures Valid(Allocate(h, r).0)
    ensures !Succeeds(r) ==> Allocate(h, r) == (h, 0)
    ensures Succeeds(r) ==>
              && Allocate(h, r).1 == r.mapping.value + 4096 + 40
              && Allocate(h, r).0.live == h.live[Allocate(h, r).1 := Block(r.size, TotalSize(r.size))]
  {
    if Succeeds(r) {
      AllocateGrows(h, r);
      var (k, ptr) := Allocate(h, r);
      GrewValid(h, k, ptr, Block(r.size, TotalSize(r.size)));
    }
  }

  /** Freeing a live block unmaps exactly its region, and nothing else changes. */
  lemma {:induction false} FreeUnmapsExactly(h: Heap, ptr: nat)
    requires Valid(h) && ptr in h.live
    ensures BlockOk(h, ptr) && Free(h, ptr).live == h.live - {ptr}
    ensures forall a :: a in Free(h, ptr).memory <==> a in h.memory && !InRegion(ptr, h.live[ptr], a)
    ensures forall a :: a in Free(h, ptr).memory ==> Free(h, ptr).memory[a] == h.memory[a]
  {
    assert BlockOk(h, ptr);
    SameLength(h.live[ptr]);
  }

  lemma {:induction false} FreeKeepsValid(h: Heap, ptr: nat)
    requires Valid(h) && (ptr == 0 || ptr in h.live)
    ensures ptr != 0 ==> BlockOk(h, ptr)
    ensures Valid(Free(h, ptr))
  {
    if ptr != 0 {
      FreeUnmapsExactly(h, ptr);
      var k := Free(h, ptr);
      forall p: nat ensures BlockOk(k, p) {
        assert BlockOk(h, p) && PairOk(h, p, ptr);
        if p in k.live {
          MarksKept(h.memory, k.memory, p, h.live[p]);
        }
      }
      forall p: nat, q: nat ensures PairOk(k, p, q) {
        assert PairOk(h, p, q);
      }
      forall a: nat ensures Covered(k, a) {
        assert Covered(h, a);
        if a in k.memory {
          var p :| p in h.live && InRegion(p, h.live[p], a);
          assert p in k.live && InRegion(p, k.live[p], a);
        }
      }
    }
  }

  lemma FreeUndoesGrowth(h: Heap, k: Heap, ptr: nat, b: Block)
    requires Valid(h) && Grew(h, k, ptr, b)
    ensures Freeable(k.memory, ptr) && Free(k, ptr) == h
  {
    GrewValid(h, k, ptr, b);
    GrewIsNew(h, k, ptr, b);
    FreeUnmapsExactly(k, ptr);
    assert Free(k, ptr).live == h.live;
    assert Free(k, ptr).memory == h.memory;
  }

  /** Allocating and freeing at once gives back the heap, byte for byte. */
  lemma {:induction false} FreeUndoesAllocate(h: Heap, r: Request)
    requires Valid(h) && Served(h, r)
    ensures var (k, ptr) := Allocate(h, r); (ptr == 0 || Freeable(k.memory, ptr)) && Free(k, ptr) == h
  {
    if Succeeds(r) {
      AllocateGrows(h, r);
      var (k, ptr) := Allocate(h, r);
      FreeUndoesGrowth(h, k, ptr, Block(r.size, TotalSize(r.size)));
    }
  }

  /** Wiping any part of a live block zeroes that part and spoils no header, its own included. */
  lemma {:induction false} WipeKeepsHeaders(h: Heap, ptr: nat, i: nat, n: nat)
    requires Valid(h) && ptr in h.live && i + n <= h.live[ptr].size
    ensures var k := h.(memory := Wiped(h.memory, ptr + i, n));
            && Valid(k)
            && (forall a :: ptr + i <= a < ptr + i + n ==> a in k.memory && k.memory[a] == 0)
            && (forall a :: a in h.memory && !(ptr + i <= a < ptr + i + n) ==>
                  a in k.memory && k.memory[a] == h.memory[a])
            && k.memory.Keys == h.memory.Keys
  {
    assert BlockOk(h, ptr);
    OverwriteKeepsValid(h, ptr, Wiped(h.memory, ptr + i, n));
  }

  // ---------------------------------------------------------------- whole runs

  datatype Op =
    | Alloc(request: Request)
    | Put(ptr: nat, offset: nat, value: Octet)
    | Wipe(ptr: nat, offset: nat, size: nat)
    | Release(ptr: nat)

  /** The caller writes and wipes only inside blocks it holds and frees only NULL or a block it holds. */
  predicate Allowed(h: Heap, op: Op) {
    match op
    case Alloc(r) => Served(h, r)
    case Put(p, i, _) => p in h.live && i < h.live[p].size
    case Wipe(p, i, n) => p in h.live && i + n <= h.live[p].size
    case Release(p) => p == 0 || p in h.live
  }

  ghost function Step(h: Heap, op: Op): Heap
    requires Valid(h) && Allowed(h, op)
  {
    match op
    case Alloc(r) => Allocate(h, r).0
    case Put(p, i, v) => Store(h, p, i, v)
    case Wipe(p, i, n) => h.(memory := Wiped(h.memory, p + i, n))
    case Release(p) =>
      assert p == 0 || BlockOk(h, p);
      Free(h, p)
  }

  lemma StepKeepsValid(h: Heap, op: Op)
    requires Valid(h) && Allowed(h, op)
    ensures Valid(Step(h, op))
  {
    match op
    case Alloc(r) => AllocateKeepsValid(h, r);
    case Put(p, i, v) => StoreKeepsValid(h, p, i, v);
    case Wipe(p, i, n) => WipeKeepsHeaders(h, p, i, n);
    case Release(p) => FreeKeepsValid(h, p);
  }

  ghost predicate Runs(h: Heap, ops: seq<Op>)
    requires Valid(h)
    decreases |ops|
  {
    ops == [] ||
    (Allowed(h, ops[0]) && (StepKeepsValid(h, ops[0]); Runs(Step(h, ops[0]), ops[1..])))
  }

  ghost function Run(h: Heap, ops: seq<Op>): (k: Heap)
    requires Valid(h) && Runs(h, ops)
    ensures Valid(k)
    decreases |ops|
  {
    if ops == [] then h
    else
      StepKeepsValid(h, ops[0]);
      Run(Step(h, ops[0]), ops[1..])
  }

  /** Over any run the mapped memory is exactly the disjoint union of the live blocks' regions. */
  lemma {:induction false} MappedIsUnionOfLiveBlocks(h: Heap, ops: seq<Op>)
    requires Valid(h) && Runs(h, ops)
    ensures var k := Run(h, ops);
            && (forall a: nat :: a in k.memory <==> exists p :: p in k.live && InRegion(p, k.live[p], a))
            && (forall p, q, a ::
                  p in k.live && q in k.live && InRegion(p, k.live[p], a) && InRegion(q, k.live[q], a) ==> p == q)
  {
    var k := Run(h, ops);
    forall a: nat ensures a in k.memory <==> exists p :: p in k.live && InRegion(p, k.live[p], a) {
      assert Covered(k, a);
      if p :| p in k.live && InRegion(p, k.live[p], a) {
        assert BlockOk(k, p);
      }
    }
    forall p, q, a | p in k.live && q in k.live && InRegion(p, k.live[p], a) && InRegion(q, k.live[q], a)
      ensures p == q
    {
      assert PairOk(k, p, q);
    }
  }

  predicate Touches(op: Op, ptr: nat) {
    match op
    case Alloc(_) => false
    case Put(p, _, _) => p == ptr
    case Wipe(p, _, _) => p == ptr
    case Release(p) => p == ptr
  }

  /** What a block's owner sees. */
  ghost predicate SameBlock(h: Heap, k: Heap, ptr: nat) {
    && ptr in h.live && ptr in k.live && k.live[ptr] == h.live[ptr]
    && Agree(h.memory, k.memory, ptr, ptr + h.live[ptr].size)
  }

  lemma AllocateKeepsOther(h: Heap, r: Request, ptr: nat)
    requires Valid(h) && Served(h, r) && ptr in h.live
    ensures SameBlock(h, Allocate(h, r).0, ptr)
  {
    assert BlockOk(h, ptr);
    if Succeeds(r) {
      AllocateGrows(h, r);
      var (k, q) := Allocate(h, r);
      GrewIsNew(h, k, q, Block(r.size, TotalSize(r.size)));
    }
  }

  lemma StoreKeepsOther(h: Heap, q: nat, i: nat, value: Octet, ptr: nat)
    requires Valid(h) && q in h.live && i < h.live[q].size && ptr in h.live && q != ptr
    ensures SameBlock(h, Store(h, q, i, value), ptr)
  {
    assert BlockOk(h, ptr) && BlockOk(h, q) && PairOk(h, ptr, q);
  }

  lemma WipeKeepsOther(h: Heap, q: nat, i: nat, n: nat, ptr: nat)
    requires Valid(h) && q in h.live && i + n <= h.live[q].size && ptr in h.live && q != ptr
    ensures SameBlock(h, h.(memory := Wiped(h.memory, q + i, n)), ptr)
  {
    assert BlockOk(h, ptr) && BlockOk(h, q) && PairOk(h, ptr, q);
  }

  lemma FreeKeepsOther(h: Heap, q: nat, ptr: nat)
    requires Valid(h) && q in h.live && ptr in h.live && q != ptr
    ensures BlockOk(h, q) && SameBlock(h, Free(h, q), ptr)
  {
    assert BlockOk(h, ptr) && BlockOk(h, q) && PairOk(h, ptr, q);
    FreeUnmapsExactly(h, q);
  }

  lemma StepKeepsOtherBlocks(h: Heap, op: Op, ptr: nat)
    requires Valid(h) && Allowed(h, op) && ptr in h.live && !Touches(op, ptr)
    ensures SameBlock(h, Step(h, op), ptr)
  {
    match op
    case Alloc(r) => AllocateKeepsOther(h, r, ptr);
    case Put(q, i, v) => StoreKeepsOther(h, q, i, v, ptr);
    case Wipe(q, i, n) => WipeKeepsOther(h, q, i, n, ptr);
    case Release(q) =>
      if q == 0 {
        assert BlockOk(h, ptr);
      } else {
        FreeKeepsOther(h, q, ptr);
      }
  }

  /** No run of other allocations, writes and frees moves, resizes, unmaps or alters a held block. */
  lemma {:induction false} RunsKeepOtherBlocks(h: Heap, ops: seq<Op>, ptr: nat)
    requires Valid(h) && Runs(h, ops) && ptr in h.live
    requires forall i :: 0 <= i < |ops| ==> !Touches(ops[i], ptr)
    ensures SameBlock(h, Run(h, ops), ptr)
    decreases |ops|
  {
    if ops == [] {
      assert BlockOk(h, ptr);
    } else {
      StepKeepsValid(h, ops[0]);
      StepKeepsOtherBlocks(h, ops[0], ptr);
      RunsKeepOtherBlocks(Step(h, ops[0]), ops[1..], ptr);
    }
  }

  // ---------------------------------------------------------------- the allocator itself

  class Allocator {
    var memory: Memory
    ghost var live: map<nat, Block>

    ghost function State(): Heap
      reads this
    {
      Heap(memory, live)
    }

    constructor ()
      ensures State() == Heap(map[], map[]) && Valid(State())
    {
      memory, live := map[], map[];
    }

    method AllocateBlock(r: Request) returns (ptr: nat)
      requires Valid(State()) && Served(State(), r)
      modifies this
      ensures (State(), ptr) == Allocate(old(State()), r) && Valid(State())
    {
      AllocateKeepsValid(State(), r);
      if r.size == 0 {
        return 0;
      }
      var total := TotalSize(r.size);
      if r.mapping.None? {
        return 0;
      }
      var base := r.mapping.value;
      RegionHolds(r.size);
      Format(base, total, r);
      ptr := base + PREFIX;
      live := live[ptr := Block(r.size, total)];
    }

    method Format(base: nat, total: nat, r: Request)
      requires PREFIX + r.size + PAGE <= total
      modifies this`memory
      ensures memory == Formatted(old(memory), base, total, r)
    {
      MmapMaps(memory, base, total);
      memory := Mmap(memory, base, total);
      memory := WriteHeader(memory, base + PAGE, r.size, r.level, r.time);
      assert Mapped(memory, base + PREFIX, base + PREFIX + r.size);
      Initialize(base + PREFIX, r.size, r.level, r.contextExists);
    }

    /** initialize_memory_content with the pattern loop of the maximum level; the other levels are a memset. */
    method Initialize(ptr: nat, size: nat, level: nat, contextExists: bool)
      requires Mapped(memory, ptr, ptr + size)
      modifies this`memory
      ensures memory == FillBlock(old(memory), ptr, size, Content(level, contextExists))
    {
      if level == LEVEL_MAXIMUM && contextExists {
        FillPattern(ptr, size);
      } else {
        FillWith(ptr, size, if level == LEVEL_MAXIMUM || level == LEVEL_HIGH then 0xAA else 0);
      }
    }

    method FillPattern(ptr: nat, size: nat)
      requires Mapped(memory, ptr, ptr + size)
      modifies this`memory
      ensures Outside(old(memory), memory, ptr, size)
      ensures forall i :: 0 <= i < size ==> memory[ptr + i] == Pattern(i)
    {
      for i := 0 to size
        invariant Outside(old(memory), memory, ptr, size)
        invariant forall m :: 0 <= m < i ==> memory[ptr + m] == Pattern(m)
      {
        memory := memory[ptr + i := Pattern(i)];
      }
    }

    /** memset. */
    method FillWith(ptr: nat, size: nat, value: Octet)
      requires Mapped(memory, ptr, ptr + size)
      modifies this`memory
      ensures Outside(old(memory), memory, ptr, size)
      ensures forall a :: ptr <= a < ptr + size ==> memory[a] == value
    {
      for i := 0 to size
        invariant Outside(old(memory), memory, ptr, size)
        invariant forall a :: ptr <= a < ptr + i ==> memory[a] == value
      {
        memory := memory[ptr + i := value];
      }
    }

    /** Four passes over the block; the last one leaves zeros. */
    method Wipe(ptr: nat, size: nat) returns (result: int)
      requires ptr == 0 || Mapped(memory, ptr, ptr + size)
      modifies this`memory
      ensures result == if ptr == 0 || size == 0 then -1 else 0
      ensures memory == if ptr == 0 then old(memory) else Wiped(old(memory), ptr, size)
    {
      if ptr == 0 || size == 0 {
        return -1;
      }
      for i := 0 to size
        invariant Outside(old(memory), memory, ptr, size)
      {
        memory := memory[ptr + i := 0x00];
      }
      for i := 0 to size
        invariant Outside(old(memory), memory, ptr, size)
      {
        memory := memory[ptr + i := 0xFF];
      }
      for i := 0 to size
        invariant Outside(old(memory), memory, ptr, size)
      {
        memory := memory[ptr + i := (ByteOf(i) ^ 0xAA) as nat];
      }
      for i := 0 to size
        invariant Outside(old(memory), memory, ptr, size)
        invariant forall a :: ptr <= a < ptr + i ==> memory[a] == 0
      {
        memory := memory[ptr + i := 0x00];
      }
      return 0;
    }

    /** Unmaps the region named by the header, after wiping the block it names. */
    method FreeBlock(ptr: nat)
      requires ptr == 0 || Freeable(memory, ptr)
      modifies this
      ensures State() == Free(old(State()), ptr)
    {
      if ptr == 0 {
        return;
      }
      var header := ReadHeader(memory, ptr - HEADER);
      if header.magic != MAGIC || header.canary != CANARY {
        return;
      }
      var _ := Wipe(ptr, header.size);
      memory := Munmap(memory, ptr - PREFIX, TotalSize(header.size));
      live := live - {ptr};
    }
  }

  /** Same addresses, and the same bytes outside [ptr, ptr + size). */
  predicate Outside(m: Memory, k: Memory, ptr: nat, size: nat) {
    && k.Keys == m.Keys && Mapped(m, ptr, ptr + size)
    && forall a :: a in m && !(ptr <= a < ptr + size) ==> k[a] == m[a]
  }
}
