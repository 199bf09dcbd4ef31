/** The allocator: blocks are cut from the newest of a chain of arrays, and all memory is given back at once. */
module Allocator {

  // ---------------------------------------------------------------- alignment

  const DEFAULT_ALIGN: int := 4
  const STD_BLOCK_SIZE: int := 4096
  /** Sizes within an array are 32-bit unsigned integers. */
  const WORD: int := 0x1_0000_0000
  const HALF: int := 0x8000_0000
  /** The sizes asked for are 64-bit unsigned integers. */
  const SIZE: int := 0x1_0000_0000_0000_0000
  /** The limit of a block: a negative number as an unsigned one. */
  const LIMIT: int := SIZE - HALF

  predicate IsPowerOfTwo(x: bv32) {
    x & (!x + 1) == x
  }

  predicate IsAlignment(a: int) {
    a == 1 || a == 2 || a == 4 || a == 8 || a == 16 || a == 32 || a == 64
  }

  /** The test for a power of two admits exactly the alignments up to the maximum. */
  lemma {:induction false} PowersOfTwo(x: bv32)
    ensures IsPowerOfTwo(x) && 0 < x <= 64
       <==> x == 1 || x == 2 || x == 4 || x == 8 || x == 16 || x == 32 || x == 64
  {
    assert x <= 64 ==> (IsPowerOfTwo(x) <==> x == 0 || x == 1 || x == 2 || x == 4 || x == 8 || x == 16 || x == 32 || x == 64);
  }

  /** The bits that two numbers have in common. */
  function And(x: nat, y: nat): nat
    decreases y
  {
    if y == 0 then 0 else (if x % 2 == 1 && y % 2 == 1 then 1 else 0) + 2 * And(x / 2, y / 2)
  }

  /** The remainder of an address. */
  function Rem(addr: nat, alignment: int): (r: nat)
    requires IsAlignment(alignment)
    ensures r < alignment
  {
    match alignment
    case 2 => addr % 2
    case 4 => addr % 4
    case 8 => addr % 8
    case 16 => addr % 16
    case 32 => addr % 32
    case 64 => addr % 64
    case _ => 0
  }

  function Multiple(q: nat, alignment: int): nat
    requires IsAlignment(alignment)
  {
    match alignment
    case 2 => 2 * q
    case 4 => 4 * q
    case 8 => 8 * q
    case 16 => 16 * q
    case 32 => 32 * q
    case 64 => 64 * q
    case _ => q
  }

  lemma {:induction false} RemIsRemainder(x: nat, a: int)
    requires IsAlignment(a)
    ensures Rem(x, a) == x % a
  {
    match a
    case 2 => assert x % a == x % 2;
    case 4 => assert x % a == x % 4;
    case 8 => assert x % a == x % 8;
    case 16 => assert x % a == x % 16;
    case 32 => assert x % a == x % 32;
    case 64 => assert x % a == x % 64;
    case _ => assert x % 1 == 0;
  }

  /** What a number has more than a multiple of the alignment is the remainder. */
  lemma {:induction false} RestIsRem(x: nat, q: nat, r: nat, a: int)
    requires IsAlignment(a) && r < a && x == Multiple(q, a) + r
    ensures Rem(x, a) == r
  {
    match a
    case 2 => assert x / 2 == q;
    case 4 => assert x / 4 == q;
    case 8 => assert x / 8 == q;
    case 16 => assert x / 16 == q;
    case 32 => assert x / 32 == q;
    case 64 => assert x / 64 == q;
    case _ =>
  }

  /** Masking with a power of two less one is taking the remainder. */
  lemma {:induction false} MaskIsRemainder(x: nat, a: int)
    requires IsAlignment(a)
    ensures And(x, a - 1) == Rem(x, a)
    decreases a
  {
    if a > 1 {
      var half := a / 2;
      MaskIsRemainder(x / 2, half);
      HalfRest(x, a);
    }
  }

  lemma {:induction false} HalfRest(x: nat, a: int)
    requires IsAlignment(a) && a > 1
    ensures IsAlignment(a / 2) && Rem(x, a) == 2 * Rem(x / 2, a / 2) + x % 2
  {
    match a
    case 4 => RestIsRem(x, x / 2 / 2, 2 * (x / 2 % 2) + x % 2, a);
    case 8 => RestIsRem(x, x / 2 / 4, 2 * (x / 2 % 4) + x % 2, a);
    case 16 => RestIsRem(x, x / 2 / 8, 2 * (x / 2 % 8) + x % 2, a);
    case 32 => RestIsRem(x, x / 2 / 16, 2 * (x / 2 % 16) + x % 2, a);
    case 64 => RestIsRem(x, x / 2 / 32, 2 * (x / 2 % 32) + x % 2, a);
    case _ =>
  }

  /** That an address is cut to 32 bits before makes no difference. */
  lemma {:induction false} CutKeepsRemainder(x: nat, a: int)
    requires IsAlignment(a)
    ensures Rem(x % WORD, a) == Rem(x, a)
  {
    var q, w := x / WORD, x % WORD;
    match a
    case 2 => RestIsRem(x, 2147483648 * q + w / 2, w % 2, 2);
    case 4 => RestIsRem(x, 1073741824 * q + w / 4, w % 4, 4);
    case 8 => RestIsRem(x, 536870912 * q + w / 8, w % 8, 8);
    case 16 => RestIsRem(x, 268435456 * q + w / 16, w % 16, 16);
    case 32 => RestIsRem(x, 134217728 * q + w / 32, w % 32, 32);
    case 64 => RestIsRem(x, 67108864 * q + w / 64, w % 64, 64);
    case _ =>
  }

  lemma {:induction false} NextIsAligned(x: nat, a: int)
    requires IsAlignment(a)
    ensures Rem(x, a) == 0 || Rem(x + (a - Rem(x, a)), a) == 0
  {
    match a
    case 2 => RestIsRem(x + 2 - x % 2, x / 2 + 1, 0, 2);
    case 4 => RestIsRem(x + 4 - x % 4, x / 4 + 1, 0, 4);
    case 8 => RestIsRem(x + 8 - x % 8, x / 8 + 1, 0, 8);
    case 16 => RestIsRem(x + 16 - x % 16, x / 16 + 1, 0, 16);
    case 32 => RestIsRem(x + 32 - x % 32, x / 32 + 1, 0, 32);
    case 64 => RestIsRem(x + 64 - x % 64, x / 64 + 1, 0, 64);
    case _ =>
  }

  /** How far an address is behind the last aligned one. */
  function AlignOffset(addr: nat, alignment: int): (r: nat)
    requires IsAlignment(alignment)
    ensures r == Rem(addr, alignment)
  {
    MaskIsRemainder(addr % WORD, alignment);
    CutKeepsRemainder(addr, alignment);
    And(addr % WORD, alignment - 1)
  }

  lemma {:induction false} RestIsMasked(offset: nat, a: int)
    requires IsAlignment(a) && offset < a
    ensures And(a - offset, a - 1) == if offset == 0 then 0 else a - offset
  {
    hide And;
    MaskIsRemainder(a - offset, a);
    match a
    case 2 => RestIsRem(2 - offset, if offset == 0 then 1 else 0, if offset == 0 then 0 else 2 - offset, 2);
    case 4 => RestIsRem(4 - offset, if offset == 0 then 1 else 0, if offset == 0 then 0 else 4 - offset, 4);
    case 8 => RestIsRem(8 - offset, if offset == 0 then 1 else 0, if offset == 0 then 0 else 8 - offset, 8);
    case 16 => RestIsRem(16 - offset, if offset == 0 then 1 else 0, if offset == 0 then 0 else 16 - offset, 16);
    case 32 => RestIsRem(32 - offset, if offset == 0 then 1 else 0, if offset == 0 then 0 else 32 - offset, 32);
    case 64 => RestIsRem(64 - offset, if offset == 0 then 1 else 0, if offset == 0 then 0 else 64 - offset, 64);
    case _ => assert offset == 0;
  }

  /** The increment to the next aligned address, from the lowest bits of the address cut to 32 bits. */
  function PointerAlignIncr(addr: nat, alignment: int): (r: nat)
    requires IsAlignment(alignment)
    ensures r == (if Rem(addr, alignment) == 0 then 0 else alignment - Rem(addr, alignment))
    ensures r < alignment && Rem(addr + r, alignment) == 0
  {
    hide And;
    var alignofs := AlignOffset(addr, alignment);
    RestIsMasked(alignofs, alignment);
    NextIsAligned(addr, alignment);
    And(alignment - alignofs, alignment - 1)
  }

  /** No smaller increment reaches an aligned address. */
  lemma {:induction false} IncrIsSmallest(addr: nat, alignment: int, y: nat)
    requires IsAlignment(alignment) && y < PointerAlignIncr(addr, alignment)
    ensures Rem(addr + y, alignment) != 0
  {
    hide And;
    var r := Rem(addr, alignment);
    match alignment
    case 2 => RestIsRem(addr + y, addr / 2, r + y, 2);
    case 4 => RestIsRem(addr + y, addr / 4, r + y, 4);
    case 8 => RestIsRem(addr + y, addr / 8, r + y, 8);
    case 16 => RestIsRem(addr + y, addr / 16, r + y, 16);
    case 32 => RestIsRem(addr + y, addr / 32, r + y, 32);
    case 64 => RestIsRem(addr + y, addr / 64, r + y, 64);
    case _ =>
  }

  // ---------------------------------------------------------------- room in an array

  /** The test for room, in 32-bit arithmetic. */
  predicate HasRoom(allocsize: nat, arsize: nat, blocksize: nat, incr: nat) {
    allocsize >= (arsize + (blocksize + incr) % WORD) % WORD
  }

  /** The test says what it should exactly if the sum fits in 32 bits or what is left of it does not pass for a
      small block. */
  lemma {:induction false} RoomIsExact(allocsize: nat, arsize: nat, blocksize: nat, incr: nat)
    requires arsize <= allocsize < WORD
    ensures (HasRoom(allocsize, arsize, blocksize, incr) <==> arsize + incr + blocksize <= allocsize)
       <==> arsize + incr + blocksize < WORD || allocsize < (arsize + incr + blocksize) % WORD
  {
    var sum := arsize + incr + blocksize;
    assert (arsize + (blocksize + incr) % WORD) % WORD == sum % WORD;
  }

  /** A block that is as good as 4 GB large is cut from an array in which it does not fit. */
  lemma {:induction false} RoomOverflows()
    ensures HasRoom(4096, 4000, 0xFFFF_F100, 0) && 4000 + 0xFFFF_F100 > 4096
  {
  }

  /** The size of a new array: doubled from the standard size on. */
  function Doubled(n: nat): nat {
    if n == 0 then STD_BLOCK_SIZE else Doubled(n - 1) * 2 % WORD
  }

  predicate IsSize(x: nat) {
    || x == 0 || x == 0x1000 || x == 0x2000 || x == 0x4000 || x == 0x8000
    || x == 0x1_0000 || x == 0x2_0000 || x == 0x4_0000 || x == 0x8_0000
    || x == 0x10_0000 || x == 0x20_0000 || x == 0x40_0000 || x == 0x80_0000
    || x == 0x100_0000 || x == 0x200_0000 || x == 0x400_0000 || x == 0x800_0000
    || x == 0x1000_0000 || x == 0x2000_0000 || x == 0x4000_0000 || x == 0x8000_0000
  }

  lemma {:induction false} DoubledIsSize(n: nat)
    ensures IsSize(Doubled(n))
  {
    if n > 0 { DoubledIsSize(n - 1); }
  }

  lemma {:induction false} DoubledReachesHalf(n: nat) returns (m: nat)
    requires Doubled(n) > 0
    ensures Doubled(m) == HALF
    decreases HALF - Doubled(n)
  {
    DoubledIsSize(n);
    m := n;
    if Doubled(n) != HALF {
      DoubledIsSize(n + 1);
      m := DoubledReachesHalf(n + 1);
    }
  }

  /** The doubling arrives at a large enough size. */
  ghost predicate DoublingStops(need: nat) {
    exists n: nat :: Doubled(n) >= need
  }

  /** Doubling ends with a large enough size exactly for what is needed up to 2 GB; for more it never ends. */
  lemma {:induction false} DoublingEnds(need: nat)
    ensures DoublingStops(need) <==> need <= HALF
  {
    var m := DoubledReachesHalf(0);
    forall n: nat ensures Doubled(n) <= HALF { DoubledIsSize(n); }
  }

  function SizeFrom(size: nat, need: nat): (r: nat)
    requires 0 < size && need <= HALF
    ensures r >= need && r >= size
    decreases need - size
  {
    if size >= need then size else SizeFrom(size * 2, need)
  }

  /** What becomes of a request: the search for the size of a new array does not end, or the block is put at an offset
      of an array. */
  datatype Outcome = Endless | PutAt(offset: nat, size: nat)

  ghost function OutcomeOf(ar: nat, allocsize: nat, arsize: nat, blocksize: nat, a: int, at: nat): Outcome
    requires IsAlignment(a)
  {
    var incr, need := PointerAlignIncr(ar + arsize, a), (blocksize + a) % SIZE;
    if ar != 0 && HasRoom(allocsize, arsize, blocksize, incr) then PutAt(arsize + incr, allocsize)
    else if DoublingStops(need) then
      DoublingEnds(need);
      PutAt(PointerAlignIncr(at, a), SizeFrom(STD_BLOCK_SIZE, need))
    else Endless
  }

  predicate Fits(ar: nat, allocsize: nat, arsize: nat, blocksize: nat, a: int)
    requires IsAlignment(a)
  {
    ar != 0 && arsize + PointerAlignIncr(ar + arsize, a) + blocksize <= allocsize
  }

  lemma {:induction false} OutcomeNewest(ar: nat, allocsize: nat, arsize: nat, blocksize: nat, a: int, at: nat)
    requires arsize <= allocsize <= HALF && IsAlignment(a) && Fits(ar, allocsize, arsize, blocksize, a)
    ensures HasRoom(allocsize, arsize, blocksize, PointerAlignIncr(ar + arsize, a))
    ensures OutcomeOf(ar, allocsize, arsize, blocksize, a, at) == PutAt(arsize + PointerAlignIncr(ar + arsize, a), allocsize)
  {
    hide PointerAlignIncr;
    RoomIsExact(allocsize, arsize, blocksize, PointerAlignIncr(ar + arsize, a));
  }

  lemma {:induction false} OutcomeNew(ar: nat, allocsize: nat, arsize: nat, blocksize: nat, a: int, at: nat)
    requires (ar != 0 ==> arsize <= allocsize <= HALF) && IsAlignment(a) && !Fits(ar, allocsize, arsize, blocksize, a) && blocksize + a <= HALF
    ensures ar != 0 ==> !HasRoom(allocsize, arsize, blocksize, PointerAlignIncr(ar + arsize, a))
    ensures OutcomeOf(ar, allocsize, arsize, blocksize, a, at) == PutAt(PointerAlignIncr(at, a), SizeFrom(STD_BLOCK_SIZE, blocksize + a))
  {
    hide PointerAlignIncr, DoublingStops;
    IncrIsSmall(ar + arsize, a);
    if ar != 0 { RoomIsExact(allocsize, arsize, blocksize, PointerAlignIncr(ar + arsize, a)); }
    DoublingEnds(blocksize + a);
  }

  /** Anything else is put where it does not fit, or the search for a size does not end. */
  lemma {:induction false} OutcomeTooLarge(ar: nat, allocsize: nat, arsize: nat, blocksize: nat, a: int, at: nat)
    requires (ar != 0 ==> arsize <= allocsize <= HALF) && IsAlignment(a) && !Fits(ar, allocsize, arsize, blocksize, a) && HALF < blocksize + a && blocksize < SIZE
    ensures var r := OutcomeOf(ar, allocsize, arsize, blocksize, a, at); r.PutAt? ==> r.offset + blocksize > r.size
  {
    hide PointerAlignIncr, DoublingStops;
    var need := (blocksize + a) % SIZE;
    IncrIsSmall(ar + arsize, a);
    DoublingEnds(need);
    if need <= HALF { SizeIsBounded(STD_BLOCK_SIZE, need); }
  }

  /** A request ends with a block inside of its array exactly if it fits in the newest one, or if it needs at most 2 GB
      together with its alignment. */
  lemma {:induction false} RequestOutcome(ar: nat, allocsize: nat, arsize: nat, blocksize: nat, a: int, at: nat)
    requires (ar != 0 ==> arsize <= allocsize <= HALF) && blocksize < SIZE && IsAlignment(a)
    ensures var r := OutcomeOf(ar, allocsize, arsize, blocksize, a, at);
            r.PutAt? && r.offset + blocksize <= r.size <==> Fits(ar, allocsize, arsize, blocksize, a) || blocksize + a <= HALF
  {
    hide OutcomeOf, PointerAlignIncr;
    if Fits(ar, allocsize, arsize, blocksize, a) {
      OutcomeNewest(ar, allocsize, arsize, blocksize, a, at);
    } else if blocksize + a <= HALF {
      OutcomeNew(ar, allocsize, arsize, blocksize, a, at);
      IncrIsSmall(at, a);
    } else {
      OutcomeTooLarge(ar, allocsize, arsize, blocksize, a, at);
    }
  }

  lemma {:induction false} IncrIsSmall(addr: nat, a: int)
    requires IsAlignment(a)
    ensures PointerAlignIncr(addr, a) < a <= 64
  {
  }

  lemma {:induction false} SizeIsBounded(size: nat, need: nat)
    requires 0 < size < 2 * HALF && need <= HALF
    ensures SizeFrom(size, need) < 2 * HALF
    decreases need - size
  {
    if size < need { SizeIsBounded(size * 2, need); }
  }

  /** A request of almost 4 GB gets a block that begins in an array of 4096 bytes, one of 2 GB does not end. */
  lemma {:induction false} LargeRequests(at: nat)
    ensures OutcomeOf(0x1000, 4096, 4000, 0xFFFF_F100, 4, at) == PutAt(4000, 4096)
    ensures OutcomeOf(0x1000, 4096, 4000, 0x8000_0000, 4, at) == Endless
  {
    hide And, DoublingStops;
    RoomOverflows();
    assert Rem(0x1000 + 4000, 4) == 0;
    DoublingEnds(0x8000_0004);
  }

  // ---------------------------------------------------------------- the memory underneath

  ghost predicate Apart(a: nat, n: nat, b: nat, m: nat) {
    a + n < b || b + m < a
  }

  /** What the C library gives out: areas do not touch each other, nor other areas given to allocators. */
  class Memory {
    ghost var areas: map<nat, nat>
    /** The areas to be freed. */
    ghost var live: set<nat>

    ghost predicate Valid()
      reads this
    {
      && live <= areas.Keys && 0 !in areas
      && forall a, b :: a in areas && b in areas && a != b ==> Apart(a, areas[a], b, areas[b])
    }

    /** Where an area may be put. */
    ghost predicate FreeAt(at: nat, size: nat)
      reads this
    {
      at != 0 && at !in areas && forall a :: a in areas ==> Apart(a, areas[a], at, size)
    }

    /** Fails or takes a free place. */
    method Malloc(size: nat, at: nat) returns (p: nat)
      requires Valid() && (at != 0 ==> FreeAt(at, size))
      modifies this
      ensures Valid() && p == at
      ensures at == 0 ==> areas == old(areas) && live == old(live)
      ensures at != 0 ==> areas == old(areas)[at := size] && live == old(live) + {at}
    {
      if at != 0 {
        areas := areas[at := size];
        live := live + {at};
      }
      p := at;
    }

    /** An area is freed once only. */
    method Free(p: nat)
      requires Valid() && p in live
      modifies this
      ensures Valid() && live == old(live) - {p} && areas == old(areas) - {p}
    {
      live := live - {p};
      areas := areas - {p};
    }
  }

  // ---------------------------------------------------------------- arrays and blocks

  /** A memory area used as an array: its size and how much of it is used. */
  datatype Span = Span(size: nat, used: nat)

  /** A block handed out, with the array it lies in. */
  datatype Block = Block(addr: nat, size: nat, alignment: int, area: nat)

  predicate DisjointBlocks(a: Block, b: Block) {
    a.size == 0 || b.size == 0 || a.addr + a.size <= b.addr || b.addr + b.size <= a.addr
  }

  /** Aligned and within its array; what is not empty, in the used part of it. */
  predicate BlockOk(b: Block, arrays: map<nat, Span>) {
    && IsAlignment(b.alignment) && Rem(b.addr, b.alignment) == 0
    && b.area in arrays && b.area <= b.addr && b.addr + b.size <= b.area + arrays[b.area].size
    && (b.size > 0 ==> b.addr + b.size <= b.area + arrays[b.area].used)
  }

  ghost predicate BlocksOk(blocks: seq<Block>, arrays: map<nat, Span>) {
    && (forall k :: 0 <= k < |blocks| ==> BlockOk(blocks[k], arrays))
    && forall k, l :: 0 <= k < l < |blocks| ==> DisjointBlocks(blocks[k], blocks[l])
  }

  /** Arrays lie in different areas of the memory. */
  ghost predicate ArraysOk(arrays: map<nat, Span>, areas: map<nat, nat>) {
    && 0 !in arrays
    && (forall a :: a in arrays ==> a in areas && arrays[a].used <= arrays[a].size <= areas[a] && arrays[a].size <= HALF)
    && forall a, b :: a in areas && b in areas && a != b ==> Apart(a, areas[a], b, areas[b])
  }

  lemma {:induction false} ArraysApart(arrays: map<nat, Span>, areas: map<nat, nat>, a: nat, b: nat)
    requires ArraysOk(arrays, areas) && a in arrays && b in arrays
    ensures a == b || Apart(a, arrays[a].size, b, arrays[b].size)
  {
    assert a == b || Apart(a, areas[a], b, areas[b]);
  }

  /** A block cut behind the used part of an array. */
  lemma {:induction false} CutKeeps(blocks: seq<Block>, arrays: map<nat, Span>, areas: map<nat, nat>, b: Block)
    requires BlocksOk(blocks, arrays) && ArraysOk(arrays, areas)
    requires b.area in arrays && IsAlignment(b.alignment) && Rem(b.addr, b.alignment) == 0
    requires b.area + arrays[b.area].used <= b.addr && b.addr + b.size <= b.area + arrays[b.area].size
    ensures var now := arrays[b.area := arrays[b.area].(used := b.addr + b.size - b.area)];
            BlocksOk(blocks + [b], now) && ArraysOk(now, areas)
  {
    forall k | 0 <= k < |blocks| ensures DisjointBlocks(blocks[k], b) {
      assert BlockOk(blocks[k], arrays);
      var a := blocks[k].area;
      assert a != b.area ==> Apart(a, areas[a], b.area, areas[b.area]);
    }
    var now := arrays[b.area := arrays[b.area].(used := b.addr + b.size - b.area)];
    forall k | 0 <= k < |blocks| ensures BlockOk(blocks[k], now) { assert BlockOk(blocks[k], arrays); }
  }

  /** Only the last block of an array ends where the used part of it ends. */
  lemma {:induction false} EndsLast(blocks: seq<Block>, arrays: map<nat, Span>, areas: map<nat, nat>, k: nat, a: nat)
    requires BlocksOk(blocks, arrays) && ArraysOk(arrays, areas)
    requires k < |blocks| && a in arrays && blocks[k].addr + blocks[k].size == a + arrays[a].used
    ensures blocks[k].area == a
    ensures blocks[k].size > 0 ==> forall j :: 0 <= j < |blocks| && j != k && blocks[j].area == a && blocks[j].size > 0
                                         ==> blocks[j].addr + blocks[j].size <= blocks[k].addr
  {
    assert BlockOk(blocks[k], arrays);
    ArraysApart(arrays, areas, blocks[k].area, a);
    forall j | 0 <= j < |blocks| && j != k && blocks[j].area == a && blocks[j].size > 0 && blocks[k].size > 0
      ensures blocks[j].addr + blocks[j].size <= blocks[k].addr
    {
      assert BlockOk(blocks[j], arrays);
      assert if j < k then DisjointBlocks(blocks[j], blocks[k]) else DisjointBlocks(blocks[k], blocks[j]);
    }
  }

  /** Giving back the end of the last block of an array. */
  lemma {:induction false} ShrinkKeeps(blocks: seq<Block>, arrays: map<nat, Span>, areas: map<nat, nat>, k: nat, a: nat, newsize: nat)
    requires BlocksOk(blocks, arrays) && ArraysOk(arrays, areas)
    requires k < |blocks| && a in arrays && blocks[k].addr + blocks[k].size == a + arrays[a].used && newsize <= blocks[k].size
    ensures arrays[a].used >= blocks[k].size
    ensures var now := arrays[a := arrays[a].(used := arrays[a].used - blocks[k].size + newsize)];
            BlocksOk(blocks[k := blocks[k].(size := newsize)], now) && ArraysOk(now, areas)
  {
    EndsLast(blocks, arrays, areas, k, a);
    assert BlockOk(blocks[k], arrays);
    var now := arrays[a := arrays[a].(used := arrays[a].used - blocks[k].size + newsize)];
    var bs := blocks[k := blocks[k].(size := newsize)];
    forall j | 0 <= j < |bs| ensures BlockOk(bs[j], now) { assert BlockOk(blocks[j], arrays); }
    forall i, j | 0 <= i < j < |bs| ensures DisjointBlocks(bs[i], bs[j]) { assert DisjointBlocks(blocks[i], blocks[j]); }
  }

  lemma {:induction false} ShrinkBlock(blocks: seq<Block>, arrays: map<nat, Span>, k: nat, newsize: nat)
    requires BlocksOk(blocks, arrays) && k < |blocks| && newsize <= blocks[k].size
    ensures BlocksOk(blocks[k := blocks[k].(size := newsize)], arrays)
  {
    var bs := blocks[k := blocks[k].(size := newsize)];
    forall j | 0 <= j < |bs| ensures BlockOk(bs[j], arrays) { assert BlockOk(blocks[j], arrays); }
    forall i, j | 0 <= i < j < |bs| ensures DisjointBlocks(bs[i], bs[j]) { assert DisjointBlocks(blocks[i], blocks[j]); }
  }

  /** Another array changes nothing for the blocks. */
  lemma {:induction false} NewArrayKeeps(blocks: seq<Block>, arrays: map<nat, Span>, a: nat, span: Span)
    requires BlocksOk(blocks, arrays) && a !in arrays
    ensures BlocksOk(blocks, arrays[a := span])
  {
    forall k | 0 <= k < |blocks| ensures BlockOk(blocks[k], arrays[a := span]) { assert BlockOk(blocks[k], arrays); }
  }

  // ---------------------------------------------------------------- the chain of arrays

  /** An array behind the newest one; it does not change anymore. */
  class AllocatorNode {
    const allocsize: nat
    const arsize: nat
    const ar: nat
    const owned: bool
    const next: AllocatorNode?

    constructor (allocsize: nat, arsize: nat, ar: nat, owned: bool, next: AllocatorNode?)
      ensures this.allocsize == allocsize && this.arsize == arsize && this.ar == ar && this.owned == owned && this.next == next
    {
      this.allocsize, this.arsize, this.ar, this.owned, this.next := allocsize, arsize, ar, owned, next;
    }
  }

  ghost predicate Links(first: AllocatorNode?, chain: seq<AllocatorNode>) {
    if chain == [] then first == null else first == chain[0] && Links(first.next, chain[1..])
  }

  ghost predicate NoRepetition(chain: seq<AllocatorNode>) {
    forall i, j :: 0 <= i < j < |chain| ==> chain[i] != chain[j]
  }

  /** The own arrays of a chain, 0 for others. */
  ghost function OwnArrays(chain: seq<AllocatorNode>): (r: seq<nat>)
    ensures |r| == |chain|
    ensures forall i :: 0 <= i < |chain| ==> r[i] == if chain[i].owned then chain[i].ar else 0
  {
    seq(|chain|, i requires 0 <= i < |chain| => if chain[i].owned then chain[i].ar else 0)
  }

  ghost predicate Different(arrays: seq<nat>) {
    forall i, j :: 0 <= i < j < |arrays| && arrays[i] != 0 ==> arrays[i] != arrays[j]
  }

  ghost predicate AllLive(arrays: seq<nat>, live: set<nat>) {
    forall i :: 0 <= i < |arrays| ==> arrays[i] == 0 || arrays[i] in live
  }

  ghost predicate ChainOk(chain: seq<AllocatorNode>, arrays: map<nat, Span>) {
    forall i :: 0 <= i < |chain| ==> chain[i].ar == 0 || (chain[i].ar in arrays && arrays[chain[i].ar] == Span(chain[i].allocsize, chain[i].arsize))
  }

  /** The own arrays of the newest array and of a chain behind it. */
  ghost function AllOwn(ar: nat, owned: bool, chain: seq<AllocatorNode>): seq<nat> {
    [if owned then ar else 0] + OwnArrays(chain)
  }

  /** The newest array and the chain: every array is there once, and those to be freed can be freed. */
  ghost predicate RootOk(ar: nat, span: Span, owned: bool, chain: seq<AllocatorNode>, arrays: map<nat, Span>, live: set<nat>) {
    && NoRepetition(chain) && ChainOk(chain, arrays)
    && (ar != 0 ==> ar in arrays && arrays[ar] == span && forall i :: 0 <= i < |chain| ==> chain[i].ar != ar)
    && Different(AllOwn(ar, owned, chain)) && AllLive(AllOwn(ar, owned, chain), live)
  }

  lemma {:induction false} MoveKeeps(node: AllocatorNode, chain: seq<AllocatorNode>, arrays: map<nat, Span>, live: set<nat>)
    requires RootOk(node.ar, Span(node.allocsize, node.arsize), node.owned, chain, arrays, live) && node !in chain
    ensures RootOk(0, Span(0, 0), false, [node] + chain, arrays, live)
  {
    var own, now := AllOwn(node.ar, node.owned, chain), AllOwn(0, false, [node] + chain);
    assert now == [0] + own;
    forall i, j | 0 <= i < j < |now| && now[i] != 0 ensures now[i] != now[j] { assert own[i - 1] != own[j - 1]; }
  }

  lemma {:induction false} NewRootKeeps(span: Span, owned: bool, chain: seq<AllocatorNode>, arrays: map<nat, Span>, live: set<nat>, at: nat, size: nat)
    requires RootOk(0, span, owned, chain, arrays, live) && at != 0 && at !in arrays && at !in live
    ensures RootOk(at, Span(size, 0), true, chain, arrays[at := Span(size, 0)], live + {at})
  {
    var own, now := AllOwn(0, owned, chain), AllOwn(at, true, chain);
    assert now == own[0 := at];
    forall i | 0 < i < |now| ensures now[i] == own[i] && now[i] != at {}
  }

  /** Using more or less of the newest array leaves the chain as it is. */
  lemma {:induction false} SpanKeeps(ar: nat, span: Span, next: Span, owned: bool, chain: seq<AllocatorNode>, arrays: map<nat, Span>, live: set<nat>)
    requires RootOk(ar, span, owned, chain, arrays, live)
    ensures RootOk(ar, next, owned, chain, if ar != 0 then arrays[ar := next] else arrays, live)
  {
  }

  lemma {:induction false} NewAreaKeeps(arrays: map<nat, Span>, areas: map<nat, nat>, at: nat, size: nat)
    requires ArraysOk(arrays, areas) && at != 0 && at !in areas && size <= HALF && forall a :: a in areas ==> Apart(a, areas[a], at, size)
    ensures ArraysOk(arrays[at := Span(size, 0)], areas[at := size])
  {
  }

  class Allocator {
    /** The newest array, 0 if there is none. */
    var allocsize: nat
    var arsize: nat
    var ar: nat
    var owned: bool
    var next: AllocatorNode?
    const mem: Memory
    ghost var Chain: seq<AllocatorNode>
    ghost var Arrays: map<nat, Span>
    ghost var Blocks: seq<Block>

    /** The arrays to be freed with the allocator. */
    ghost function Own(): seq<nat>
      reads this
    {
      AllOwn(ar, owned, Chain)
    }

    ghost predicate Valid()
      reads this, mem
    {
      && mem.Valid() && ArraysOk(Arrays, mem.areas) && BlocksOk(Blocks, Arrays)
      && Links(next, Chain) && RootOk(ar, Span(allocsize, arsize), owned, Chain, Arrays, mem.live)
    }

    /** Begins with memory of the caller or with none. */
    constructor (buf: nat, bufsize: nat, memory: Memory)
      requires memory.Valid() && bufsize <= HALF
      requires if buf == 0 then bufsize == 0 else buf in memory.areas && bufsize <= memory.areas[buf]
      ensures Valid() && mem == memory && Chain == [] && Blocks == []
      ensures ar == buf && owned == (buf == 0)
    {
      allocsize, arsize, ar, owned, next := bufsize, 0, buf, buf == 0, null;
      mem, Chain, Blocks, Arrays := memory, [], [], if buf == 0 then map[] else map[buf := Span(bufsize, 0)];
    }

    /** Two blocks handed out have no byte in common; each of them begins at a multiple of its alignment, up to 64, and
        lies in an area of the memory. */
    lemma {:induction false} BlocksAreSeparate(k: nat, l: nat, p: nat)
      requires Valid() && k < |Blocks| && l < |Blocks| && k != l
      ensures !(Blocks[k].addr <= p < Blocks[k].addr + Blocks[k].size && Blocks[l].addr <= p < Blocks[l].addr + Blocks[l].size)
      ensures 1 <= Blocks[k].alignment <= 64 && Blocks[k].addr % Blocks[k].alignment == 0
      ensures var b := Blocks[k]; b.area in mem.areas && b.area <= b.addr && b.addr + b.size <= b.area + mem.areas[b.area]
    {
      hide Links, RootOk, Memory.Valid, Rem, Apart;
      assert BlockOk(Blocks[k], Arrays);
      assert if k < l then DisjointBlocks(Blocks[k], Blocks[l]) else DisjointBlocks(Blocks[l], Blocks[k]);
      RemIsRemainder(Blocks[k].addr, Blocks[k].alignment);
    }

    /** Allocates an aligned block; nodeOk and at are what the allocations of a node and of an array give. */
    method Alloc(blocksize: nat, alignment: bv32, nodeOk: bool, at: nat) returns (rt: nat)
      requires Valid() && blocksize < SIZE
      requires AcceptsRequest(blocksize, alignment) ==> FitsNewest(blocksize, alignment) || blocksize + AlignmentOf(alignment) <= HALF
      requires AcceptsRequest(blocksize, alignment) && !FitsNewest(blocksize, alignment) && at != 0
               ==> mem.FreeAt(at, SizeFrom(STD_BLOCK_SIZE, blocksize + AlignmentOf(alignment)))
      modifies this, mem
      ensures Valid() && mem.live >= old(mem.live)
      ensures rt != 0 ==> Blocks == old(Blocks) + [Block(rt, blocksize, AlignmentOf(alignment), ar)]
      ensures rt == 0 ==> Blocks == old(Blocks)
      ensures AcceptsRequest(blocksize, alignment) && nodeOk && at != 0 ==> rt != 0
      ensures !AcceptsRequest(blocksize, alignment) ==> rt == 0
      ensures rt != 0 ==> rt >= ar && OutcomeOf(old(ar), old(allocsize), old(arsize), blocksize, AlignmentOf(alignment), at) == PutAt(rt - ar, allocsize)
      ensures AcceptsRequest(blocksize, alignment) && old(FitsNewest(blocksize, alignment))
              ==> rt != 0 && ar == old(ar) && mem.areas == old(mem.areas) && Chain == old(Chain)
    {
      hide BlocksOk, ArraysOk, RootOk, Links, And, PointerAlignIncr, OutcomeOf, HasRoom, SizeFrom, Rem;
      var a: int := DEFAULT_ALIGN;
      if alignment != 0 {
        if !IsPowerOfTwo(alignment) || alignment > 64 || blocksize == 0 || blocksize >= LIMIT {
          return 0;
        }
        a := alignment as int;
      }
      AlignmentValue(alignment);
      if ar != 0 {
        var incr := PointerAlignIncr(ar + arsize, a);
        NewestSpan();
        if Fits(ar, allocsize, arsize, blocksize, a) {
          OutcomeNewest(ar, allocsize, arsize, blocksize, a, at);
        } else {
          OutcomeNew(ar, allocsize, arsize, blocksize, a, at);
        }
        if HasRoom(allocsize, arsize, blocksize, incr) {
          rt := Cut(blocksize, a, incr);
          return;
        }
        if !nodeOk { return 0; }
        MoveRoot();
      } else {
        OutcomeNew(ar, allocsize, arsize, blocksize, a, at);
      }
      rt := NewArray(blocksize, a, at);
    }

    ghost predicate FitsNewest(blocksize: nat, alignment: bv32)
      requires AcceptsRequest(blocksize, alignment)
      reads this
    {
      AlignmentValue(alignment);
      Fits(ar, allocsize, arsize, blocksize, AlignmentOf(alignment))
    }

    lemma {:induction false} NewestSpan()
      requires Valid() && ar != 0
      ensures ar in Arrays && Arrays[ar] == Span(allocsize, arsize) && arsize <= allocsize <= HALF
    {
    }

    /** Cuts a block from the newest array. */
    method Cut(blocksize: nat, a: int, incr: nat) returns (rt: nat)
      requires Valid() && ar != 0 && IsAlignment(a) && incr == PointerAlignIncr(ar + arsize, a)
      requires arsize + incr + blocksize <= allocsize
      modifies this`Blocks, this`Arrays, this`arsize
      ensures Valid() && rt == ar + old(arsize) + incr && Blocks == old(Blocks) + [Block(rt, blocksize, a, ar)]
    {
      hide BlocksOk, ArraysOk, RootOk, Links, And;
      NewestSpan();
      rt := ar + (arsize + incr);
      CutKeeps(Blocks, Arrays, mem.areas, Block(rt, blocksize, a, ar));
      SpanKeeps(ar, Span(allocsize, arsize), Span(allocsize, arsize + incr + blocksize), owned, Chain, Arrays, mem.live);
      arsize := arsize + incr + blocksize;
      Blocks, Arrays := Blocks + [Block(rt, blocksize, a, ar)], Arrays[ar := Span(allocsize, arsize)];
    }

    /** Puts the newest array to the chain. */
    method MoveRoot()
      requires Valid() && ar != 0
      modifies this
      ensures Valid() && ar == 0 && Blocks == old(Blocks)
      ensures Chain != [] && Chain[1..] == old(Chain)
    {
      var node := new AllocatorNode(allocsize, arsize, ar, owned, next);
      allocsize, arsize, ar, owned, next := 0, 0, 0, false, node;
      MoveKeeps(node, Chain, Arrays, mem.live);
      Chain := [node] + Chain;
    }

    /** Begins a new array with room for what is needed. */
    method TakeArray(need: nat, at: nat)
      requires Valid() && ar == 0 && need <= HALF
      requires at != 0 ==> mem.FreeAt(at, SizeFrom(STD_BLOCK_SIZE, need))
      modifies this, mem
      ensures Valid() && mem.live >= old(mem.live) && Blocks == old(Blocks)
      ensures ar == at && (at != 0 ==> arsize == 0 && allocsize == SizeFrom(STD_BLOCK_SIZE, need))
    {
      hide BlocksOk, ArraysOk, RootOk;
      var size := STD_BLOCK_SIZE;
      while size < need
        invariant 0 < size <= HALF && IsSize(size) && SizeFrom(size, need) == SizeFrom(STD_BLOCK_SIZE, need)
        decreases need - size
      {
        size := size * 2 % WORD;
      }
      if at != 0 {
        AtIsNew(at);
        NewRootKeeps(Span(allocsize, arsize), owned, Chain, Arrays, mem.live, at, size);
        NewAreaKeeps(Arrays, mem.areas, at, size);
        NewArrayKeeps(Blocks, Arrays, at, Span(size, 0));
      }
      SpanKeeps(0, Span(allocsize, arsize), Span(size, arsize), owned, Chain, Arrays, mem.live);
      allocsize := size;
      ar := mem.Malloc(allocsize, at);
      if ar == 0 { return; }
      owned := true;
      arsize := 0;
      Arrays := Arrays[at := Span(allocsize, 0)];
    }

    lemma {:induction false} AtIsNew(at: nat)
      requires Valid() && at != 0 && at !in mem.areas
      ensures at !in Arrays && at !in mem.live
    {
    }

    /** Begins a new array with a block. */
    method NewArray(blocksize: nat, a: int, at: nat) returns (rt: nat)
      requires Valid() && ar == 0 && IsAlignment(a) && blocksize + a <= HALF
      requires at != 0 ==> mem.FreeAt(at, SizeFrom(STD_BLOCK_SIZE, blocksize + a))
      modifies this, mem
      ensures Valid() && mem.live >= old(mem.live) && (rt == 0 <==> at == 0)
      ensures Blocks == old(Blocks) + if rt == 0 then [] else [Block(rt, blocksize, a, ar)]
      ensures rt != 0 ==> ar == at && rt == at + PointerAlignIncr(at, a) && allocsize == SizeFrom(STD_BLOCK_SIZE, blocksize + a)
    {
      TakeArray(blocksize + a, at);
      if ar == 0 { return 0; }
      rt := Cut(blocksize, a, PointerAlignIncr(ar, a));
    }

    // -------------------------------------------------------------- other operations

    /** Takes over memory to be freed together with the allocator. */
    method AddFreeMem(p: nat, nodeOk: bool) returns (ok: bool)
      requires Valid() && (p != 0 ==> p in mem.live && p !in Arrays && mem.areas[p] >= 1)
      modifies this`Chain, this`Arrays, this`next
      ensures Valid() && ok == nodeOk && Blocks == old(Blocks)
      ensures Own() == if ok then [old(Own())[0], p] + old(Own())[1..] else old(Own())
    {
      hide BlocksOk, RootOk, AllOwn;
      if !nodeOk { return false; }
      var nd := new AllocatorNode(1, 1, p, true, next);
      next := nd;
      if p != 0 {
        NewArrayKeeps(Blocks, Arrays, p, Span(1, 1));
        Arrays := Arrays[p := Span(1, 1)];
      }
      AddKeeps(ar, Span(allocsize, arsize), owned, nd, Chain, old(Arrays), Arrays, mem.live);
      Chain := [nd] + Chain;
      return true;
    }

    /** Gives back the end of a block, if it is the last one. */
    method ShrinkLastAlloc(ptr: nat, oldsize: nat, newsize: nat, ghost k: nat) returns (ok: bool)
      requires Valid() && k < |Blocks| && Blocks[k].addr == ptr && Blocks[k].size == oldsize
      modifies this`Blocks, this`Arrays, this`arsize
      ensures Valid()
      ensures ok <==> ptr + oldsize == ar + old(arsize) && newsize <= oldsize
      ensures ok ==> Blocks == old(Blocks)[k := old(Blocks)[k].(size := newsize)] && ptr + newsize == ar + arsize
      ensures !ok ==> Blocks == old(Blocks) && arsize == old(arsize)
    {
      hide BlocksOk, ArraysOk, RootOk, Links;
      if ptr == ar + arsize - oldsize && newsize <= oldsize {
        if ar != 0 {
          NewestSpan();
          ShrinkKeeps(Blocks, Arrays, mem.areas, k, ar, newsize);
        } else {
          ShrinkBlock(Blocks, Arrays, k, newsize);
        }
        ghost var span := Span(allocsize, arsize - oldsize + newsize);
        SpanKeeps(ar, Span(allocsize, arsize), span, owned, Chain, Arrays, mem.live);
        arsize := arsize - oldsize;
        arsize := arsize + newsize;
        Arrays := if ar != 0 then Arrays[ar := span] else Arrays;
        Blocks := Blocks[k := Blocks[k].(size := newsize)];
        return true;
      }
      return false;
    }

    // -------------------------------------------------------------- giving back

    /** Frees the own arrays of a chain and its nodes. */
    method FreeChain(first: AllocatorNode?, ghost chain: seq<AllocatorNode>) returns (freed: seq<AllocatorNode>)
      requires mem.Valid() && Links(first, chain) && Different(OwnArrays(chain)) && AllLive(OwnArrays(chain), mem.live)
      modifies mem
      ensures mem.Valid() && freed == chain
      ensures mem.live == old(mem.live) - Taken(OwnArrays(chain), |chain|)
    {
      var itr := first;
      ghost var own := OwnArrays(chain);
      freed := [];
      assert chain[0..] == chain;
      while itr != null
        invariant |freed| <= |chain| && freed == chain[..|freed|] && Links(itr, chain[|freed|..])
        invariant mem.Valid() && mem.live == old(mem.live) - Taken(own, |freed|)
        decreases |chain| - |freed|
      {
        ghost var i := |freed|;
        assert chain[i..][0] == chain[i] && chain[i..][1..] == chain[i + 1..];
        OwnNotYetFreed(own, i, old(mem.live));
        FreeOwn(itr.ar, itr.owned);
        freed := freed + [itr];
        itr := itr.next;
      }
    }

    /** Frees an array if it is an own one. */
    method FreeOwn(ar: nat, owned: bool)
      requires mem.Valid() && (ar == 0 || !owned || ar in mem.live)
      modifies mem
      ensures mem.Valid() && mem.live == old(mem.live) - {if owned then ar else 0}
    {
      if ar != 0 {
        if owned { mem.Free(ar); }
      }
    }

    /** Frees all own arrays and all nodes of the chain; nothing else is freed, and nothing twice. */
    method Destroy() returns (freed: seq<AllocatorNode>)
      requires Valid()
      modifies this, mem
      ensures Valid() && ar == 0 && next == null && Blocks == []
      ensures freed == old(Chain)
      ensures forall a :: a in mem.live <==> a in old(mem.live) && a !in old(Own())
    {
      hide BlocksOk, ArraysOk, RootOk;
      ghost var own, live := Own(), mem.live;
      assert 0 !in mem.live;
      OwnIsDifferent();
      FirstIsDifferent(if owned then ar else 0, OwnArrays(Chain), mem.live);
      FreeOwn(ar, owned);
      ar := 0;
      var itr := next;
      next := null;
      freed := FreeChain(itr, Chain);
      AllTaken(own[0], OwnArrays(Chain), live, mem.live);
      Chain, Blocks, Arrays := [], [], map[];
      NothingIsOk(mem.areas, Span(allocsize, arsize), owned, mem.live);
    }

    lemma {:induction false} OwnIsDifferent()
      requires Valid()
      ensures Different(Own()) && AllLive(Own(), mem.live)
    {
    }
  }

  lemma {:induction false} NothingIsOk(areas: map<nat, nat>, span: Span, owned: bool, live: set<nat>)
    requires forall a, b :: a in areas && b in areas && a != b ==> Apart(a, areas[a], b, areas[b])
    ensures ArraysOk(map[], areas) && BlocksOk([], map[]) && RootOk(0, span, owned, [], map[], live)
  {
  }

  /** The first n arrays. */
  ghost function Taken(own: seq<nat>, n: nat): set<nat>
    requires n <= |own|
  {
    if n == 0 then {} else Taken(own, n - 1) + {own[n - 1]}
  }

  lemma {:induction false} TakenMembers(own: seq<nat>, n: nat, x: nat)
    requires n <= |own|
    ensures x in Taken(own, n) <==> exists j :: 0 <= j < n && own[j] == x
  {
    if n > 0 { TakenMembers(own, n - 1, x); }
  }

  lemma {:induction false} AllTaken(first: nat, own: seq<nat>, live: set<nat>, now: set<nat>)
    requires now == live - {first} - Taken(own, |own|)
    ensures forall a :: a in now <==> a in live && a !in [first] + own
  {
    forall a ensures a in now <==> a in live && a !in [first] + own {
      TakenMembers(own, |own|, a);
    }
  }

  lemma {:induction false} OwnNotYetFreed(own: seq<nat>, i: nat, live: set<nat>)
    requires Different(own) && AllLive(own, live) && i < |own|
    ensures own[i] == 0 || own[i] in live - Taken(own, i)
  {
    TakenMembers(own, i, own[i]);
  }

  lemma {:induction false} FirstIsDifferent(x: nat, xs: seq<nat>, live: set<nat>)
    requires Different([x] + xs) && AllLive([x] + xs, live)
    ensures Different(xs) && AllLive(xs, live) && (x != 0 ==> x in live && AllLive(xs, live - {x}))
  {
    var all := [x] + xs;
    assert all[0] == x && forall i :: 0 <= i < |xs| ==> xs[i] == all[i + 1];
  }

  lemma {:induction false} DifferentInserted(own: seq<nat>, x: nat)
    requires own != [] && Different(own) && (x == 0 || x !in own)
    ensures Different([own[0], x] + own[1..])
  {
    var next := [own[0], x] + own[1..];
    forall i, j | 0 <= i < j < |next| && next[i] != 0 ensures next[i] != next[j] {
      var k := if i > 1 then i - 1 else 0;
      if j > 1 && i != 1 { assert own[k] == next[i] && own[j - 1] == next[j]; }
    }
  }

  lemma {:induction false} AddKeeps(ar: nat, span: Span, owned: bool, node: AllocatorNode, chain: seq<AllocatorNode>,
                                    arrays: map<nat, Span>, now: map<nat, Span>, live: set<nat>)
    requires RootOk(ar, span, owned, chain, arrays, live) && node !in chain && node.owned
    requires node.ar == 0 ==> now == arrays
    requires node.ar != 0 ==> node.ar !in arrays && node.ar in live && now == arrays[node.ar := Span(node.allocsize, node.arsize)]
    ensures RootOk(ar, span, owned, [node] + chain, now, live)
    ensures AllOwn(ar, owned, [node] + chain) == [AllOwn(ar, owned, chain)[0], node.ar] + AllOwn(ar, owned, chain)[1..]
  {
    var own, next := AllOwn(ar, owned, chain), AllOwn(ar, owned, [node] + chain);
    assert next == [own[0], node.ar] + own[1..];
    forall i | 0 <= i < |own| ensures own[i] == 0 || own[i] in arrays {
      if i > 0 { assert chain[i - 1].ar == 0 || chain[i - 1].ar in arrays; }
    }
    DifferentInserted(own, node.ar);
  }

  predicate AcceptsRequest(blocksize: nat, alignment: bv32) {
    alignment == 0 || (IsPowerOfTwo(alignment) && alignment <= 64 && 0 < blocksize < LIMIT)
  }

  function AlignmentOf(alignment: bv32): nat {
    if alignment == 0 then DEFAULT_ALIGN else alignment as int
  }

  lemma {:induction false} AlignmentValue(x: bv32)
    requires IsPowerOfTwo(x) && x <= 64
    ensures IsAlignment(AlignmentOf(x))
  {
    if x != 0 { PowersOfTwo(x); }
  }
}
