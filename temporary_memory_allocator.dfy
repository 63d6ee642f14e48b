/**
 * seastar's temporary memory allocator: a monotonic arena for short-lived
 * objects. Small objects are bump-allocated inside the open 128 KiB block;
 * every block starts with a header holding a use count, found again on
 * `free` by rounding the object's address down to the block size. Large
 * objects get a block of their own whose count starts at one.
 *
 * Addresses are natural numbers, 0 is the null pointer, and the system
 * allocator behind `aligned_alloc`, `posix_memalign` and `::free` is the
 * `SystemHeap` class below.
 */
module TemporaryMemory {
  import opened Wrappers

  /** `__STDCPP_DEFAULT_NEW_ALIGNMENT__` on the 64-bit targets seastar runs on. */
  const ALIGNMENT: nat := 16
  /** 128 KiB; every block is aligned to its size. */
  const BLOCK_SIZE: nat := 131072
  /** 32 KiB; anything larger is a large object. */
  const MAX_OBJECT_SIZE: nat := 32768
  /** `sizeof(block_header)`: one `int32_t`, padded to the alignment. */
  const HEADER_SIZE: nat := 16
  const INT32_MAX: int := 0x7fff_ffff
  /** The most objects a block can hold: each takes at least ALIGNMENT bytes
      after the header. */
  const MAX_PER_BLOCK: nat := 8191

  /** A C++ `int32_t`. */
  type i32 = x: int | -0x8000_0000 <= x <= 0x7fff_ffff

  /** The static assertions on the constants: a small object always fits in
      a fresh block, and a block's object count fits in an `int32_t`. */
  lemma ConstantsFit()
    ensures MAX_OBJECT_SIZE <= BLOCK_SIZE - HEADER_SIZE
    ensures BLOCK_SIZE <= INT32_MAX
    ensures ALIGNMENT * MAX_PER_BLOCK == BLOCK_SIZE - HEADER_SIZE
  {
  }

  /** `align_up(x, alignment)`: the least multiple of ALIGNMENT not below `x`. */
  function AlignUp(x: nat): (r: nat)
    ensures r % ALIGNMENT == 0 && x <= r < x + ALIGNMENT
  {
    x + (ALIGNMENT - x % ALIGNMENT) % ALIGNMENT
  }

  /** `align_down(p, block_size)`: the start of the block holding `p`. */
  function BlockOf(p: nat): nat
  {
    p - p % BLOCK_SIZE
  }

  /** Every address of a block-aligned region shorter than a block rounds
      down to the region's start. */
  lemma BlockOfInside(b: nat, p: nat)
    requires b % BLOCK_SIZE == 0 && b <= p < b + BLOCK_SIZE
    ensures BlockOf(p) == b
  {
    var k := b / BLOCK_SIZE;
    assert b == BLOCK_SIZE * k;
    assert p == BLOCK_SIZE * k + (p - b);
    assert p % BLOCK_SIZE == p - b;
  }

  /** A block-aligned address is aligned for objects too. */
  lemma BlockAligned(b: nat)
    requires b % BLOCK_SIZE == 0
    ensures b % ALIGNMENT == 0
    ensures (b + HEADER_SIZE) % ALIGNMENT == 0 && (b + BLOCK_SIZE) % ALIGNMENT == 0
  {
    var k := b / BLOCK_SIZE;
    assert b == BLOCK_SIZE * k;
    assert b == ALIGNMENT * (8192 * k);
    assert b + HEADER_SIZE == ALIGNMENT * (8192 * k + 1);
    assert b + BLOCK_SIZE == ALIGNMENT * (8192 * k + 8192);
  }

  /** Rounding up to the alignment never passes an aligned bound. */
  lemma AlignUpBelow(x: nat, e: nat)
    requires x <= e && e % ALIGNMENT == 0
    ensures AlignUp(x) <= e
  {
    var q := x / ALIGNMENT;
    assert x == ALIGNMENT * q + x % ALIGNMENT;
    assert e == ALIGNMENT * (e / ALIGNMENT);
    if x % ALIGNMENT != 0 {
      assert e / ALIGNMENT > q;
    }
  }

  /** Rounding up the end of a non-empty object that starts aligned moves
      at least one alignment unit. */
  lemma AlignUpStep(pos: nat, size: nat)
    requires pos % ALIGNMENT == 0 && size > 0
    ensures pos + ALIGNMENT <= AlignUp(pos + size)
  {
    var r := AlignUp(pos + size);
    assert r == ALIGNMENT * (r / ALIGNMENT);
    assert pos == ALIGNMENT * (pos / ALIGNMENT);
    assert r / ALIGNMENT > pos / ALIGNMENT;
  }

  lemma RemoveOne(s: set<nat>, x: nat)
    requires x in s
    ensures |s - {x}| == |s| - 1
  {
    assert s == (s - {x}) + {x};
  }

  /** A set of one element that holds `x` is `{x}`. */
  lemma SingletonOf(s: set<nat>, x: nat)
    requires x in s && |s| == 1
    ensures s == {x}
  {
    RemoveOne(s, x);
    assert s - {x} == {};
  }

  lemma SubsetCard(a: set<nat>, b: set<nat>)
    requires a <= b
    ensures |a| <= |b|
  {
    assert b == a + (b - a);
  }

  lemma SumAligned(a: nat, b: nat)
    requires a % ALIGNMENT == 0 && b % ALIGNMENT == 0
    ensures (a + b) % ALIGNMENT == 0
  {
    assert a + b == ALIGNMENT * (a / ALIGNMENT + b / ALIGNMENT);
  }

  /** A live object: the block whose header counts it, and its size. */
  datatype Obj = Obj(block: nat, size: nat)

  /** The allocator together with the system heap behind it, as values.
      `regions` are the system allocations (start and size), `useCount` the
      counter in each block header, `objects` the live objects, and
      `current`, `position`, `end`, `pending` the allocator's `_current`,
      `_position_in_current`, `_current_end` and `_current_use_count`. */
  datatype AllocatorState = AllocatorState(
    regions: map<nat, nat>,
    useCount: map<nat, int>,
    objects: map<nat, Obj>,
    current: nat,
    position: nat,
    end: nat,
    pending: int)

  /** The live objects counted by the header of block `b`. */
  ghost function Members(objects: map<nat, Obj>, b: nat): set<nat>
  {
    set p | p in objects && objects[p].block == b
  }

  /** A new object joins the members of its own block only. */
  lemma MembersInsert(objects: map<nat, Obj>, p: nat, o: Obj, b: nat)
    requires p !in objects
    ensures o.block == b ==> Members(objects[p := o], b) == Members(objects, b) + {p}
    ensures o.block == b ==> |Members(objects[p := o], b)| == |Members(objects, b)| + 1
    ensures o.block != b ==> Members(objects[p := o], b) == Members(objects, b)
  {
    if o.block == b {
      assert Members(objects[p := o], b) == Members(objects, b) + {p};
    } else {
      assert Members(objects[p := o], b) == Members(objects, b);
    }
  }

  /** A freed object leaves the members of its own block only. */
  lemma MembersRemove(objects: map<nat, Obj>, p: nat, b: nat)
    requires p in objects
    ensures objects[p].block == b ==> Members(objects - {p}, b) == Members(objects, b) - {p}
    ensures objects[p].block == b ==> |Members(objects - {p}, b)| == |Members(objects, b)| - 1
    ensures objects[p].block != b ==> Members(objects - {p}, b) == Members(objects, b)
  {
    if objects[p].block == b {
      assert Members(objects - {p}, b) == Members(objects, b) - {p};
      RemoveOne(Members(objects, b), p);
    } else {
      assert Members(objects - {p}, b) == Members(objects, b);
    }
  }

  /** The system allocator's regions: non-empty, block aligned and not
      null. */
  ghost predicate RegionsOk(regions: map<nat, nat>)
  {
    forall b :: b in regions ==> 0 < b && b % BLOCK_SIZE == 0 && 0 < regions[b]
  }

  /** `block` is a new block-aligned address past every region. */
  ghost predicate Fresh(regions: map<nat, nat>, block: nat)
  {
    && 0 < block && block % BLOCK_SIZE == 0 && block !in regions
    && forall b :: b in regions ==> b + regions[b] <= block
  }

  /** The object `[p, p + n)` overlaps none of `objects`. */
  ghost predicate Disjoint(p: nat, n: nat, objects: map<nat, Obj>)
  {
    forall q :: q in objects ==> p + n <= q || q + objects[q].size <= p
  }

  /** `after` is `before` with one more object, at the 16-byte aligned
      `p`, of `size` bytes, counted by the header of `block`, where `p`
      rounds down to, and apart from every object of `before`. */
  ghost predicate NewObject(before: map<nat, Obj>, after: map<nat, Obj>, p: nat, block: nat, size: nat)
  {
    && p !in before && Disjoint(p, size, before) && BlockOf(p) == block && p % ALIGNMENT == 0
    && after == before[p := Obj(block, size)]
  }

  /** Two distinct live objects `p` and `q` do not overlap. */
  ghost predicate Apart(objects: map<nat, Obj>, p: nat, q: nat)
  {
    p in objects && q in objects && p != q ==>
      p + objects[p].size <= q || q + objects[q].size <= p
  }

  /** No two live objects overlap. */
  ghost predicate NoOverlap(objects: map<nat, Obj>)
  {
    forall p, q :: Apart(objects, p, q)
  }

  /** An object apart from every live one keeps them from overlapping. */
  lemma {:induction false} NoOverlapInsert(objects: map<nat, Obj>, p: nat, o: Obj)
    requires NoOverlap(objects) && p !in objects && Disjoint(p, o.size, objects)
    ensures NoOverlap(objects[p := o])
  {
    var after := objects[p := o];
    forall x, y
      ensures Apart(after, x, y)
    {
      assert Apart(objects, x, y);
    }
  }

  /** Freeing an object keeps the others from overlapping. */
  lemma {:induction false} NoOverlapRemove(objects: map<nat, Obj>, p: nat)
    requires NoOverlap(objects)
    ensures NoOverlap(objects - {p})
  {
    var after := objects - {p};
    forall x, y
      ensures Apart(after, x, y)
    {
      assert Apart(objects, x, y);
    }
  }

  /** Every object lies after its block's header and inside its block's
      region, whose header is live. */
  ghost predicate Placed(s: AllocatorState)
  {
    forall p :: p in s.objects ==>
      var o := s.objects[p];
      && o.block in s.useCount && o.block in s.regions && 0 < o.size
      && o.block + HEADER_SIZE <= p < o.block + BLOCK_SIZE
      && p + o.size <= o.block + s.regions[o.block]
  }

  /** A closed block's counter is the number of its live objects, which is
      positive. */
  ghost predicate ClosedCounts(s: AllocatorState)
  {
    forall b :: b in s.useCount && b != s.current ==>
      0 < s.useCount[b] == |Members(s.objects, b)| <= MAX_PER_BLOCK
  }

  /** The open block: no other region overlaps it, its counter is not
      positive and, added to the allocations not yet flushed, gives its live
      objects, all of which lie below the cursor. With no open block the
      cursor is null. */
  ghost predicate OpenBlockOk(s: AllocatorState)
  {
    if s.current == 0 then s.position == 0 && s.pending == 0
    else
      && s.current in s.useCount && s.current in s.regions
      && s.regions[s.current] == BLOCK_SIZE && s.end == s.current + BLOCK_SIZE
      && (forall b :: b in s.regions && b != s.current ==> b + s.regions[b] <= s.current || s.end <= b)
      && s.current + HEADER_SIZE + ALIGNMENT * s.pending <= s.position <= s.end
      && s.position % ALIGNMENT == 0
      && -(MAX_PER_BLOCK as int) <= s.useCount[s.current] <= 0
      && s.useCount[s.current] + s.pending == |Members(s.objects, s.current)|
      && forall p :: p in s.objects && s.objects[p].block == s.current ==> p + s.objects[p].size <= s.position
  }

  /** Every header is a live region; `extra` are live regions that carry no
      header yet. */
  ghost predicate Headers(s: AllocatorState, extra: set<nat>)
  {
    && (forall b :: b in s.regions <==> b in s.useCount || b in extra)
    && (forall b :: b in s.useCount ==> b !in extra)
  }

  /** A large object is the only live object of its block, which is never
      the open one, so its header counts it alone. */
  ghost predicate LargeAlone(s: AllocatorState)
  {
    forall p :: p in s.objects && MAX_OBJECT_SIZE < s.objects[p].size ==>
      s.objects[p].block != s.current && Members(s.objects, s.objects[p].block) == {p}
  }

  /** The allocator's invariant. */
  ghost predicate InvOf(s: AllocatorState, extra: set<nat>)
  {
    && RegionsOk(s.regions)
    && Headers(s, extra)
    && Placed(s)
    && ClosedCounts(s)
    && OpenBlockOk(s)
    && LargeAlone(s)
    && NoOverlap(s.objects)
  }

  /** `close_current`: flush the pending count into the open block's header,
      give the block back when that leaves it at zero, and forget it. */
  function Close(s: AllocatorState): AllocatorState
    requires s.current != 0 ==> s.current in s.useCount
  {
    if s.current == 0 then s
    else
      var count := s.useCount[s.current] + s.pending;
      var t := s.(useCount := s.useCount[s.current := count], current := 0, position := 0, pending := 0);
      if count == 0 then t.(regions := s.regions - {s.current}, useCount := t.useCount - {s.current})
      else t
  }

  /** The system heap hands out `n` bytes at `block`. */
  function Reserve(s: AllocatorState, block: nat, n: nat): AllocatorState
  {
    s.(regions := s.regions[block := n])
  }

  /** The tail of `allocate_new_block`: a zeroed header at `block`, the first
      object right after it, and the cursor past that object. */
  function OpenNew(s: AllocatorState, block: nat, size: nat): AllocatorState
  {
    var p := block + HEADER_SIZE;
    s.(useCount := s.useCount[block := 0], objects := s.objects[p := Obj(block, size)],
       current := block, position := p + AlignUp(size), end := block + BLOCK_SIZE, pending := 1)
  }

  /** `allocate_large_object` after the system call: a header whose counter
      is one, and the object right after it. */
  function AddLarge(s: AllocatorState, block: nat, size: nat): AllocatorState
  {
    var p := block + HEADER_SIZE;
    s.(useCount := s.useCount[block := 1], objects := s.objects[p := Obj(block, size)])
  }

  /** The whole of `allocate_large_object`: a region of header plus object
      at `block`, whose header counts the one object. */
  function Large(s: AllocatorState, block: nat, size: nat): AllocatorState
  {
    AddLarge(Reserve(s, block, HEADER_SIZE + size), block, size)
  }

  /** The fast path of `alloc`: the object at the cursor, the cursor moved
      past it and rounded up, one more pending allocation. */
  function Bump(s: AllocatorState, size: nat): AllocatorState
  {
    var p := s.position;
    s.(objects := s.objects[p := Obj(s.current, size)], position := AlignUp(p + size), pending := s.pending + 1)
  }

  /** `free`: decrement the counter of the object's block and give the
      block back when it reaches zero. */
  function FreeObject(s: AllocatorState, ptr: nat): AllocatorState
    requires ptr in s.objects && s.objects[ptr].block in s.useCount
  {
    var b := s.objects[ptr].block;
    var count := s.useCount[b] - 1;
    var t := s.(useCount := s.useCount[b := count], objects := s.objects - {ptr});
    if count == 0 then t.(regions := s.regions - {b}, useCount := t.useCount - {b})
    else t
  }

  /** Closing a block that still holds objects flushes the pending count
      into its header, which becomes a closed block's positive count. */
  lemma {:induction false} CloseFlushes(s: AllocatorState, extra: set<nat>)
    requires InvOf(s, extra) && s.current != 0 && s.useCount[s.current] + s.pending != 0
    ensures InvOf(Close(s), extra)
  {
    assert Members(s.objects, s.current) != {};
    CloseKeepsLarge(s, extra);
  }

  /** Closing a block none of whose objects is live gives it back. */
  lemma {:induction false} CloseReleases(s: AllocatorState, extra: set<nat>)
    requires InvOf(s, extra) && s.current != 0 && s.useCount[s.current] + s.pending == 0
    ensures InvOf(Close(s), extra)
  {
    var c := s.current;
    forall p | p in s.objects
      ensures s.objects[p].block != c
    {
      assert p !in Members(s.objects, c);
    }
    CloseKeepsLarge(s, extra);
  }

  /** Closing leaves every large object alone in a closed block: no block
      is open afterwards. */
  lemma {:induction false} CloseKeepsLarge(s: AllocatorState, extra: set<nat>)
    requires InvOf(s, extra) && s.current != 0
    ensures LargeAlone(Close(s))
  {
    forall p | p in s.objects
      ensures s.objects[p].block != 0
    {
      assert s.objects[p].block in s.regions;
    }
  }

  /** Closing keeps the invariant, never touches a live object, and gives
      the open block back exactly when all its objects were freed. */
  lemma {:induction false} CloseKeeps(s: AllocatorState, extra: set<nat>)
    requires InvOf(s, extra)
    ensures InvOf(Close(s), extra)
    ensures Close(s).objects == s.objects && Close(s).current == 0 && Close(s).end == s.end
    ensures s.current != 0 ==> (s.current in Close(s).regions <==> Members(s.objects, s.current) != {})
  {
    if s.current != 0 {
      if s.useCount[s.current] + s.pending == 0 {
        CloseReleases(s, extra);
      } else {
        CloseFlushes(s, extra);
      }
    }
  }

  /** After a free, every other block keeps its members and the object's
      own block loses exactly the object. */
  lemma {:induction false} FreeMembers(s: AllocatorState, ptr: nat)
    requires ptr in s.objects
    ensures forall c :: c != s.objects[ptr].block ==> |Members(s.objects - {ptr}, c)| == |Members(s.objects, c)|
    ensures ptr in Members(s.objects, s.objects[ptr].block)
    ensures |Members(s.objects - {ptr}, s.objects[ptr].block)| == |Members(s.objects, s.objects[ptr].block)| - 1
  {
    forall c | c != s.objects[ptr].block
      ensures |Members(s.objects - {ptr}, c)| == |Members(s.objects, c)|
    {
      MembersRemove(s.objects, ptr, c);
    }
    MembersRemove(s.objects, ptr, s.objects[ptr].block);
  }

  /** A free keeps the regions well formed and every header live. */
  lemma {:induction false} FreeKeepsRegions(s: AllocatorState, ptr: nat)
    requires InvOf(s, {}) && ptr in s.objects
    ensures RegionsOk(FreeObject(s, ptr).regions) && Headers(FreeObject(s, ptr), {})
  {
  }

  /** A free keeps every other object inside its block. */
  lemma {:induction false} FreeKeepsPlaced(s: AllocatorState, ptr: nat)
    requires InvOf(s, {}) && ptr in s.objects
    ensures Placed(FreeObject(s, ptr))
  {
    var b := s.objects[ptr].block;
    if s.useCount[b] == 1 {
      assert b != s.current;
      forall p | p in s.objects - {ptr}
        ensures s.objects[p].block != b
      {
        if s.objects[p].block == b {
          assert {p, ptr} <= Members(s.objects, b);
          SubsetCard({p, ptr}, Members(s.objects, b));
        }
      }
    }
  }

  /** A free keeps every closed counter equal to its block's live objects. */
  lemma {:induction false} FreeKeepsClosed(s: AllocatorState, ptr: nat)
    requires InvOf(s, {}) && ptr in s.objects
    ensures ClosedCounts(FreeObject(s, ptr))
  {
    var b := s.objects[ptr].block;
    var t := FreeObject(s, ptr);
    FreeMembers(s, ptr);
    forall c | c in t.useCount && c != t.current
      ensures 0 < t.useCount[c] == |Members(t.objects, c)| <= MAX_PER_BLOCK
    {
      assert c in s.useCount && c != s.current;
      if c == b {
        assert t.useCount[c] == s.useCount[c] - 1;
      } else {
        assert t.useCount[c] == s.useCount[c];
      }
    }
  }

  /** A free keeps the open block's counter and pending count in step with
      its live objects. */
  lemma {:induction false} FreeKeepsOpen(s: AllocatorState, ptr: nat)
    requires InvOf(s, {}) && ptr in s.objects
    ensures OpenBlockOk(FreeObject(s, ptr))
  {
    FreeMembers(s, ptr);
    if s.current != 0 {
      FreeKeepsOpenBlock(s, ptr);
    }
  }

  lemma {:induction false} FreeKeepsOpenBlock(s: AllocatorState, ptr: nat)
    requires OpenBlockOk(s) && s.current != 0 && ptr in s.objects
    requires s.objects[ptr].block in s.useCount && (s.objects[ptr].block == s.current || s.useCount[s.objects[ptr].block] > 0)
    requires forall c :: c != s.objects[ptr].block ==> |Members(s.objects - {ptr}, c)| == |Members(s.objects, c)|
    requires ptr in Members(s.objects, s.objects[ptr].block)
    requires |Members(s.objects - {ptr}, s.objects[ptr].block)| == |Members(s.objects, s.objects[ptr].block)| - 1
    ensures OpenBlockOk(FreeObject(s, ptr))
  {
    var c := s.current;
    var t := FreeObject(s, ptr);
    assert t.current == c && t.position == s.position && t.end == s.end && t.pending == s.pending;
    assert c in t.regions && t.regions[c] == BLOCK_SIZE;
  }

  /** A free gives its block back exactly when the object was the last live
      one of a closed block. */
  lemma {:induction false} FreeReleasesIff(s: AllocatorState, ptr: nat)
    requires InvOf(s, {}) && ptr in s.objects
    ensures var b := s.objects[ptr].block;
      b !in FreeObject(s, ptr).regions <==> b != s.current && Members(s.objects, b) == {ptr}
  {
    var b := s.objects[ptr].block;
    assert ptr in Members(s.objects, b);
    if s.useCount[b] == 1 {
      SingletonOf(Members(s.objects, b), ptr);
    }
  }

  /** `free` finds the header by rounding down, keeps the invariant, and
      gives the block back exactly when the object was the last live one of
      a closed block. */
  lemma {:induction false} FreeKeeps(s: AllocatorState, ptr: nat)
    requires InvOf(s, {}) && ptr in s.objects
    ensures BlockOf(ptr) == s.objects[ptr].block
    ensures InvOf(FreeObject(s, ptr), {})
    ensures var b := s.objects[ptr].block;
      b !in FreeObject(s, ptr).regions <==> b != s.current && Members(s.objects, b) == {ptr}
  {
    BlockOfInside(s.objects[ptr].block, ptr);
    FreeKeepsRegions(s, ptr);
    FreeKeepsPlaced(s, ptr);
    FreeKeepsClosed(s, ptr);
    FreeKeepsOpen(s, ptr);
    FreeKeepsLarge(s, ptr);
    NoOverlapRemove(s.objects, ptr);
    FreeReleasesIff(s, ptr);
  }

  /** A free leaves every other large object alone in its block: the freed
      object cannot share that block. */
  lemma {:induction false} FreeKeepsLarge(s: AllocatorState, ptr: nat)
    requires InvOf(s, {}) && ptr in s.objects
    ensures LargeAlone(FreeObject(s, ptr))
  {
    var t := FreeObject(s, ptr);
    forall q | q in t.objects && MAX_OBJECT_SIZE < t.objects[q].size
      ensures t.objects[q].block != t.current && Members(t.objects, t.objects[q].block) == {q}
    {
      var b := s.objects[q].block;
      assert ptr !in Members(s.objects, b);
      MembersRemove(s.objects, ptr, b);
    }
  }

  /** The first `free` of any live large object gives its region back: its
      header counts one, as `allocate_large_object` set it, whatever was
      allocated and freed since. */
  lemma {:induction false} LargeFreedOnFirstFree(s: AllocatorState, ptr: nat)
    requires InvOf(s, {}) && ptr in s.objects && MAX_OBJECT_SIZE < s.objects[ptr].size
    ensures s.objects[ptr].block in s.useCount && s.useCount[s.objects[ptr].block] == 1
    ensures s.objects[ptr].block !in FreeObject(s, ptr).regions
  {
    FreeReleasesIff(s, ptr);
  }

  /** The fast-path object at the cursor overlaps no live object: those of
      the open block end below the cursor and the others lie in regions
      apart from the open block. */
  lemma {:induction false} BumpDisjoint(s: AllocatorState, size: nat)
    requires InvOf(s, {}) && s.current != 0 && 0 < size && s.position + size <= s.end
    ensures Disjoint(s.position, size, s.objects) && s.position !in s.objects
  {
    forall q | q in s.objects
      ensures s.position + size <= q || q + s.objects[q].size <= s.position
    {
      var o := s.objects[q];
      if o.block != s.current {
        assert o.block in s.regions;
      }
    }
  }

  lemma {:induction false} BumpKeepsPlaced(s: AllocatorState, size: nat)
    requires InvOf(s, {}) && s.current != 0 && 0 < size && s.position + size <= s.end
    ensures RegionsOk(Bump(s, size).regions) && Headers(Bump(s, size), {}) && Placed(Bump(s, size))
  {
  }

  /** The fast path adds the new object to the open block's members only. */
  lemma {:induction false} BumpMembers(s: AllocatorState, size: nat)
    requires s.position !in s.objects
    ensures forall b :: |Members(Bump(s, size).objects, b)| == |Members(s.objects, b)| + (if b == s.current then 1 else 0)
  {
    forall b
      ensures |Members(Bump(s, size).objects, b)| == |Members(s.objects, b)| + (if b == s.current then 1 else 0)
    {
      MembersInsert(s.objects, s.position, Obj(s.current, size), b);
    }
  }

  lemma {:induction false} BumpKeepsClosed(s: AllocatorState, size: nat)
    requires InvOf(s, {}) && s.current != 0 && 0 < size && s.position + size <= s.end
    ensures ClosedCounts(Bump(s, size))
  {
    BumpDisjoint(s, size);
    BumpMembers(s, size);
  }

  lemma {:induction false} BumpKeepsOpen(s: AllocatorState, size: nat)
    requires OpenBlockOk(s) && s.current != 0 && s.current % BLOCK_SIZE == 0
    requires 0 < size && s.position + size <= s.end && s.position !in s.objects
    ensures OpenBlockOk(Bump(s, size))
  {
    var c, p := s.current, s.position;
    var t := Bump(s, size);
    BumpMembers(s, size);
    BlockAligned(c);
    AlignUpStep(p, size);
    AlignUpBelow(p + size, s.end);
    forall q | q in t.objects && t.objects[q].block == c
      ensures q + t.objects[q].size <= t.position
    {
    }
  }

  /** A small object at the cursor joins the open block only, so every
      large object stays alone in its block. */
  lemma {:induction false} BumpKeepsLarge(s: AllocatorState, size: nat)
    requires LargeAlone(s) && s.position !in s.objects && size <= MAX_OBJECT_SIZE
    ensures LargeAlone(Bump(s, size))
  {
    var t := Bump(s, size);
    forall p | p in t.objects && MAX_OBJECT_SIZE < t.objects[p].size
      ensures t.objects[p].block != t.current && Members(t.objects, t.objects[p].block) == {p}
    {
      MembersInsert(s.objects, s.position, Obj(s.current, size), s.objects[p].block);
    }
  }

  /** The fast path keeps the invariant and places the object at the
      cursor, inside the open block, apart from every live object. */
  lemma {:induction false} BumpKeeps(s: AllocatorState, size: nat)
    requires InvOf(s, {}) && s.current != 0 && 0 < size <= MAX_OBJECT_SIZE && s.position + size <= s.end
    ensures InvOf(Bump(s, size), {})
    ensures NewObject(s.objects, Bump(s, size).objects, s.position, s.current, size)
    ensures s.current + HEADER_SIZE <= s.position
    ensures s.position + size <= Bump(s, size).position <= s.end
  {
    BumpDisjoint(s, size);
    BumpKeepsPlaced(s, size);
    BumpKeepsClosed(s, size);
    BumpKeepsOpen(s, size);
    BumpKeepsLarge(s, size);
    NoOverlapInsert(s.objects, s.position, Obj(s.current, size));
    BlockOfInside(s.current, s.position);
  }

  /** Every region other than `block` ends at or below it. */
  ghost predicate Above(regions: map<nat, nat>, block: nat)
  {
    forall b :: b in regions && b != block ==> b + regions[b] <= block
  }

  /** The conditions under which a region at `block` receives its first
      object: it is live, above every other region, and carries no header
      yet. */
  ghost predicate ReadyFor(s: AllocatorState, block: nat)
  {
    InvOf(s, {block}) && block in s.regions && Above(s.regions, block)
  }

  /** A fresh region keeps the open block apart from every other region. */
  lemma {:induction false} ReserveKeepsOpen(s: AllocatorState, block: nat, n: nat)
    requires OpenBlockOk(s) && Fresh(s.regions, block)
    ensures OpenBlockOk(Reserve(s, block, n))
  {
  }

  /** A fresh region from the system heap, not yet carrying a header, keeps
      the invariant and is ready for its first object. */
  lemma {:induction false} ReserveKeeps(s: AllocatorState, block: nat, n: nat)
    requires InvOf(s, {}) && Fresh(s.regions, block) && 0 < n
    ensures ReadyFor(Reserve(s, block, n), block) && Reserve(s, block, n).regions[block] == n
  {
    ReserveKeepsOpen(s, block, n);
  }

  /** Closing the open block leaves a region that is ready for its first
      object ready. */
  lemma {:induction false} CloseKeepsReady(s: AllocatorState, block: nat)
    requires ReadyFor(s, block)
    ensures ReadyFor(Close(s), block) && Close(s).regions[block] == s.regions[block] && Close(s).current == 0
    ensures Close(s).objects == s.objects
  {
    CloseKeeps(s, {block});
  }

  /** The first object of a ready region, right after its header, overlaps
      no live object, and no live object belongs to that region yet. */
  lemma {:induction false} FirstObjectDisjoint(s: AllocatorState, block: nat, size: nat)
    requires ReadyFor(s, block) && 0 < size
    ensures Disjoint(block + HEADER_SIZE, size, s.objects) && block + HEADER_SIZE !in s.objects
    ensures Members(s.objects, block) == {}
  {
    forall q | q in s.objects
      ensures block + HEADER_SIZE + size <= q || q + s.objects[q].size <= block + HEADER_SIZE
      ensures s.objects[q].block != block
    {
      assert s.objects[q].block in s.regions;
    }
  }

  /** Adding the first object of `block` adds it to that block's members
      only. */
  lemma {:induction false} FirstObjectMembers(objects: map<nat, Obj>, block: nat, size: nat)
    requires block + HEADER_SIZE !in objects && Members(objects, block) == {}
    ensures var t := objects[block + HEADER_SIZE := Obj(block, size)];
      forall b :: |Members(t, b)| == if b == block then 1 else |Members(objects, b)|
  {
    var t := objects[block + HEADER_SIZE := Obj(block, size)];
    forall b
      ensures |Members(t, b)| == if b == block then 1 else |Members(objects, b)|
    {
      MembersInsert(objects, block + HEADER_SIZE, Obj(block, size), b);
    }
  }

  lemma {:induction false} OpenNewKeepsPlaced(s: AllocatorState, block: nat, size: nat)
    requires ReadyFor(s, block) && s.current == 0 && s.regions[block] == BLOCK_SIZE && 0 < size <= MAX_OBJECT_SIZE
    ensures RegionsOk(OpenNew(s, block, size).regions) && Headers(OpenNew(s, block, size), {})
    ensures Placed(OpenNew(s, block, size))
  {
  }

  lemma {:induction false} OpenNewKeepsClosed(s: AllocatorState, block: nat, size: nat)
    requires ReadyFor(s, block) && s.current == 0 && 0 < size
    ensures ClosedCounts(OpenNew(s, block, size))
  {
    FirstObjectDisjoint(s, block, size);
    FirstObjectMembers(s.objects, block, size);
  }

  lemma {:induction false} OpenNewKeepsOpen(s: AllocatorState, block: nat, size: nat)
    requires block in s.regions && s.regions[block] == BLOCK_SIZE && Above(s.regions, block)
    requires 0 < block && block % BLOCK_SIZE == 0 && 0 < size <= MAX_OBJECT_SIZE
    requires block + HEADER_SIZE !in s.objects && Members(s.objects, block) == {}
    ensures OpenBlockOk(OpenNew(s, block, size))
  {
    var p := block + HEADER_SIZE;
    forall q | q in s.objects
      ensures s.objects[q].block != block
    {
      assert q !in Members(s.objects, block);
    }
    FirstObjectMembers(s.objects, block, size);
    BlockAligned(block);
    AlignUpStep(0, size);
    AlignUpBelow(size, MAX_OBJECT_SIZE);
    SumAligned(p, AlignUp(size));
  }

  /** `allocate_new_block` after the system call: the invariant holds again
      with the new block open and its first object apart from every live
      one. */
  lemma {:induction false} OpenNewKeeps(s: AllocatorState, block: nat, size: nat)
    requires ReadyFor(s, block) && s.current == 0 && s.regions[block] == BLOCK_SIZE && 0 < size <= MAX_OBJECT_SIZE
    ensures InvOf(OpenNew(s, block, size), {})
    ensures Disjoint(block + HEADER_SIZE, size, s.objects) && block + HEADER_SIZE !in s.objects
  {
    FirstObjectDisjoint(s, block, size);
    OpenNewKeepsPlaced(s, block, size);
    OpenNewKeepsClosed(s, block, size);
    OpenNewKeepsOpen(s, block, size);
    OpenNewKeepsLarge(s, block, size);
    NoOverlapInsert(s.objects, block + HEADER_SIZE, Obj(block, size));
  }

  /** The new open block is not the block of any large object, and its
      small first object joins no other block. */
  lemma {:induction false} OpenNewKeepsLarge(s: AllocatorState, block: nat, size: nat)
    requires ReadyFor(s, block) && size <= MAX_OBJECT_SIZE && block + HEADER_SIZE !in s.objects
    ensures LargeAlone(OpenNew(s, block, size))
  {
    var t := OpenNew(s, block, size);
    forall p | p in t.objects && MAX_OBJECT_SIZE < t.objects[p].size
      ensures t.objects[p].block != t.current && Members(t.objects, t.objects[p].block) == {p}
    {
      var b := s.objects[p].block;
      assert b in s.useCount;
      MembersInsert(s.objects, block + HEADER_SIZE, Obj(block, size), b);
    }
  }

  /** A new block: the system hands out a fresh block, the open block is
      closed, and the new block opens with the object right after its
      header, apart from every live object. */
  lemma {:induction false} NewBlockKeeps(s: AllocatorState, block: nat, size: nat)
    requires InvOf(s, {}) && Fresh(s.regions, block) && 0 < size <= MAX_OBJECT_SIZE
    ensures InvOf(OpenNew(Close(Reserve(s, block, BLOCK_SIZE)), block, size), {})
    ensures NewObject(s.objects, OpenNew(Close(Reserve(s, block, BLOCK_SIZE)), block, size).objects,
                      block + HEADER_SIZE, block, size)
  {
    var r := Reserve(s, block, BLOCK_SIZE);
    ReserveKeeps(s, block, BLOCK_SIZE);
    var c := Close(r);
    CloseKeepsReady(r, block);
    OpenNewKeeps(c, block, size);
    assert OpenNew(c, block, size).objects == s.objects[block + HEADER_SIZE := Obj(block, size)];
    BlockOfInside(block, block + HEADER_SIZE);
    BlockAligned(block);
  }

  lemma {:induction false} AddLargeKeepsPlaced(s: AllocatorState, block: nat, size: nat)
    requires ReadyFor(s, block) && s.regions[block] == HEADER_SIZE + size && 0 < size
    ensures RegionsOk(AddLarge(s, block, size).regions) && Headers(AddLarge(s, block, size), {})
    ensures Placed(AddLarge(s, block, size))
  {
  }

  lemma {:induction false} AddLargeKeepsCounts(s: AllocatorState, block: nat, size: nat)
    requires ReadyFor(s, block) && 0 < size
    ensures ClosedCounts(AddLarge(s, block, size)) && OpenBlockOk(AddLarge(s, block, size))
  {
    FirstObjectDisjoint(s, block, size);
    FirstObjectMembers(s.objects, block, size);
  }

  /** `allocate_large_object` after the system call: the invariant holds
      again with the object counted alone in its own region. */
  lemma {:induction false} AddLargeKeeps(s: AllocatorState, block: nat, size: nat)
    requires ReadyFor(s, block) && s.regions[block] == HEADER_SIZE + size && 0 < size
    ensures InvOf(AddLarge(s, block, size), {})
    ensures Disjoint(block + HEADER_SIZE, size, s.objects) && block + HEADER_SIZE !in s.objects
  {
    FirstObjectDisjoint(s, block, size);
    AddLargeKeepsPlaced(s, block, size);
    AddLargeKeepsCounts(s, block, size);
    AddLargeKeepsLarge(s, block, size);
    NoOverlapInsert(s.objects, block + HEADER_SIZE, Obj(block, size));
  }

  /** The new large object is the only member of its region, which is not
      the open block, and it joins no other block. */
  lemma {:induction false} AddLargeKeepsLarge(s: AllocatorState, block: nat, size: nat)
    requires ReadyFor(s, block) && 0 < size
    ensures LargeAlone(AddLarge(s, block, size))
  {
    var p0 := block + HEADER_SIZE;
    FirstObjectDisjoint(s, block, size);
    MembersInsert(s.objects, p0, Obj(block, size), block);
    assert block != s.current;
    var t := AddLarge(s, block, size);
    forall p | p in t.objects && MAX_OBJECT_SIZE < t.objects[p].size
      ensures t.objects[p].block != t.current && Members(t.objects, t.objects[p].block) == {p}
    {
      if p != p0 {
        var b := s.objects[p].block;
        assert b in s.useCount;
        MembersInsert(s.objects, p0, Obj(block, size), b);
      }
    }
  }

  /** A large object: the system hands out a fresh block-aligned region of
      header plus object, counted as one live object; the open block is
      untouched. */
  lemma {:induction false} LargeKeeps(s: AllocatorState, block: nat, size: nat)
    requires InvOf(s, {}) && Fresh(s.regions, block) && 0 < size
    ensures InvOf(Large(s, block, size), {})
    ensures NewObject(s.objects, Large(s, block, size).objects, block + HEADER_SIZE, block, size)
  {
    ReserveKeeps(s, block, HEADER_SIZE + size);
    AddLargeKeeps(Reserve(s, block, HEADER_SIZE + size), block, size);
    BlockOfInside(block, block + HEADER_SIZE);
    BlockAligned(block);
  }

  /** Freeing a large object right after allocating it gives its region
      back at once, its count going from one to zero, and leaves the state
      exactly as it was before the allocation. */
  lemma {:induction false} LargeFreedAtOnce(s: AllocatorState, block: nat, size: nat)
    requires block !in s.regions && block !in s.useCount && block + HEADER_SIZE !in s.objects
    ensures var t := Large(s, block, size);
      && block + HEADER_SIZE in t.objects && t.objects[block + HEADER_SIZE].block in t.useCount
      && FreeObject(t, block + HEADER_SIZE) == s
  {
    var t := Large(s, block, size);
    var u := FreeObject(t, block + HEADER_SIZE);
    assert u.regions == s.regions;
    assert u.useCount == s.useCount;
    assert u.objects == s.objects;
  }

  /** What closing needs: the open block's header and region are live and
      the flushed count fits in an `int32_t`. */
  ghost predicate Closable(s: AllocatorState)
  {
    s.current != 0 ==>
      && s.current in s.useCount && s.current in s.regions
      && -0x8000_0000 <= s.useCount[s.current] + s.pending <= INT32_MAX
  }

  lemma {:induction false} InvClosable(s: AllocatorState, extra: set<nat>)
    requires InvOf(s, extra)
    ensures Closable(s)
  {
  }

  /** With no live object left, the open block is the only region the
      allocator still holds: every closed block was given back. With no open
      block either, it holds none. */
  lemma {:induction false} NothingLiveLeavesOpenBlock(s: AllocatorState)
    requires InvOf(s, {}) && s.objects == map[]
    ensures s.regions.Keys <= {s.current}
    ensures s.current == 0 ==> s.regions == map[]
  {
    forall b | b in s.regions
      ensures b == s.current
    {
      assert |Members(s.objects, b)| == 0;
    }
    if s.current == 0 {
      assert s.regions.Keys == {};
    }
  }

  /** Objects live at the same time never overlap, whatever sequence of
      allocations and frees led to the state. */
  lemma {:induction false} LiveObjectsApart(s: AllocatorState, p: nat, q: nat)
    requires InvOf(s, {}) && p in s.objects && q in s.objects && p != q
    ensures p + s.objects[p].size <= q || q + s.objects[q].size <= p
  {
    assert Apart(s.objects, p, q);
  }

  /** The system allocator behind `aligned_alloc`, `posix_memalign` and
      `::free`. It hands out block-aligned regions at increasing addresses,
      never reuses one, and fails once a byte budget runs out. */
  class SystemHeap {
    /** Index of the lowest block never handed out; block 0 is the null
        page. */
    var nextBlock: nat
    /** Bytes it can still hand out. */
    var available: nat
    /** Start and size of every live region. */
    var live: map<nat, nat>

    ghost predicate Valid()
      reads this
    {
      && 0 < nextBlock
      && RegionsOk(live)
      && forall b :: b in live ==> b + live[b] <= BLOCK_SIZE * nextBlock
    }

    constructor (capacity: nat)
      ensures Valid() && live == map[] && available == capacity
    {
      nextBlock := 1;
      available := capacity;
      live := map[];
    }

    /** Null when the budget cannot cover `size` bytes; otherwise a fresh
        block-aligned region past every live one. */
    method AlignedAlloc(size: nat) returns (p: nat)
      requires Valid() && 0 < size
      modifies this
      ensures Valid()
      ensures old(available) < size ==> p == 0 && live == old(live) && available == old(available)
      ensures old(available) >= size ==>
        Fresh(old(live), p) && live == old(live)[p := size] && available == old(available) - size
    {
      if available < size {
        return 0;
      }
      p := BLOCK_SIZE * nextBlock;
      live := live[p := size];
      available := available - size;
      nextBlock := nextBlock + size / BLOCK_SIZE + 1;
    }

    method Free(p: nat)
      requires Valid() && p in live
      modifies this
      ensures Valid()
      ensures live == old(live) - {p} && available == old(available) + old(live)[p]
    {
      available := available + live[p];
      live := live - {p};
    }
  }

  /** `temporary_memory_allocator`. Block headers live in `useCount`, keyed
      by the block's address; `objects` is the ghost record of the live
      objects handed out. */
  class TemporaryMemoryAllocator {
    const heap: SystemHeap
    var current: nat
    var positionInCurrent: nat
    var currentEnd: nat
    var currentUseCount: i32
    var useCount: map<nat, i32>
    ghost var objects: map<nat, Obj>

    /** The allocator and the heap behind it, as a value. */
    ghost function Snap(): AllocatorState
      reads this, heap
    {
      AllocatorState(heap.live, useCount, objects, current, positionInCurrent, currentEnd, currentUseCount)
    }

    ghost predicate Valid()
      reads this, heap
    {
      heap.Valid() && InvOf(Snap(), {}) && (current == 0 ==> currentEnd == 0)
    }

    /** A default-constructed allocator: no block, all pointers null. */
    constructor (heap: SystemHeap)
      requires heap.Valid() && heap.live == map[]
      ensures Valid() && this.heap == heap
      ensures Snap() == AllocatorState(map[], map[], map[], 0, 0, 0, 0)
    {
      this.heap := heap;
      current, positionInCurrent, currentEnd, currentUseCount := 0, 0, 0, 0;
      useCount, objects := map[], map[];
    }

    /** `close_current`. */
    method CloseCurrent()
      requires heap.Valid() && Closable(Snap())
      modifies this, heap
      ensures heap.Valid() && Snap() == Close(old(Snap()))
    {
      ghost var s := Snap();
      if current != 0 {
        var count: i32 := useCount[current] + currentUseCount;
        useCount := useCount[current := count];
        if count == 0 {
          heap.Free(current);
          useCount := useCount - {current};
        }
        current, positionInCurrent, currentUseCount := 0, 0, 0;
      }
      assert Snap() == Close(s);
    }

    /** `allocate_new_block`: a fresh block from the heap, then the open
        block is closed and the new one opened with the object right after
        its header. Null (`bad_alloc`) leaves everything as it was. */
    method AllocateNewBlock(size: nat) returns (r: Option<nat>, ghost block: nat)
      requires Valid() && 0 < size <= MAX_OBJECT_SIZE
      modifies this, heap
      ensures Valid()
      ensures r.None? <==> old(heap.available) < BLOCK_SIZE
      ensures r.None? ==> Snap() == old(Snap())
      ensures r.Some? ==>
        && r.value == block + HEADER_SIZE && block == current && Fresh(old(heap.live), block)
        && NewObject(old(objects), objects, r.value, block, size)
        && Snap() == OpenNew(Close(Reserve(old(Snap()), block, BLOCK_SIZE)), block, size)
    {
      ghost var s := Snap();
      InvClosable(s, {});
      var b := heap.AlignedAlloc(BLOCK_SIZE);
      block := b;
      if b == 0 {
        assert Snap() == s;
        return None, block;
      }
      NewBlockKeeps(s, b, size);
      assert Snap() == Reserve(s, b, BLOCK_SIZE);
      CloseCurrent();
      OpenBlock(b, size);
      r := Some(b + HEADER_SIZE);
    }

    /** The tail of `allocate_new_block`: the header, the first object and
        the cursor of the new open block. */
    method OpenBlock(block: nat, size: nat)
      modifies this
      ensures Snap() == OpenNew(old(Snap()), block, size)
    {
      useCount := useCount[block := 0];
      objects := objects[block + HEADER_SIZE := Obj(block, size)];
      current := block;
      positionInCurrent := block + HEADER_SIZE + AlignUp(size);
      currentEnd := block + BLOCK_SIZE;
      currentUseCount := 1;
    }

    /** `allocate_large_object`: a block-aligned region of header plus
        object from the heap, whose header counts one object. Null
        (`bad_alloc`) leaves everything as it was. `block` is the region's
        start. */
    method AllocateLargeObject(size: nat) returns (r: Option<nat>, ghost block: nat)
      requires Valid() && MAX_OBJECT_SIZE < size
      modifies heap, this
      ensures Valid()
      ensures r.None? <==> old(heap.available) < HEADER_SIZE + size
      ensures r.None? ==> Snap() == old(Snap())
      ensures r.Some? ==>
        && r.value == block + HEADER_SIZE && Fresh(old(heap.live), block)
        && NewObject(old(objects), objects, r.value, block, size)
        && Snap() == Large(old(Snap()), block, size)
    {
      ghost var s := Snap();
      var b := AllocateRegion(size);
      block := b;
      if b == 0 {
        return None, block;
      }
      ghost var t := Large(s, b, size);
      assert Snap() == t;
      assert current == s.current && currentEnd == s.end;
      LargeKeeps(s, b, size);
      r := Some(b + HEADER_SIZE);
    }

    /** The body of `allocate_large_object` without its result: the region
        from the system allocator and, when there is one, its header set. */
    method AllocateRegion(size: nat) returns (b: nat)
      requires heap.Valid() && 0 < size
      modifies heap, this
      ensures heap.Valid()
      ensures b == 0 <==> old(heap.available) < HEADER_SIZE + size
      ensures b == 0 ==> Snap() == old(Snap())
      ensures b != 0 ==> Fresh(old(heap.live), b) && Snap() == Large(old(Snap()), b, size)
    {
      ghost var s := Snap();
      var n := HEADER_SIZE + size;
      b := heap.AlignedAlloc(n);
      if b == 0 {
        assert Snap() == s;
        return;
      }
      ghost var mid := Reserve(s, b, HEADER_SIZE + size);
      assert Snap() == mid;
      CountAlone(b, size);
    }

    /** The tail of `allocate_large_object`: a header counting the one
        object right after it. */
    method CountAlone(block: nat, size: nat)
      modifies this
      ensures Snap() == AddLarge(old(Snap()), block, size)
    {
      useCount := useCount[block := 1];
      objects := objects[block + HEADER_SIZE := Obj(block, size)];
    }

    /** `alloc`. Large objects get a region of their own; a small object
        goes at the cursor when it fits before the end of the open block,
        and otherwise opens a new block. Every object handed out is apart
        from every live one and recorded under `block`, the block whose
        header counts it, which is where its address rounds down to. Null
        stands for `bad_alloc`. */
    method Alloc(size: nat) returns (r: Option<nat>, ghost block: nat)
      requires Valid() && 0 < size
      modifies this, heap
      ensures Valid()
      ensures r.None? ==> Snap() == old(Snap())
      ensures r.Some? ==> NewObject(old(objects), objects, r.value, block, size)
      ensures r.Some? ==> r.value % ALIGNMENT == 0
      ensures MAX_OBJECT_SIZE < size ==>
        && (r.None? <==> old(heap.available) < HEADER_SIZE + size)
        && (r.Some? ==>
              r.value == block + HEADER_SIZE &&
              Snap() == Large(old(Snap()), block, size))
      ensures size <= MAX_OBJECT_SIZE && old(positionInCurrent) + size <= old(currentEnd) ==>
        r == Some(old(positionInCurrent)) && block == current && Snap() == Bump(old(Snap()), size)
      ensures size <= MAX_OBJECT_SIZE && old(currentEnd) < old(positionInCurrent) + size ==>
        && (r.None? <==> old(heap.available) < BLOCK_SIZE)
        && (r.Some? ==>
              r.value == block + HEADER_SIZE && block == current &&
              Snap() == OpenNew(Close(Reserve(old(Snap()), block, BLOCK_SIZE)), block, size))
    {
      if size > MAX_OBJECT_SIZE {
        r, block := AllocateLargeObject(size);
        return;
      }
      var pos := positionInCurrent;
      var endPos := pos + size;
      if endPos > currentEnd {
        r, block := AllocateNewBlock(size);
        return;
      }
      block := current;
      var p := AllocateAtCursor(size);
      r := Some(p);
    }

    /** The fast path of `alloc`: the object goes at the cursor of the open
        block, which moves past it. */
    method AllocateAtCursor(size: nat) returns (p: nat)
      requires Valid() && 0 < size <= MAX_OBJECT_SIZE && positionInCurrent + size <= currentEnd
      modifies this
      ensures Valid() && p == old(positionInCurrent) && current == old(current)
      ensures Snap() == Bump(old(Snap()), size)
      ensures NewObject(old(objects), objects, p, current, size)
    {
      ghost var s := Snap();
      BumpKeeps(s, size);
      p := positionInCurrent;
      Place(size);
    }

    /** The fast path of `alloc`: the object at the cursor, the cursor
        rounded up past it. */
    method Place(size: nat)
      requires -0x8000_0000 <= currentUseCount + 1 <= INT32_MAX
      modifies this
      ensures Snap() == Bump(old(Snap()), size)
    {
      objects := objects[positionInCurrent := Obj(current, size)];
      positionInCurrent := AlignUp(positionInCurrent + size);
      currentUseCount := currentUseCount + 1;
    }

    /** `free(void*)`: the header is found by rounding the address down to
        the block size; its counter is decremented and the block given back
        to the heap when the counter reaches zero. */
    method Free(ptr: nat)
      requires Valid() && ptr in objects
      modifies this, heap
      ensures Valid() && Snap() == FreeObject(old(Snap()), ptr)
    {
      ghost var s := Snap();
      FreeKeeps(s, ptr);
      var hdr := BlockOf(ptr);
      Release(ptr, hdr);
    }

    /** The body of `free` once the header is found. */
    method Release(ptr: nat, hdr: nat)
      requires heap.Valid() && ptr in objects && hdr == objects[ptr].block && hdr in useCount
      requires -0x8000_0000 < useCount[hdr]
      requires useCount[hdr] == 1 ==> hdr in heap.live
      modifies this, heap
      ensures heap.Valid() && Snap() == FreeObject(old(Snap()), ptr)
      ensures current == old(current) && currentEnd == old(currentEnd)
    {
      ghost var s := Snap();
      var count: i32 := useCount[hdr] - 1;
      useCount := useCount[hdr := count];
      objects := objects - {ptr};
      if count == 0 {
        heap.Free(hdr);
        useCount := useCount - {hdr};
      }
      assert Snap() == FreeObject(s, ptr);
    }

    /** `free(void*, size_t)`: the size is ignored. */
    method FreeSized(ptr: nat, size: nat)
      requires Valid() && ptr in objects
      modifies this, heap
      ensures Valid() && Snap() == FreeObject(old(Snap()), ptr)
    {
      Free(ptr);
    }
  }

  /** `use_temporary_allocator::operator new`, on a given allocator rather
      than the thread's own: one more live object, apart from the others,
      or null for `bad_alloc`. A large object leaves the open block alone. */
  method OperatorNew(a: TemporaryMemoryAllocator, n: nat) returns (r: Option<nat>)
    requires a.Valid() && 0 < n
    modifies a, a.heap
    ensures a.Valid()
    ensures r.None? ==> a.objects == old(a.objects)
    ensures r.Some? ==> r.value !in old(a.objects) && a.objects.Keys == old(a.objects).Keys + {r.value}
    ensures r.Some? ==> Disjoint(r.value, n, old(a.objects))
    ensures MAX_OBJECT_SIZE < n ==> a.current == old(a.current)
  {
    ghost var before := a.objects;
    ghost var block;
    r, block := a.Alloc(n);
    if r.Some? {
      assert NewObject(before, a.objects, r.value, block, n);
    }
  }

  /** `use_temporary_allocator::operator delete`: the object is no longer
      live, and the open block stays open. */
  method OperatorDelete(a: TemporaryMemoryAllocator, ptr: nat)
    requires a.Valid() && ptr in a.objects
    modifies a, a.heap
    ensures a.Valid()
    ensures a.objects == old(a.objects) - {ptr} && a.current == old(a.current)
    ensures a.objects.Keys == old(a.objects).Keys - {ptr}
  {
    a.Free(ptr);
  }

  /** `order` lists every index below `n` exactly once: a shuffle. */
  ghost predicate IsPermutation(order: seq<nat>, n: nat)
  {
    && |order| == n
    && (forall i :: 0 <= i < n ==> order[i] < n)
    && (forall j :: 0 <= j < n ==> j in order)
    && (forall i, j :: 0 <= i < j < n ==> order[i] != order[j])
  }

  /** `owner` gives, for each pointer it holds, the index of the allocation
      that returned it, and holds every pointer returned. */
  ghost predicate Owns(owner: map<nat, nat>, ptrs: seq<Option<nat>>)
  {
    && (forall p :: p in owner ==> owner[p] < |ptrs| && ptrs[owner[p]] == Some(p))
    && (forall j :: 0 <= j < |ptrs| && ptrs[j].Some? ==> ptrs[j].value in owner && owner[ptrs[j].value] == j)
  }

  /** Recording the result of one more allocation: a new pointer is owned
      by its index. */
  lemma {:induction false} OwnsExtend(owner: map<nat, nat>, ptrs: seq<Option<nat>>, r: Option<nat>)
    requires Owns(owner, ptrs) && (r.Some? ==> r.value !in owner)
    ensures r.Some? ==> Owns(owner[r.value := |ptrs|], ptrs + [r])
    ensures r.Some? ==> owner[r.value := |ptrs|].Keys == owner.Keys + {r.value}
    ensures r.None? ==> Owns(owner, ptrs + [r])
  {
    var ptrs' := ptrs + [r];
    assert forall j :: 0 <= j < |ptrs| ==> ptrs'[j] == ptrs[j];
  }

  /** The pointers still to be freed once the first `k` indices of `order`
      were handled. */
  ghost function Remaining(owner: map<nat, nat>, order: seq<nat>, k: nat): set<nat>
    requires k <= |order|
  {
    set p | p in owner && owner[p] in order[k..]
  }

  /** Handling index `order[k]` frees its pointer, if the allocation
      returned one, and nothing else. */
  lemma {:induction false} FreeStep(owner: map<nat, nat>, ptrs: seq<Option<nat>>, order: seq<nat>, k: nat)
    requires Owns(owner, ptrs) && IsPermutation(order, |ptrs|) && k < |order|
    ensures ptrs[order[k]].Some? ==>
      && ptrs[order[k]].value in Remaining(owner, order, k)
      && Remaining(owner, order, k + 1) == Remaining(owner, order, k) - {ptrs[order[k]].value}
    ensures ptrs[order[k]].None? ==> Remaining(owner, order, k + 1) == Remaining(owner, order, k)
  {
    var j := order[k];
    assert order[k..] == [j] + order[k + 1..];
    assert j !in order[k + 1..] by {
      forall i | k + 1 <= i < |order|
        ensures order[i] != j
      {
      }
    }
    if ptrs[j].Some? {
      assert Remaining(owner, order, k + 1) == Remaining(owner, order, k) - {ptrs[j].value};
    } else {
      assert Remaining(owner, order, k + 1) == Remaining(owner, order, k);
    }
  }

  /** Before the first free every live object is still to be freed, and
      after the last none is. */
  lemma {:induction false} RemainingEnds(owner: map<nat, nat>, ptrs: seq<Option<nat>>, order: seq<nat>)
    requires Owns(owner, ptrs) && IsPermutation(order, |ptrs|)
    ensures Remaining(owner, order, 0) == owner.Keys
    ensures Remaining(owner, order, |order|) == {}
  {
    assert order[0..] == order;
  }

  /** The allocation half of the unit tests: one object per size, on an
      allocator holding no live object. */
  method AllocateAll(a: TemporaryMemoryAllocator, sizes: seq<nat>)
      returns (ptrs: seq<Option<nat>>, ghost owner: map<nat, nat>)
    requires a.Valid() && a.objects == map[]
    requires forall i :: 0 <= i < |sizes| ==> 0 < sizes[i]
    modifies a, a.heap
    ensures a.Valid() && |ptrs| == |sizes|
    ensures Owns(owner, ptrs) && a.objects.Keys == owner.Keys
    ensures (forall i :: 0 <= i < |sizes| ==> MAX_OBJECT_SIZE < sizes[i]) ==> a.current == old(a.current)
  {
    ghost var allLarge := forall i :: 0 <= i < |sizes| ==> MAX_OBJECT_SIZE < sizes[i];
    owner := map[];
    ptrs := [];
    while |ptrs| < |sizes|
      invariant a.Valid() && |ptrs| <= |sizes|
      invariant Owns(owner, ptrs) && a.objects.Keys == owner.Keys
      invariant allLarge ==> a.current == old(a.current)
    {
      var i := |ptrs|;
      ghost var keys := a.objects.Keys;
      var r := OperatorNew(a, sizes[i]);
      OwnsExtend(owner, ptrs, r);
      if r.Some? {
        owner := owner[r.value := i];
      }
      ptrs := ptrs + [r];
    }
  }

  /** The free half of the unit tests: every pointer returned is freed, in
      the order the shuffle gives. */
  method FreeAll(a: TemporaryMemoryAllocator, ptrs: seq<Option<nat>>, ghost owner: map<nat, nat>, order: seq<nat>)
    requires a.Valid() && Owns(owner, ptrs) && a.objects.Keys == owner.Keys
    requires IsPermutation(order, |ptrs|)
    modifies a, a.heap
    ensures a.Valid() && a.objects == map[] && a.current == old(a.current)
    ensures a.heap.live.Keys <= {a.current} && (a.current == 0 ==> a.heap.live == map[])
  {
    RemainingEnds(owner, ptrs, order);
    var k := 0;
    while k < |order|
      invariant a.Valid() && k <= |order|
      invariant a.objects.Keys == Remaining(owner, order, k)
      invariant a.current == old(a.current)
    {
      FreeStep(owner, ptrs, order, k);
      var j := order[k];
      if ptrs[j].Some? {
        OperatorDelete(a, ptrs[j].value);
      }
      k := k + 1;
    }
    NothingLiveLeavesOpenBlock(a.Snap());
  }

  /** The two unit tests: a fresh allocator hands out one object per size,
      and the objects are then freed in shuffled order. Afterwards nothing
      is live, the open block is the only region left, and when every
      object was large no region is left at all. A null result
      (`bad_alloc`) is not freed. */
  method AllocateThenFreeAll(heap: SystemHeap, sizes: seq<nat>, order: seq<nat>)
      returns (a: TemporaryMemoryAllocator, ptrs: seq<Option<nat>>)
    requires heap.Valid() && heap.live == map[]
    requires forall i :: 0 <= i < |sizes| ==> 0 < sizes[i]
    requires IsPermutation(order, |sizes|)
    modifies heap
    ensures a.Valid() && a.heap == heap && |ptrs| == |sizes|
    ensures a.objects == map[] && heap.live.Keys <= {a.current}
    ensures (forall i :: 0 <= i < |sizes| ==> MAX_OBJECT_SIZE < sizes[i]) ==> heap.live == map[]
  {
    a := new TemporaryMemoryAllocator(heap);
    ghost var owner;
    ptrs, owner := AllocateAll(a, sizes);
    FreeAll(a, ptrs, owner, order);
  }
}
