/**
  Aligned allocation with a hidden offset record: `SCOREP_Memory_AlignedMalloc` and
  `SCOREP_Memory_AlignedFree` of SCOREP_Memory.c, on a 64-bit machine.

  The system's allocator is a parameter: it answers each request with a block of its choice that
  overlaps no block in use, or with null.
*/
module AlignedMemory {
  import opened Bits

  // ------------------------------------------------------------------ addresses

  /** The size asked for, in size_t arithmetic: the user's bytes, the record, and room to align. */
  function RawSize(alignment: nat, size: nat): nat
  {
    (size + 2 + alignment - 1) % 0x1_0000_0000_0000_0000
  }

  /** `roundupto(raw + sizeof(alignment_offset_t), alignment)`, with the mask ~(alignment - 1). */
  function Aligned(alignment: nat, raw: nat): nat
    requires 1 <= alignment <= 0x1_0000_0000_0000_0000
  {
    And(raw + 2 + (alignment - 1), 0x1_0000_0000_0000_0000 - alignment)
  }

  lemma WordPower()
    ensures Pow2(64) == 0x1_0000_0000_0000_0000 && Pow2(16) == 0x1_0000 && Pow2(15) == 0x8000
  {
    Pow2Values();
    Pow2Add(16, 16);
    Pow2Add(32, 32);
  }

  /** Rounding up gives the first multiple of the alignment that leaves room for the record. */
  lemma AlignedAddress(alignment: nat, raw: nat)
    requires IsPowerOfTwo(alignment) && alignment <= 0xFFFF && raw <= 0x8000_0000_0000_0000
    ensures 1 <= alignment <= 0x8000 && Aligned(alignment, raw) % alignment == 0
    ensures raw + 2 <= Aligned(alignment, raw) <= raw + 2 + alignment - 1
  {
    var n: nat :| alignment == Pow2(n);
    SmallPower(n);
    MaskedWord(raw + 2 + (alignment - 1), n);
    RoundedUp(raw + 2, alignment, raw + 2 + (alignment - 1), Aligned(alignment, raw));
  }

  lemma RoundedUp(x: nat, d: nat, y: nat, r: int)
    requires d >= 1 && y == x + (d - 1) && r == y - y % d
    ensures r % d == 0 && x <= r <= x + d - 1
  {
    LastMultiple(y, d);
  }

  lemma MaskedWord(x: nat, n: nat)
    requires n <= 15 && Pow2(n) <= 0x8000 && x < 0x1_0000_0000_0000_0000
    ensures Pow2(n) >= 1 && And(x, 0x1_0000_0000_0000_0000 - Pow2(n)) == x - x % Pow2(n)
  {
    WordPower();
    AndHighMask(x, n, 64);
  }

  lemma LastMultiple(x: nat, d: nat)
    requires d >= 1
    ensures (x - x % d) % d == 0 && x - d < x - x % d <= x
  {
    RemainderUnique(x - x % d, d, x / d, 0);
  }

  lemma SmallPower(n: nat)
    requires Pow2(n) <= 0xFFFF
    ensures n <= 15 && 1 <= Pow2(n) <= 0x8000
  {
    WordPower();
    if n >= 16 {
      Pow2Monotone(16, n);
    } else {
      Pow2Monotone(n, 15);
    }
  }

  /** The user's bytes lie within the raw block if and only if the size asked for did not wrap. */
  lemma ContainedIffNoWrap(alignment: nat, size: nat, raw: nat)
    requires IsPowerOfTwo(alignment) && alignment <= 0xFFFF && raw <= 0x8000_0000_0000_0000
    requires size < 0x1_0000_0000_0000_0000
    ensures alignment >= 1
    ensures Aligned(alignment, raw) + size <= raw + RawSize(alignment, size) <==>
            size + alignment + 1 < 0x1_0000_0000_0000_0000
  {
    AlignedAddress(alignment, raw);
  }

  /** Without a wrap the size asked for is the user's, two bytes for the record, and one less than the
      alignment; the wrap takes 2^64 off. */
  lemma SizeAskedFor(alignment: nat, size: nat)
    requires 1 <= alignment <= 0xFFFF && size < 0x1_0000_0000_0000_0000
    ensures RawSize(alignment, size) ==
            if size + alignment + 1 < 0x1_0000_0000_0000_0000 then size + alignment + 1
            else size + alignment + 1 - 0x1_0000_0000_0000_0000
  {
  }

  // ------------------------------------------------------------------ the heap

  /** A block from the system's allocator, and the size of the user's part. */
  datatype Block = Block(raw: nat, total: nat, size: nat)

  predicate Apart(a: Block, b: Block)
  {
    a.raw + a.total <= b.raw || b.raw + b.total <= a.raw
  }

  type Byte = b: nat | b < 0x100

  type Bytes = map<nat, Byte>

  /** The offset that the record in front of an address holds. */
  function Offset(mem: Bytes, big: bool, aligned: nat): nat
    requires aligned >= 2 && aligned - 2 in mem && aligned - 1 in mem
  {
    var first: nat, second: nat := mem[aligned - 2], mem[aligned - 1];
    if big then 0x100 * first + second else 0x100 * second + first
  }

  /** The 16-bit store in front of an address. */
  function StoreOffset(mem: Bytes, big: bool, aligned: nat, offset: nat): Bytes
    requires aligned >= 2 && offset <= 0xFFFF
  {
    var low: Byte, high: Byte := offset % 0x100, offset / 0x100;
    mem[aligned - 2 := if big then high else low][aligned - 1 := if big then low else high]
  }

  lemma StoredOffset(mem: Bytes, big: bool, aligned: nat, offset: nat)
    requires aligned >= 2 && offset <= 0xFFFF
    ensures Offset(StoreOffset(mem, big, aligned, offset), big, aligned) == offset
  {
  }

  /** The record and the user's bytes are inside the block, and the record leads back to it. */
  ghost predicate Intact(mem: Bytes, big: bool, block: Block, aligned: nat)
  {
    && block.raw > 0
    && block.raw + 2 <= aligned && aligned + block.size <= block.raw + block.total
    && block.size > 0
    && (forall a :: block.raw <= a < block.raw + block.total ==> a in mem)
    && Offset(mem, big, aligned) == aligned - block.raw
  }

  ghost predicate AllIntact(mem: Bytes, big: bool, live: map<nat, Block>)
  {
    forall p {:trigger Intact(mem, big, live[p], p)} :: p in live ==> Intact(mem, big, live[p], p)
  }

  /** The bytes that the system's allocator hands over, whatever they hold. */
  ghost predicate BytesOf(bytes: Bytes, raw: nat, total: nat)
  {
    forall a :: a in bytes <==> raw <= a < raw + total
  }

  ghost predicate AllApart(live: map<nat, Block>)
  {
    forall p, q {:trigger Apart(live[p], live[q])} :: p in live && q in live && p != q ==> Apart(live[p], live[q])
  }

  /** A write inside another block, or into the user's part of the same one, leaves a block intact. */
  lemma OneByteKeeps(mem: Bytes, big: bool, block: Block, aligned: nat, a: nat, value: Byte)
    requires Intact(mem, big, block, aligned)
    requires a < block.raw || aligned <= a
    ensures Intact(mem[a := value], big, block, aligned)
  {
  }

  lemma StoreKeeps(mem: Bytes, big: bool, block: Block, aligned: nat, other: Block, at: nat,
                   offset: nat)
    requires Intact(mem, big, block, aligned) && Apart(block, other)
    requires other.raw + 2 <= at <= other.raw + other.total && offset <= 0xFFFF
    ensures Intact(StoreOffset(mem, big, at, offset), big, block, aligned)
  {
    var low: Byte, high: Byte := offset % 0x100, offset / 0x100;
    var first, second := if big then high else low, if big then low else high;
    OneByteKeeps(mem, big, block, aligned, at - 2, first);
    OneByteKeeps(mem[at - 2 := first], big, block, aligned, at - 1, second);
  }

  /** Bytes of a block apart leave a block intact. */
  lemma OtherBytesKeep(mem: Bytes, big: bool, block: Block, aligned: nat, other: Block, bytes: Bytes)
    requires Intact(mem, big, block, aligned) && Apart(block, other) && BytesOf(bytes, other.raw, other.total)
    ensures Intact(mem + bytes, big, block, aligned)
  {
    assert aligned - 2 !in bytes && aligned - 1 !in bytes;
  }

  /** A new block, its record written, keeps all others intact. */
  lemma NewBlock(mem: Bytes, big: bool, live: map<nat, Block>, block: Block, aligned: nat,
                 bytes: Bytes)
    requires AllIntact(mem, big, live) && AllApart(live)
    requires block.raw > 0 && block.raw + 2 <= aligned && aligned + block.size <= block.raw + block.total
    requires block.size > 0 && aligned - block.raw <= 0xFFFF
    requires BytesOf(bytes, block.raw, block.total)
    requires forall p :: p in live ==> Apart(live[p], block)
    ensures aligned !in live
    ensures AllIntact(StoreOffset(mem + bytes, big, aligned, aligned - block.raw), big, live[aligned := block])
    ensures AllApart(live[aligned := block])
  {
    var handed, live' := mem + bytes, live[aligned := block];
    var mem' := StoreOffset(handed, big, aligned, aligned - block.raw);
    StoredOffset(handed, big, aligned, aligned - block.raw);
    forall p | p in live
      ensures p != aligned
    {
      assert Intact(mem, big, live[p], p) && Apart(live[p], block);
    }
    forall p | p in live'
      ensures Intact(mem', big, live'[p], p)
    {
      if p != aligned {
        assert Intact(mem, big, live[p], p);
        OtherBytesKeep(mem, big, live[p], p, block, bytes);
        StoreKeeps(handed, big, live[p], p, block, aligned, aligned - block.raw);
      }
    }
    forall p, q | p in live' && q in live' && p != q
      ensures Apart(live'[p], live'[q])
    {
      if p != aligned && q != aligned {
        assert Apart(live[p], live[q]);
      }
    }
  }

  /** The client's writes keep every record. */
  lemma ClientByte(mem: Bytes, big: bool, live: map<nat, Block>, aligned: nat, i: nat, value: Byte)
    requires AllIntact(mem, big, live) && AllApart(live) && aligned in live && i < live[aligned].size
    ensures AllIntact(mem[aligned + i := value], big, live)
  {
    assert Intact(mem, big, live[aligned], aligned);
    forall p | p in live
      ensures Intact(mem[aligned + i := value], big, live[p], p)
    {
      assert Intact(mem, big, live[p], p);
      assert p != aligned ==> Apart(live[p], live[aligned]);
      OneByteKeeps(mem, big, live[p], p, aligned + i, value);
    }
  }

  /** A block that the system's allocator may answer a request with: it overlaps none in use. */
  ghost predicate Available(live: map<nat, Block>, raw: nat, total: nat)
  {
    && raw > 0 && raw + total <= 0x8000_0000_0000_0000
    && (forall p :: p in live ==> Apart(live[p], Block(raw, total, 0)))
  }

  ghost predicate Acceptable(minAlignment: nat, alignment: nat, size: nat)
  {
    size != 0 && minAlignment <= alignment <= 0xFFFF && IsPowerOfTwo(alignment)
  }

  /** Accepted are the powers of two from the allocator's own alignment up to 2^15, for at least one byte. */
  lemma PowersAccepted(minAlignment: nat, alignment: nat, size: nat)
    ensures Acceptable(minAlignment, alignment, size) <==>
            size > 0 && minAlignment <= alignment && exists n: nat :: n <= 15 && alignment == Pow2(n)
  {
    WordPower();
    if Acceptable(minAlignment, alignment, size) {
      var n: nat :| alignment == Pow2(n);
      SmallPower(n);
    }
    if exists n: nat :: n <= 15 && alignment == Pow2(n) {
      var n: nat :| n <= 15 && alignment == Pow2(n);
      Pow2Monotone(n, 15);
    }
  }

  // ------------------------------------------------------------------ histories

  /** What may happen to the heap; the system's allocator chooses raw addresses and bytes. */
  datatype Step =
    | Malloc(alignment: nat, size: nat, raw: nat, bytes: Bytes)
    | Write(aligned: nat, i: nat, value: Byte)
    | Free(aligned: nat)

  datatype State = State(mem: Bytes, live: map<nat, Block>)

  ghost predicate Granted(minAlignment: nat, step: Step)
    requires step.Malloc?
  {
    Acceptable(minAlignment, step.alignment, step.size) && step.raw != 0
  }

  /** Blocks granted do not overlap those in use, and clients write to and free what they have. */
  ghost predicate Possible(minAlignment: nat, s: State, step: Step)
  {
    match step
    case Malloc(alignment, size, raw, bytes) =>
      && size < 0x1_0000_0000_0000_0000
      && (Granted(minAlignment, step) ==>
            && Available(s.live, raw, RawSize(alignment, size)) && BytesOf(bytes, raw, RawSize(alignment, size))
            && size + alignment + 1 < 0x1_0000_0000_0000_0000)
    case Write(aligned, i, _) => aligned in s.live && i < s.live[aligned].size
    case Free(aligned) => aligned != 0 ==> aligned in s.live
  }

  ghost function After(minAlignment: nat, big: bool, s: State, step: Step): State
    requires minAlignment >= 1 && Possible(minAlignment, s, step)
  {
    match step
    case Malloc(alignment, size, raw, bytes) =>
      if Granted(minAlignment, step) then
        AlignedAddress(alignment, raw);
        var aligned := Aligned(alignment, raw);
        State(StoreOffset(s.mem + bytes, big, aligned, aligned - raw),
              s.live[aligned := Block(raw, RawSize(alignment, size), size)])
      else s
    case Write(aligned, i, value) => s.(mem := s.mem[aligned + i := value])
    case Free(aligned) => if aligned == 0 then s else s.(live := s.live - {aligned})
  }

  ghost predicate History(minAlignment: nat, big: bool, s: State, steps: seq<Step>)
    requires minAlignment >= 1
    decreases |steps|
  {
    steps != [] ==>
      && Possible(minAlignment, s, steps[0])
      && History(minAlignment, big, After(minAlignment, big, s, steps[0]), steps[1..])
  }

  ghost function AfterAll(minAlignment: nat, big: bool, s: State, steps: seq<Step>): State
    requires minAlignment >= 1 && History(minAlignment, big, s, steps)
    decreases |steps|
  {
    if steps == [] then s
    else AfterAll(minAlignment, big, After(minAlignment, big, s, steps[0]), steps[1..])
  }

  /** The raw addresses that the system's allocator should get back, in order: those of the blocks that
      it handed out. */
  ghost function Returned(minAlignment: nat, big: bool, s: State, steps: seq<Step>): seq<nat>
    requires minAlignment >= 1 && History(minAlignment, big, s, steps)
    decreases |steps|
  {
    if steps == [] then []
    else
      var rest := Returned(minAlignment, big, After(minAlignment, big, s, steps[0]), steps[1..]);
      if steps[0].Free? && steps[0].aligned != 0 then [s.live[steps[0].aligned].raw] + rest else rest
  }

  class Heap {
    var mem: Bytes
    const minAlignment: nat
    const bigEndian: bool

    // The blocks in use, by the addresses that were handed out.
    ghost var live: map<nat, Block>

    ghost predicate Valid()
      reads this
    {
      minAlignment >= 1 && AllIntact(mem, bigEndian, live) && AllApart(live)
    }

    constructor (minAlignment: nat, bigEndian: bool)
      requires minAlignment >= 1
      ensures Valid() && live == map[] && this.minAlignment == minAlignment
    {
      this.minAlignment, this.bigEndian, mem, live := minAlignment, bigEndian, map[], map[];
    }

    /** `SCOREP_Memory_AlignedMalloc`; `raw` is what the system's allocator returns, and `bytes` are what
        that block happens to hold. The heap stays valid if and only if the size computed for a block that is
        handed out did not wrap. */
    method AlignedMalloc(alignment: nat, size: nat, raw: nat, bytes: Bytes) returns (aligned: nat)
      requires Valid() && size < 0x1_0000_0000_0000_0000
      requires Acceptable(minAlignment, alignment, size) && raw != 0 ==>
                 Available(live, raw, RawSize(alignment, size)) && BytesOf(bytes, raw, RawSize(alignment, size))
      modifies this
      ensures Valid() <==> aligned == 0 || size + alignment + 1 < 0x1_0000_0000_0000_0000
      ensures aligned != 0 <==> raw != 0 && Acceptable(minAlignment, alignment, size)
      ensures aligned == 0 ==> live == old(live) && mem == old(mem)
      ensures aligned != 0 ==>
                && alignment >= 1 && aligned == Aligned(alignment, raw) && aligned % alignment == 0
                && 2 <= aligned - raw <= 0xFFFF && (Valid() ==> aligned !in old(live))
                && live == old(live)[aligned := Block(raw, RawSize(alignment, size), size)]
                && mem == StoreOffset(old(mem) + bytes, bigEndian, aligned, aligned - raw)
    {
      if size == 0 {
        return 0;
      }
      if alignment < minAlignment {
        return 0;
      }
      if alignment > 0xFFFF {
        return 0;
      }
      PowerOfTwoTest(alignment);
      if And(alignment, alignment - 1) != 0 {
        return 0;
      }
      if raw == 0 {
        return 0;
      }
      AlignedAddress(alignment, raw);
      ContainedIffNoWrap(alignment, size, raw);
      aligned := Aligned(alignment, raw);
      ghost var block := Block(raw, RawSize(alignment, size), size);
      if size + alignment + 1 < 0x1_0000_0000_0000_0000 {
        NewBlock(mem, bigEndian, live, block, aligned, bytes);
      }
      mem := mem + bytes;
      mem := StoreOffset(mem, bigEndian, aligned, aligned - raw);
      live := live[aligned := block];
      assert Valid() ==> Intact(mem, bigEndian, live[aligned], aligned);
    }

    /** The client writes to one of its bytes. No record changes, so every block can still be found. */
    method ClientWrite(aligned: nat, i: nat, value: Byte)
      requires Valid() && aligned in live && i < live[aligned].size
      modifies this`mem
      ensures Valid() && live == old(live) && mem == old(mem)[aligned + i := value]
    {
      ClientByte(mem, bigEndian, live, aligned, i, value);
      mem := mem[aligned + i := value];
    }

    /** `SCOREP_Memory_AlignedFree`: what is given back to the system's allocator is exactly what it
        handed out. */
    method AlignedFree(aligned: nat) returns (raw: nat)
      requires Valid() && (aligned != 0 ==> aligned in live)
      modifies this
      ensures Valid() && mem == old(mem)
      ensures aligned == 0 ==> raw == 0 && live == old(live)
      ensures aligned != 0 ==> raw == old(live)[aligned].raw && live == old(live) - {aligned}
    {
      if aligned == 0 {
        return 0;
      }
      assert Intact(mem, bigEndian, live[aligned], aligned);
      var offset := Offset(mem, bigEndian, aligned);
      raw := aligned - offset;
      ghost var live' := live - {aligned};
      forall p | p in live'
        ensures Intact(mem, bigEndian, live'[p], p)
      {
        assert Intact(mem, bigEndian, live[p], p);
      }
      forall p, q | p in live' && q in live' && p != q
        ensures Apart(live'[p], live'[q])
      {
        assert Apart(live[p], live[q]);
      }
      live := live';
    }

    ghost function Current(): State
      reads this
    {
      State(mem, live)
    }

    /** One step of a history. */
    method Do(step: Step) returns (raw: nat)
      requires Valid() && Possible(minAlignment, Current(), step)
      modifies this
      ensures Valid() && Current() == After(minAlignment, bigEndian, old(Current()), step)
      ensures step.Free? && step.aligned != 0 ==> raw == old(live)[step.aligned].raw
    {
      raw := 0;
      match step {
        case Malloc(alignment, size, given, bytes) =>
          var _ := AlignedMalloc(alignment, size, given, bytes);
        case Write(aligned, i, value) => ClientWrite(aligned, i, value);
        case Free(aligned) => raw := AlignedFree(aligned);
      }
    }

    /** Over any history of allocations, writes and frees every block stays intact, and the system's
        allocator gets back exactly the addresses that it handed out. */
    method Run(steps: seq<Step>) returns (returned: seq<nat>)
      requires Valid() && History(minAlignment, bigEndian, Current(), steps)
      modifies this
      ensures Valid() && Current() == AfterAll(minAlignment, bigEndian, old(Current()), steps)
      ensures returned == Returned(minAlignment, bigEndian, old(Current()), steps)
    {
      returned := [];
      var k := 0;
      ghost var s, rest := Current(), steps;
      while k < |steps|
        invariant k <= |steps| && rest == steps[k..]
        invariant Valid() && History(minAlignment, bigEndian, Current(), rest)
        invariant AfterAll(minAlignment, bigEndian, Current(), rest) == AfterAll(minAlignment, bigEndian, s, steps)
        invariant returned + Returned(minAlignment, bigEndian, Current(), rest) ==
                  Returned(minAlignment, bigEndian, s, steps)
      {
        assert rest[0] == steps[k] && rest[1..] == steps[k + 1..];
        var raw := Do(steps[k]);
        rest := rest[1..];
        if steps[k].Free? && steps[k].aligned != 0 {
          ghost var more := Returned(minAlignment, bigEndian, Current(), rest);
          assert returned + ([raw] + more) == (returned + [raw]) + more;
          returned := returned + [raw];
        }
        k := k + 1;
      }
    }
  }

  /** Two blocks side by side, from nothing: both are granted, the client fills bytes of both, and both raw
      addresses are given back. */
  method TwoBlocks(minAlignment: nat, big: bool, alignment: nat, size: nat, raw: nat, raw': nat, bytes: Bytes,
                   bytes': Bytes, i: nat, value: Byte)
    returns (first: nat, second: nat)
    requires minAlignment >= 1 && Acceptable(minAlignment, alignment, size)
    requires i < size && size + alignment + 1 < 0x4000_0000_0000_0000
    requires 0 < raw && raw + RawSize(alignment, size) <= raw' <= 0x4000_0000_0000_0000
    requires BytesOf(bytes, raw, RawSize(alignment, size)) && BytesOf(bytes', raw', RawSize(alignment, size))
    ensures first == raw && second == raw'
  {
    var heap := new Heap(minAlignment, big);
    var p := heap.AlignedMalloc(alignment, size, raw, bytes);
    var q := heap.AlignedMalloc(alignment, size, raw', bytes');
    heap.ClientWrite(p, i, value);
    heap.ClientWrite(q, i, value);
    second := heap.AlignedFree(q);
    first := heap.AlignedFree(p);
  }
}
