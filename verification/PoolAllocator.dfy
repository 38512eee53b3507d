/** The bump allocator of the document: a linked list of chunks of which only the head serves
    allocations; blocks are never freed one by one. Pointers are addresses, NULL is None. */
module PoolAllocator {
  import opened Bytes

  /** Size of the header in front of each chunk's data, a multiple of eight. */
  const HEADER := 24

  /** Rounded up to a multiple of eight. */
  function Align(n: nat): (r: nat)
    ensures n <= r < n + 8 && r % 8 == 0
    ensures n % 8 == 0 ==> r == n
  {
    (n + 7) / 8 * 8
  }

  lemma AlignTwice(n: nat)
    ensures Align(Align(n)) == Align(n)
  {
  }

  class Chunk {
    const address: nat
    const capacity: nat
    const next: Chunk?
    var size: nat

    constructor (address: nat, capacity: nat, next: Chunk?)
      ensures this.address == address && this.capacity == capacity && this.next == next && size == 0
    {
      this.address, this.capacity, this.next, size := address, capacity, next, 0;
    }

    function Data(): nat {
      address + HEADER
    }

    function End(): nat {
      Data() + capacity
    }
  }

  /** No two of these address ranges share a byte. */
  predicate Apart(a: nat, n: nat, b: nat, m: nat) {
    a + n <= b || b + m <= a
  }

  predicate AllApart(live: map<nat, nat>) {
    forall a, b :: a in live && b in live && a != b ==> Apart(a, live[a], b, live[b])
  }

  /** One block put in, or resized, apart from the others. */
  lemma ApartWith(live: map<nat, nat>, p: nat, n: nat)
    requires AllApart(live)
    requires forall b :: b in live && b != p ==> Apart(b, live[b], p, n)
    ensures AllApart(live[p := n])
  {
    var after := live[p := n];
    forall a, b | a in after && b in after && a != b ensures Apart(a, after[a], b, after[b]) {
      assert a != p && b != p ==> Apart(a, live[a], b, live[b]);
      assert a == p ==> Apart(b, live[b], p, n);
      assert b == p ==> Apart(a, live[a], p, n);
    }
  }

  predicate ChunkSound(c: Chunk)
    reads c
  {
    c.address % 8 == 0 && c.size % 8 == 0 && c.size <= c.capacity
  }

  predicate ChunksApart(c: Chunk, d: Chunk) {
    c != d && (c.End() <= d.address || d.End() <= c.address)
  }

  predicate Linked(head: Chunk?, chunks: seq<Chunk>) {
    if chunks == [] then head == null else head == chunks[0] && Linked(chunks[0].next, chunks[1..])
  }

  predicate InChunk(c: Chunk, a: nat, n: nat)
    reads c
  {
    c.Data() <= a && a + n <= c.Data() + c.size
  }

  predicate Housed(chunks: seq<Chunk>, a: nat, n: nat)
    reads chunks
  {
    exists i :: 0 <= i < |chunks| && InChunk(chunks[i], a, n)
  }

  function TotalSize(chunks: seq<Chunk>): nat
    reads chunks
  {
    if chunks == [] then 0 else chunks[0].size + TotalSize(chunks[1..])
  }

  function TotalCapacity(chunks: seq<Chunk>): nat {
    if chunks == [] then 0 else chunks[0].capacity + TotalCapacity(chunks[1..])
  }

  lemma {:induction false} SizeWithinCapacity(chunks: seq<Chunk>)
    requires forall c :: c in chunks ==> ChunkSound(c)
    ensures TotalSize(chunks) <= TotalCapacity(chunks)
  {
    if chunks != [] {
      assert ChunkSound(chunks[0]);
      SizeWithinCapacity(chunks[1..]);
    }
  }

  /** The memory the base allocator hands out lies apart from all chunks in use. */
  predicate FreshMemory(chunks: seq<Chunk>, base: Option<nat>, capacity: nat) {
    match base
    case None => true
    case Some(a) =>
      a % 8 == 0 && forall i :: 0 <= i < |chunks| ==>
        a + HEADER + capacity <= chunks[i].address || chunks[i].End() <= a
  }

  // ---------- memory ----------

  /** The bytes of memory by address. */
  type Memory = nat -> Byte

  function Contents(m: Memory, a: nat, n: nat): (s: seq<Byte>)
    ensures |s| == n
  {
    seq(n, k requires 0 <= k < n => m(a + k))
  }

  lemma ContentsPrefix(m: Memory, a: nat, n: nat, k: nat)
    requires k <= n
    ensures Contents(m, a, k) == Contents(m, a, n)[..k]
  {
  }

  function Copied(m: Memory, from: nat, to: nat, n: nat): Memory {
    (a: nat) => if to <= a < to + n then m(from + (a - to)) else m(a)
  }

  lemma CopiedInto(m: Memory, from: nat, to: nat, n: nat)
    ensures Contents(Copied(m, from, to, n), to, n) == Contents(m, from, n)
  {
  }

  lemma CopiedElsewhere(m: Memory, from: nat, to: nat, n: nat, a: nat, k: nat)
    requires Apart(a, k, to, n)
    ensures Contents(Copied(m, from, to, n), a, k) == Contents(m, a, k)
  {
  }

  /** A block resized: at its old place or a free one, with the first bytes kept, and every
      other block as it was. */
  ghost predicate Resized(live: map<nat, nat>, m: Memory, from: nat, to: nat, kept: nat, size: nat,
                          newLive: map<nat, nat>, newMemory: Memory)
  {
    && (to == from || to !in live)
    && newLive == (live - {from})[to := size]
    && Contents(newMemory, to, kept) == Contents(m, from, kept)
    && forall b :: b in live && b != from ==> Contents(newMemory, b, live[b]) == Contents(m, b, live[b])
  }

  lemma ResizedInPlace(live: map<nat, nat>, m: Memory, p: nat, kept: nat, size: nat)
    requires p in live
    ensures Resized(live, m, p, p, kept, size, live[p := size], m)
  {
    assert live[p := size] == (live - {p})[p := size];
  }

  lemma ResizedByMove(live: map<nat, nat>, m: Memory, from: nat, to: nat, kept: nat, n: nat, size: nat)
    requires from in live && to !in live && live[from] == n && kept <= n <= size
    requires forall b :: b in live ==> Apart(b, live[b], to, size)
    ensures Resized(live, m, from, to, kept, size, live[to := size] - {from}, Copied(m, from, to, n))
  {
    var m' := Copied(m, from, to, n);
    assert live[to := size] - {from} == (live - {from})[to := size];
    CopiedInto(m, from, to, n);
    ContentsPrefix(m, from, n, kept);
    ContentsPrefix(m', to, n, kept);
    forall b | b in live && b != from ensures Contents(m', b, live[b]) == Contents(m, b, live[b]) {
      assert Apart(b, live[b], to, size);
      CopiedElsewhere(m, from, to, n, b, live[b]);
    }
  }

  // ---------- the allocator ----------

  class MemoryPoolAllocator {
    const chunkCapacity: nat
    var head: Chunk?
    const userBuffer: Chunk?
    var memory: Memory
    /** All chunks, the head first. */
    ghost var chunks: seq<Chunk>
    /** The blocks in use: for each address the aligned size. */
    ghost var live: map<nat, nat>

    ghost predicate Valid()
      reads this, chunks
    {
      ValidChunks() && ValidBlocks()
    }

    ghost predicate ValidChunks()
      reads this`head, this`chunks, chunks
    {
      && Linked(head, chunks)
      && (forall i :: 0 <= i < |chunks| ==> ChunkSound(chunks[i]))
      && (forall i, j :: 0 <= i < j < |chunks| ==> ChunksApart(chunks[i], chunks[j]))
      && (userBuffer != null ==> chunks != [] && chunks[|chunks| - 1] == userBuffer && userBuffer.next == null)
    }

    /** Blocks in use are aligned, inside the used part of a chunk, and apart from each other. */
    ghost predicate ValidBlocks()
      reads this`chunks, this`live, chunks
    {
      && (forall a :: a in live ==> a % 8 == 0 && live[a] > 0 && live[a] % 8 == 0 && Housed(chunks, a, live[a]))
      && AllApart(live)
    }

    constructor (chunkCapacity: nat, memory: Memory)
      ensures Valid() && chunks == [] && live == map[] && this.memory == memory
    {
      this.chunkCapacity, head, userBuffer, this.memory := chunkCapacity, null, null, memory;
      chunks, live := [], map[];
    }

    /** With a buffer of the user's as the first chunk. */
    constructor WithBuffer(buffer: nat, size: nat, chunkCapacity: nat, memory: Memory)
      requires buffer % 8 == 0 && size > HEADER
      ensures Valid() && live == map[] && this.memory == memory
      ensures |chunks| == 1 && chunks[0].address == buffer && chunks[0].capacity == size - HEADER
      ensures fresh(chunks[0]) && TotalSize(chunks) == 0
    {
      var c := new Chunk(buffer, size - HEADER, null);
      this.chunkCapacity, head, userBuffer, this.memory := chunkCapacity, c, c, memory;
      chunks, live := [c], map[];
    }

    method Size() returns (n: nat)
      requires Valid()
      ensures n == TotalSize(chunks) <= TotalCapacity(chunks)
    {
      n := 0;
      var c := head;
      ghost var rest := chunks;
      while c != null
        invariant Linked(c, rest) && n + TotalSize(rest) == TotalSize(chunks)
        decreases |rest|
      {
        n := n + c.size;
        c := c.next;
        rest := rest[1..];
      }
      SizeWithinCapacity(chunks);
    }

    method Capacity() returns (n: nat)
      requires Valid()
      ensures n == TotalCapacity(chunks)
    {
      n := 0;
      var c := head;
      ghost var rest := chunks;
      while c != null
        invariant Linked(c, rest) && n + TotalCapacity(rest) == TotalCapacity(chunks)
        decreases |rest|
      {
        n := n + c.capacity;
        c := c.next;
        rest := rest[1..];
      }
    }

    /** Frees the chunks down to the user's buffer, which is emptied. */
    method Clear()
      requires Valid()
      modifies this`head, this`chunks, this`live, chunks
      ensures Valid() && live == map[] && TotalSize(chunks) == 0
      ensures chunks == if userBuffer == null then [] else [userBuffer]
    {
      while head != null && head != userBuffer
        invariant ValidChunks() && forall c :: c in chunks ==> c in old(chunks)
        decreases |chunks|
      {
        chunks := chunks[1..];
        head := head.next;
      }
      live := map[];
      if head != null && head == userBuffer {
        assert chunks == [userBuffer];
        head.size := 0;
      }
    }

    /** Puts a new chunk in front of the list, if the base allocator gives memory for it. */
    method AddChunk(capacity: nat, base: Option<nat>) returns (ok: bool)
      requires Valid() && FreshMemory(chunks, base, capacity)
      modifies this`head, this`chunks
      ensures Valid() && ok == base.Some?
      ensures !ok ==> chunks == old(chunks)
      ensures ok ==> |chunks| == |old(chunks)| + 1 && chunks[1..] == old(chunks) && fresh(chunks[0])
                     && chunks[0].address == base.value && chunks[0].capacity == capacity && chunks[0].size == 0
    {
      if base.None? {
        return false;
      }
      var c := new Chunk(base.value, capacity, head);
      ghost var was := chunks;
      head := c;
      chunks := [c] + chunks;
      forall a | a in live ensures Housed(chunks, a, live[a]) {
        HousedBehind(c, was, a, live[a]);
      }
      return true;
    }

    /** Takes the next bytes of the head chunk, or of a new one when they do not fit. */
    method Malloc(size: nat, base: Option<nat>) returns (p: Option<nat>)
      requires Valid() && FreshMemory(chunks, base, if chunkCapacity > Align(size) then chunkCapacity else Align(size))
      modifies this`head, this`chunks, this`live, chunks
      ensures Valid()
      ensures p.Some? ==> p.value !in old(live) && live == old(live)[p.value := Align(size)]
      ensures p.Some? ==> TotalSize(chunks) == old(TotalSize(chunks)) + Align(size)
      ensures p.None? ==> live == old(live) && TotalSize(chunks) == old(TotalSize(chunks))
      ensures p.None? <==> size == 0 || (!old(Fits(Align(size))) && base.None?)
      ensures size == 0 || p.None? || old(Fits(Align(size))) ==> chunks == old(chunks)
      ensures p.Some? && old(Fits(Align(size))) ==> p.value == old(head.Data() + head.size)
      ensures p.Some? && !old(Fits(Align(size))) ==>
                && |chunks| == |old(chunks)| + 1 && chunks[1..] == old(chunks) && chunks[0].address == base.value
                && chunks[0].capacity == (if chunkCapacity > Align(size) then chunkCapacity else Align(size))
                && p.value == chunks[0].Data()
    {
      hide ValidChunks, ValidBlocks, Align, FreshMemory;
      HeadParts();
      if size == 0 {
        return None;
      }
      var n := Align(size);
      if head == null || head.size + n > head.capacity {
        var ok := AddChunk(if chunkCapacity > n then chunkCapacity else n, base);
        if !ok {
          return None;
        }
        HeadParts();
      }
      var address := head.Data() + head.size;
      Bump(n);
      return Some(address);
    }

    lemma HeadParts()
      requires Valid()
      ensures head == if chunks == [] then null else chunks[0]
    {
    }

    predicate Fits(n: nat)
      reads this, head
    {
      head != null && head.size + n <= head.capacity
    }

    /** The block ends where the used part of the head ends, and there is room behind it. */
    predicate Extends(p: nat, was: nat, now: nat)
      requires was <= now
      reads this, head
    {
      head != null && p + was == head.Data() + head.size && head.size + (now - was) <= head.capacity
    }

    /** Hands out the next n bytes of the head chunk. */
    method Bump(n: nat)
      requires Valid() && Fits(n) && n > 0 && n % 8 == 0
      modifies this`live, head
      ensures Valid()
      ensures var a := old(head.Data() + head.size); a !in old(live) && live == old(live)[a := n]
      ensures TotalSize(chunks) == old(TotalSize(chunks)) + n
    {
      hide ValidChunks, TotalSize, Linked, Housed, Apart, AllApart;
      var a := head.Data() + head.size;
      NextIsFree(n);
      NotItsOwn(live, a, n);
      ApartWith(live, a, n);
      head.size := head.size + n;
      BlocksStay(n);
      HousedFirst(chunks, a, n);
      live := live[a := n];
    }

    /** Gives the last block of the head chunk n more bytes. */
    method Extend(p: nat, n: nat)
      requires Valid() && Fits(n) && n > 0 && n % 8 == 0
      requires p in live && p + live[p] == head.Data() + head.size
      modifies this`live, head
      ensures Valid() && live == old(live)[p := old(live)[p] + n]
      ensures TotalSize(chunks) == old(TotalSize(chunks)) + n
    {
      hide ValidChunks, TotalSize, Linked, Housed, Apart, AllApart;
      NextIsFree(n);
      LastIsInHead(p);
      ExtendedIsApart(p, n);
      ApartWith(live, p, live[p] + n);
      head.size := head.size + n;
      BlocksStay(n);
      HousedFirst(chunks, p, live[p] + n);
      live := live[p := live[p] + n];
    }

    lemma ExtendedIsApart(p: nat, n: nat)
      requires ValidBlocks() && p in live && forall b :: b in live ==> Apart(b, live[b], p + live[p], n)
      ensures forall b :: b in live && b != p ==> Apart(b, live[b], p, live[p] + n)
    {
      hide Housed;
      forall b | b in live && b != p ensures Apart(b, live[b], p, live[p] + n) {
        assert Apart(b, live[b], p, live[p]) && Apart(b, live[b], p + live[p], n);
      }
    }

    /** A block that ends where the used part of the head ends lies in the head. */
    lemma LastIsInHead(p: nat)
      requires Valid() && head != null && p in live && p + live[p] == head.Data() + head.size
      ensures chunks != [] && head == chunks[0] && InChunk(head, p, live[p])
    {
      assert Housed(chunks, p, live[p]);
      var i :| 0 <= i < |chunks| && InChunk(chunks[i], p, live[p]);
      if i > 0 { assert ChunksApart(chunks[0], chunks[i]) && ChunkSound(chunks[i]) && ChunkSound(chunks[0]); }
    }

    /** Shrinks in place, grows in place at the end of the head, or moves. */
    method Realloc(original: Option<nat>, originalSize: nat, newSize: nat, base: Option<nat>) returns (p: Option<nat>)
      requires Valid()
      requires FreshMemory(chunks, base, if chunkCapacity > Align(newSize) then chunkCapacity else Align(newSize))
      requires original.Some? ==> original.value in live && live[original.value] == Align(originalSize)
      modifies this`head, this`chunks, this`live, this`memory, chunks
      ensures Valid()
      ensures newSize == 0 ==> p == None
      ensures p.None? && newSize > 0 ==> base.None?
      ensures p.None? ==> live == old(live) && memory == old(memory)
      ensures original.None? ==>
                && (p.None? <==> newSize == 0 || (!old(Fits(Align(newSize))) && base.None?))
                && TotalSize(chunks) == old(TotalSize(chunks)) + if p.Some? then Align(newSize) else 0
      ensures original.Some? && newSize > 0 && Align(newSize) <= Align(originalSize) ==>
                p == original && TotalSize(chunks) == old(TotalSize(chunks))
      ensures original.Some? && Align(newSize) > Align(originalSize)
              && old(Extends(original.value, Align(originalSize), Align(newSize))) ==>
                && p == original
                && TotalSize(chunks) == old(TotalSize(chunks)) + Align(newSize) - Align(originalSize)
      ensures original.Some? && Align(newSize) > Align(originalSize)
              && !old(Extends(original.value, Align(originalSize), Align(newSize))) ==>
                && (p.None? <==> !old(Fits(Align(newSize))) && base.None?)
                && p != original
                && TotalSize(chunks) == old(TotalSize(chunks)) + if p.Some? then Align(newSize) else 0
      ensures p.Some? && original.None? ==>
                p.value !in old(live) && live == old(live)[p.value := Align(newSize)] && memory == old(memory)
      ensures p.Some? && original.Some? ==>
                Resized(old(live), old(memory), original.value, p.value,
                        if originalSize < newSize then originalSize else newSize, Align(newSize), live, memory)
    {
      hide ValidChunks, ValidBlocks, FreshMemory, TotalSize, Resized;
      AlignTwice(newSize);
      HeadParts();
      if original.None? {
        p := Malloc(newSize, base);
        return;
      }
      if newSize == 0 {
        return None;
      }
      ghost var kept := if originalSize < newSize then originalSize else newSize;
      var was, now := Align(originalSize), Align(newSize);
      if was >= now {
        ResizedInPlace(live, memory, original.value, kept, now);
        Shrink(original.value, now);
        return original;
      }
      if head != null && original.value == head.Data() + head.size - was {
        if head.size + (now - was) <= head.capacity {
          ResizedInPlace(live, memory, original.value, kept, now);
          Extend(original.value, now - was);
          return original;
        }
      }
      p := MoveTo(original.value, was, now, kept, base);
    }

    /** The caller now counts on fewer bytes; the block stays where it is. */
    ghost method Shrink(p: nat, n: nat)
      requires Valid() && p in live && 0 < n <= live[p] && n % 8 == 0
      modifies this`live
      ensures Valid() && live == old(live)[p := n]
    {
      hide ValidChunks, Linked, AllApart;
      LessIsApart(live, p, n);
      HousedLess(chunks, p, live[p], n);
      live := live[p := n];
    }

    /** Copies a block into a new one, which replaces it. */
    method MoveTo(from: nat, n: nat, size: nat, ghost kept: nat, base: Option<nat>) returns (p: Option<nat>)
      requires Valid() && size == Align(size) && from in live && live[from] == n && kept <= n < size
      requires FreshMemory(chunks, base, if chunkCapacity > size then chunkCapacity else size)
      modifies this`head, this`chunks, this`live, this`memory, chunks
      ensures Valid() && (p.None? ==> base.None? && live == old(live) && memory == old(memory))
      ensures p.None? <==> !old(Fits(size)) && base.None?
      ensures p.Some? ==> p.value != from && TotalSize(chunks) == old(TotalSize(chunks)) + size
      ensures p.None? ==> TotalSize(chunks) == old(TotalSize(chunks))
      ensures p.Some? ==> Resized(old(live), old(memory), from, p.value, kept, size, live, memory)
    {
      hide ValidChunks, ValidBlocks, FreshMemory, TotalSize, Resized, Copied, Apart;
      p := Malloc(size, base);
      if p.Some? {
        NewIsApart(old(live), p.value, size);
        ResizedByMove(old(live), memory, from, p.value, kept, n, size);
        memory := Copied(memory, from, p.value, n);
        Forget(from);
      }
    }

    lemma NewIsApart(before: map<nat, nat>, p: nat, size: nat)
      requires ValidBlocks() && p !in before && live == before[p := size]
      ensures forall b :: b in before ==> Apart(b, before[b], p, size)
    {
      hide Housed;
      forall b | b in before ensures Apart(b, before[b], p, size) {
        assert b in live && p in live && live[b] == before[b];
      }
    }

    /** The caller no longer uses this block. */
    ghost method Forget(p: nat)
      requires Valid()
      modifies this`live
      ensures Valid() && live == old(live) - {p}
    {
      hide ValidChunks, Housed, Apart;
      live := live - {p};
    }

    /** The bytes after the used part of the head belong to no block. */
    lemma NextIsFree(n: nat)
      requires Valid() && Fits(n) && n > 0
      ensures var a := head.Data() + head.size; a % 8 == 0 && forall b :: b in live ==> Apart(b, live[b], a, n)
      ensures head == chunks[0] && ChunkSound(head) && head !in chunks[1..]
    {
      assert head == chunks[0] && ChunkSound(head);
      forall b | b in live ensures Apart(b, live[b], head.Data() + head.size, n) {
        assert Housed(chunks, b, live[b]);
        var i :| 0 <= i < |chunks| && InChunk(chunks[i], b, live[b]);
        if i > 0 { assert ChunksApart(chunks[0], chunks[i]) && ChunkSound(chunks[i]); }
      }
      forall i | 0 < i < |chunks| ensures chunks[i] != head { assert ChunksApart(chunks[0], chunks[i]); }
    }

    /** Raising the mark of the head moves no block out of its chunk. */
    twostate lemma BlocksStay(n: nat)
      requires old(Valid()) && old(head) == head && old(live) == live && old(chunks) == chunks && head != null
      requires unchanged(set c | c in chunks && c != head) && head == chunks[0] && head !in chunks[1..]
      requires head.size == old(head.size) + n && n % 8 == 0 && head.size <= head.capacity
      ensures Valid() && TotalSize(chunks) == old(TotalSize(chunks)) + n
    {
      forall i | 0 <= i < |chunks| ensures ChunkSound(chunks[i]) {
        assert old(ChunkSound(chunks[i]));
        if i > 0 { assert old(ChunksApart(chunks[0], chunks[i])); }
      }
      forall b | b in live ensures Housed(chunks, b, live[b]) {
        var i :| 0 <= i < |chunks| && old(InChunk(chunks[i], b, live[b]));
        if i > 0 { assert chunks[i] in chunks[1..]; }
        assert InChunk(chunks[i], b, live[b]);
      }
      assert forall c :: c in chunks[1..] ==> c in chunks && c != head;
      assert TotalSize(chunks[1..]) == old(TotalSize(chunks[1..]));
    }
  }

  lemma HousedFirst(chunks: seq<Chunk>, a: nat, n: nat)
    requires chunks != [] && InChunk(chunks[0], a, n)
    ensures Housed(chunks, a, n)
  {
  }

  /** No block starts where free bytes start. */
  lemma NotItsOwn(live: map<nat, nat>, a: nat, n: nat)
    requires n > 0 && (forall b :: b in live ==> live[b] > 0 && Apart(b, live[b], a, n))
    ensures a !in live
  {
  }

  lemma LessIsApart(live: map<nat, nat>, p: nat, n: nat)
    requires AllApart(live) && p in live && n <= live[p]
    ensures AllApart(live[p := n])
  {
    forall b | b in live && b != p ensures Apart(b, live[b], p, n) {
      assert Apart(b, live[b], p, live[p]);
    }
    ApartWith(live, p, n);
  }

  lemma HousedLess(chunks: seq<Chunk>, a: nat, n: nat, m: nat)
    requires Housed(chunks, a, n) && m <= n
    ensures Housed(chunks, a, m)
  {
    var i :| 0 <= i < |chunks| && InChunk(chunks[i], a, n);
    assert InChunk(chunks[i], a, m);
  }

  lemma HousedBehind(c: Chunk, chunks: seq<Chunk>, a: nat, n: nat)
    requires Housed(chunks, a, n)
    ensures Housed([c] + chunks, a, n)
  {
    var i :| 0 <= i < |chunks| && InChunk(chunks[i], a, n);
    assert ([c] + chunks)[i + 1] == chunks[i];
  }
}
