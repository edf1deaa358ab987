/**
 `MemoryPoolAllocator`: blocks cut off the head of a linked list of chunks.  A pointer is an address,
 0 for null; what the base allocator answers is a parameter of the calls that may ask it.
 */
module Allocator {
  import opened Bytes

  /** `RAPIDJSON_ALIGN`: up to the next multiple of eight. */
  function Align(n: nat): (r: nat)
    ensures n <= r < n + 8 && r % 8 == 0
    ensures n % 8 == 0 ==> r == n
  {
    (n + 7) / 8 * 8
  }

  /** The size of a chunk header, aligned. */
  const HEADER: nat := 24

  // ---- memory as regions ----

  /** The memory of a chunk: its header, then the filled and the free part of its capacity. */
  datatype Region = Region(address: nat, capacity: nat, size: nat) {
    function Begin(): nat {
      address + HEADER
    }

    function Top(): nat {
      Begin() + size
    }

    function End(): nat {
      Begin() + capacity
    }
  }

  predicate Apart(r: Region, s: Region) {
    r.End() <= s.address || s.End() <= r.address
  }

  /** Chunks overlap nowhere, and none is filled beyond its capacity. */
  predicate Sound(rs: seq<Region>) {
    && (forall i :: 0 <= i < |rs| ==> rs[i].size <= rs[i].capacity && rs[i].size % 8 == 0)
    && (forall i, j :: 0 <= i < j < |rs| ==> Apart(rs[i], rs[j]))
  }

  /** A block lies in the filled part of a chunk, at a multiple of eight from its beginning. */
  predicate Inside(r: Region, p: nat, n: nat) {
    r.Begin() <= p && p + n <= r.Top() && (p - r.Begin()) % 8 == 0
  }

  predicate Housed(rs: seq<Region>, p: nat, n: nat) {
    exists i :: 0 <= i < |rs| && Inside(rs[i], p, n)
  }

  /** Every live block is aligned and inside one chunk, and no two overlap. */
  predicate LiveIn(rs: seq<Region>, live: map<nat, nat>) {
    && (forall p :: p in live ==> live[p] > 0 && live[p] % 8 == 0 && Housed(rs, p, live[p]))
    && (forall p, q :: p in live && q in live && p < q ==> p + live[p] <= q)
  }

  /** The head chunk with `n` more bytes filled. */
  function Filled(rs: seq<Region>, n: nat): (r: seq<Region>)
    requires rs != []
    ensures |r| == |rs|
  {
    rs[0 := rs[0].(size := rs[0].size + n)]
  }

  predicate HeadFits(rs: seq<Region>, n: nat) {
    rs != [] && rs[0].size + n <= rs[0].capacity
  }

  /** The head chunk has room exactly when a block at its top ends inside it. */
  lemma FitsIff(rs: seq<Region>, n: nat)
    requires rs != []
    ensures HeadFits(rs, n) <==> rs[0].Top() + n <= rs[0].End()
  {
  }

  /** No live block reaches into the free part of the head chunk. */
  lemma FreeIsFree(rs: seq<Region>, live: map<nat, nat>, q: nat, n: nat)
    requires Sound(rs) && LiveIn(rs, live) && q in live && HeadFits(rs, n)
    ensures q + live[q] <= rs[0].Top() || rs[0].Top() + n <= q
  {
    var i :| 0 <= i < |rs| && Inside(rs[i], q, live[q]);
    if i > 0 {
      assert Apart(rs[0], rs[i]);
    }
  }

  lemma FilledHouses(rs: seq<Region>, n: nat, p: nat, size: nat)
    requires rs != [] && Housed(rs, p, size)
    ensures Housed(Filled(rs, n), p, size)
  {
    var i :| 0 <= i < |rs| && Inside(rs[i], p, size);
    assert Inside(Filled(rs, n)[i], p, size);
  }

  lemma FilledSound(rs: seq<Region>, n: nat)
    requires Sound(rs) && HeadFits(rs, n) && n % 8 == 0
    ensures Sound(Filled(rs, n))
  {
    hide Apart, Sound;
    var r := Filled(rs, n);
    forall i | 0 <= i < |r|
      ensures r[i].size <= r[i].capacity && r[i].size % 8 == 0
    {
      SoundAt(rs, i);
      if i == 0 {
        SumOfMultiples(rs[0].size, n);
      }
    }
    forall i, j | 0 <= i < j < |r|
      ensures Apart(r[i], r[j])
    {
      SoundPair(rs, i, j);
      FilledApart(rs, n, i, j);
    }
    SoundWhole(r);
  }

  lemma SoundAt(rs: seq<Region>, i: nat)
    requires Sound(rs) && i < |rs|
    ensures rs[i].size <= rs[i].capacity && rs[i].size % 8 == 0
  {
  }

  lemma SoundPair(rs: seq<Region>, i: nat, j: nat)
    requires Sound(rs) && i < j < |rs|
    ensures Apart(rs[i], rs[j])
  {
  }

  lemma SoundWhole(rs: seq<Region>)
    requires forall i :: 0 <= i < |rs| ==> rs[i].size <= rs[i].capacity && rs[i].size % 8 == 0
    requires forall i, j :: 0 <= i < j < |rs| ==> Apart(rs[i], rs[j])
    ensures Sound(rs)
  {
    hide Apart;
  }

  lemma FilledApart(rs: seq<Region>, n: nat, i: nat, j: nat)
    requires rs != [] && i < j < |rs| && Apart(rs[i], rs[j])
    ensures Apart(Filled(rs, n)[i], Filled(rs, n)[j])
  {
  }

  /** A new block at the top of the head chunk. */
  lemma CutSound(rs: seq<Region>, live: map<nat, nat>, n: nat)
    requires Sound(rs) && LiveIn(rs, live) && HeadFits(rs, n) && n > 0 && n % 8 == 0
    ensures rs[0].Top() !in live
    ensures Sound(Filled(rs, n)) && LiveIn(Filled(rs, n), live[rs[0].Top() := n])
  {
    hide Housed, Sound;
    var p, r, more := rs[0].Top(), Filled(rs, n), live[rs[0].Top() := n];
    FilledSound(rs, n);
    SoundAt(rs, 0);
    forall q | q in live
      ensures (q + live[q] <= p || p + n <= q) && Housed(r, q, live[q])
    {
      FreeIsFree(rs, live, q, n);
      FilledHouses(rs, n, q, live[q]);
    }
    assert Housed(r, p, n) by { Hosts(r, 0, p, n); }
  }

  lemma Hosts(rs: seq<Region>, i: nat, p: nat, n: nat)
    requires i < |rs| && Inside(rs[i], p, n)
    ensures Housed(rs, p, n)
  {
  }

  /** The last block of the head chunk, made longer in place. */
  lemma GrowSound(rs: seq<Region>, live: map<nat, nat>, p: nat, n: nat)
    requires Sound(rs) && LiveIn(rs, live) && HeadFits(rs, n) && n % 8 == 0
    requires p in live && p + live[p] == rs[0].Top()
    ensures Sound(Filled(rs, n)) && LiveIn(Filled(rs, n), live[p := live[p] + n])
  {
    hide Housed, Sound;
    var r := Filled(rs, n);
    FilledSound(rs, n);
    SumOfMultiples(live[p], n);
    assert Housed(r, p, live[p] + n) by {
      LastInHead(rs, live, p);
      Hosts(r, 0, p, live[p] + n);
    }
    forall q | q in live && q != p
      ensures (q + live[q] <= p || p + live[p] + n <= q) && Housed(r, q, live[q])
    {
      FreeIsFree(rs, live, q, n);
      FilledHouses(rs, n, q, live[q]);
    }
  }

  /** A live block that ends where the head chunk is filled to lies in the head chunk: an older chunk
      holds none that does. */
  lemma LastInHead(rs: seq<Region>, live: map<nat, nat>, p: nat)
    requires Sound(rs) && LiveIn(rs, live) && rs != [] && p in live && p + live[p] == rs[0].Top()
    ensures Inside(rs[0], p, live[p])
  {
    var i :| 0 <= i < |rs| && Inside(rs[i], p, live[p]);
    assert i == 0 || Apart(rs[0], rs[i]);
  }

  /** Chunks at multiples of eight make every block one too. */
  lemma BlocksAligned(rs: seq<Region>, live: map<nat, nat>, p: nat)
    requires LiveIn(rs, live) && p in live && forall i :: 0 <= i < |rs| ==> rs[i].address % 8 == 0
    ensures p % 8 == 0
  {
    var i :| 0 <= i < |rs| && Inside(rs[i], p, live[p]);
    InsideAligned(rs[i], p, live[p]);
  }

  lemma InsideAligned(r: Region, p: nat, n: nat)
    requires Inside(r, p, n) && r.address % 8 == 0
    ensures p % 8 == 0
  {
    SumOfMultiples(r.address, HEADER);
    SumOfMultiples(r.Begin(), p - r.Begin());
  }

  lemma SumOfMultiples(a: nat, b: nat)
    requires a % 8 == 0 && b % 8 == 0
    ensures (a + b) % 8 == 0
  {
  }

  /** No block is at address 0. */
  lemma NullIsNotLive(rs: seq<Region>, live: map<nat, nat>)
    requires LiveIn(rs, live)
    ensures 0 !in live && live - {0} == live
  {
    forall p | p in live
      ensures p != 0
    {
      var i :| 0 <= i < |rs| && Inside(rs[i], p, live[p]);
    }
  }

  lemma LiveIsWhole(rs: seq<Region>, live: map<nat, nat>, p: nat)
    requires LiveIn(rs, live) && p in live
    ensures live[p] % 8 == 0
  {
  }

  lemma EmptiedSound(r: Region)
    ensures Sound([r.(size := 0)])
  {
  }

  lemma AddSound(rs: seq<Region>, live: map<nat, nat>, r: Region)
    requires Sound(rs) && LiveIn(rs, live) && r.size == 0 && forall i :: 0 <= i < |rs| ==> Apart(r, rs[i])
    ensures Sound([r] + rs) && LiveIn([r] + rs, live)
  {
    hide Sound, Apart, Housed;
    var all := [r] + rs;
    forall i | 0 <= i < |all|
      ensures all[i].size <= all[i].capacity && all[i].size % 8 == 0
    {
      if i > 0 {
        SoundAt(rs, i - 1);
      }
    }
    forall i, j | 0 <= i < j < |all|
      ensures Apart(all[i], all[j])
    {
      if i > 0 {
        SoundPair(rs, i - 1, j - 1);
      }
    }
    SoundWhole(all);
    forall p | p in live
      ensures Housed(all, p, live[p])
    {
      HousedBehind(rs, r, p, live[p]);
    }
  }

  lemma HousedBehind(rs: seq<Region>, r: Region, p: nat, n: nat)
    requires Housed(rs, p, n)
    ensures Housed([r] + rs, p, n)
  {
    var i :| 0 <= i < |rs| && Inside(rs[i], p, n);
    assert ([r] + rs)[i + 1] == rs[i];
  }

  lemma FewerSound(rs: seq<Region>, live: map<nat, nat>, p: nat, n: nat)
    requires LiveIn(rs, live) && p in live && 0 < n <= live[p] && n % 8 == 0
    ensures LiveIn(rs, live - {p}) && LiveIn(rs, live[p := n])
  {
    var i :| 0 <= i < |rs| && Inside(rs[i], p, live[p]);
    assert Inside(rs[i], p, n);
  }

  lemma NothingLive(rs: seq<Region>)
    ensures LiveIn(rs, map[])
  {
  }

  // ---- totals ----

  function SizeOf(rs: seq<Region>): nat {
    if rs == [] then 0 else rs[0].size + SizeOf(rs[1..])
  }

  function CapacityOf(rs: seq<Region>): nat {
    if rs == [] then 0 else rs[0].capacity + CapacityOf(rs[1..])
  }

  /** A block cut adds its bytes to the size, a new chunk its capacity to the capacity, and nothing else. */
  lemma TotalsGrow(rs: seq<Region>, n: nat, at: nat, capacity: nat)
    ensures rs != [] ==> SizeOf(Filled(rs, n)) == SizeOf(rs) + n && CapacityOf(Filled(rs, n)) == CapacityOf(rs)
    ensures var more := [Region(at, capacity, 0)] + rs;
      SizeOf(more) == SizeOf(rs) && CapacityOf(more) == CapacityOf(rs) + capacity
  {
    var more := [Region(at, capacity, 0)] + rs;
    assert more[1..] == rs;
    if rs != [] {
      assert Filled(rs, n)[1..] == rs[1..];
    }
  }

  lemma {:induction false} SizeWithinCapacity(rs: seq<Region>)
    requires Sound(rs)
    ensures SizeOf(rs) <= CapacityOf(rs)
  {
    if rs != [] {
      assert forall i, j :: 0 <= i < j < |rs[1..]| ==> Apart(rs[1..][i], rs[1..][j]) by {
        forall i, j | 0 <= i < j < |rs[1..]|
          ensures Apart(rs[1..][i], rs[1..][j])
        {
          assert Apart(rs[i + 1], rs[j + 1]);
        }
      }
      SizeWithinCapacity(rs[1..]);
    }
  }

  // ---- contents ----

  function Load(memory: map<nat, byte>, a: nat): byte {
    if a in memory then memory[a] else 0
  }

  lemma Stored(memory: map<nat, byte>, at: nat, value: byte, a: nat)
    ensures Load(memory[at := value], a) == if a == at then value else Load(memory, a)
  {
  }

  /** The first `n` bytes at an address. */
  function Contents(memory: map<nat, byte>, a: nat, n: nat): (t: Text)
    ensures |t| == n
    decreases n
  {
    if n == 0 then [] else Contents(memory, a, n - 1) + [Load(memory, a + n - 1)]
  }

  lemma {:induction false} SameContents(m: map<nat, byte>, a: nat, m': map<nat, byte>, a': nat, n: nat)
    requires forall b :: a <= b < a + n ==> Load(m, b) == Load(m', a' + (b - a))
    ensures Contents(m, a, n) == Contents(m', a', n)
    decreases n
  {
    if n > 0 {
      SameContents(m, a, m', a', n - 1);
      assert Load(m, a + n - 1) == Load(m', a' + (a + n - 1 - a));
    }
  }

  // ---- the allocator ----

  class ChunkHeader {
    const address: nat
    const capacity: nat
    var size: nat
    var next: ChunkHeader?

    constructor (address: nat, capacity: nat, next: ChunkHeader?)
      ensures this.address == address && this.capacity == capacity && size == 0 && this.next == next
    {
      this.address := address;
      this.capacity := capacity;
      size := 0;
      this.next := next;
    }

    ghost predicate Is(r: Region)
      reads this
    {
      address == r.address && capacity == r.capacity && size == r.size
    }
  }

  /** Distinct headers, each pointing to the next, with the contents of `rs`. */
  ghost predicate Chained(cs: seq<ChunkHeader>, rs: seq<Region>)
    reads cs
  {
    && |cs| == |rs|
    && (cs != [] ==>
          && cs[0] !in cs[1..] && cs[0].Is(rs[0])
          && cs[0].next == (if |cs| > 1 then cs[1] else null)
          && Chained(cs[1..], rs[1..]))
  }

  lemma {:induction false} ChainedAt(cs: seq<ChunkHeader>, rs: seq<Region>, i: nat)
    requires Chained(cs, rs) && i < |cs|
    ensures cs[i].Is(rs[i]) && cs[i].next == if i + 1 < |cs| then cs[i + 1] else null
  {
    if i > 0 {
      ChainedAt(cs[1..], rs[1..], i - 1);
    }
  }

  lemma LastInRest<T>(s: seq<T>)
    requires s != []
    ensures |s| > 1 ==> s[|s| - 1] in s[1..]
  {
    var rest := s[1..];
    assert |s| > 1 ==> rest[|rest| - 1] == s[|s| - 1];
  }

  class MemoryPoolAllocator {
    var chunkHead: ChunkHeader?
    const chunkCapacity: nat
    const userBuffer: ChunkHeader?
    var memory: map<nat, byte>
    ghost var chunks: seq<ChunkHeader>
    ghost var regions: seq<Region>
    ghost var live: map<nat, nat>

    /** The linked list is `chunks`, and its headers hold what `regions` says. */
    ghost predicate Linked()
      reads this`chunkHead, this`chunks, this`regions, chunks
    {
      && chunkHead == (if chunks == [] then null else chunks[0])
      && Chained(chunks, regions)
      && (userBuffer != null ==> chunks != [] && chunks[|chunks| - 1] == userBuffer)
    }

    ghost predicate Valid()
      reads this, chunks
    {
      Linked() && Sound(regions) && LiveIn(regions, live)
    }

    constructor (chunkSize: nat)
      ensures Valid() && regions == [] && live == map[] && chunkCapacity == chunkSize && userBuffer == null
    {
      chunkHead, memory := null, map[];
      chunkCapacity, userBuffer := chunkSize, null;
      chunks, regions, live := [], [], map[];
    }

    /** With a buffer of the user's as the first chunk. */
    constructor WithBuffer(buffer: nat, size: nat, chunkSize: nat)
      requires buffer != 0 && size > HEADER
      ensures Valid() && live == map[] && fresh(chunks) && chunkCapacity == chunkSize && userBuffer != null
      ensures regions == [Region(buffer, size - HEADER, 0)]
    {
      var c := new ChunkHeader(buffer, size - HEADER, null);
      chunkHead, memory := c, map[];
      chunkCapacity, userBuffer := chunkSize, c;
      chunks, regions, live := [c], [Region(buffer, size - HEADER, 0)], map[];
    }

    method Size() returns (size: nat)
      requires Valid()
      ensures size == SizeOf(regions) <= CapacityOf(regions)
    {
      hide LiveIn;
      SizeWithinCapacity(regions);
      size := 0;
      var c := chunkHead;
      ghost var i: nat := 0;
      while c != null
        invariant i <= |chunks| && c == if i < |chunks| then chunks[i] else null
        invariant size + SizeOf(regions[i..]) == SizeOf(regions)
        decreases |chunks| - i
      {
        assert regions[i..][1..] == regions[i + 1..];
        ChainedAt(chunks, regions, i);
        size := size + c.size;
        c := c.next;
        i := i + 1;
      }
    }

    method Capacity() returns (capacity: nat)
      requires Valid()
      ensures capacity == CapacityOf(regions)
    {
      hide LiveIn, Sound;
      capacity := 0;
      var c := chunkHead;
      ghost var i: nat := 0;
      while c != null
        invariant i <= |chunks| && c == if i < |chunks| then chunks[i] else null
        invariant capacity + CapacityOf(regions[i..]) == CapacityOf(regions)
        decreases |chunks| - i
      {
        assert regions[i..][1..] == regions[i + 1..];
        ChainedAt(chunks, regions, i);
        capacity := capacity + c.capacity;
        c := c.next;
        i := i + 1;
      }
    }

    /** Where the base allocator may put a chunk: nowhere it has handed out already. */
    ghost predicate Offers(at: nat, capacity: nat)
      reads this
    {
      at != 0 ==> forall i :: 0 <= i < |regions| ==> Apart(Region(at, capacity, 0), regions[i])
    }

    /** No less than the block, nor than the usual capacity, and one of the two. */
    function ChunkSize(n: nat): (r: nat)
      ensures r >= n && r >= chunkCapacity && (r == n || r == chunkCapacity)
    {
      if chunkCapacity > n then chunkCapacity else n
    }

    /** `at` is the base allocator's answer, 0 when it has no memory left. */
    method AddChunk(capacity: nat, at: nat) returns (ok: bool)
      requires Valid() && Offers(at, capacity)
      modifies this`chunkHead, this`chunks, this`regions
      ensures Valid() && ok == (at != 0)
      ensures !ok ==> chunks == old(chunks) && regions == old(regions)
      ensures ok ==> regions == [Region(at, capacity, 0)] + old(regions)
      ensures ok ==> |chunks| == 1 + |old(chunks)| && fresh(chunks[0]) && chunks[1..] == old(chunks)
    {
      hide LiveIn, Sound;
      if at == 0 {
        return false;
      }
      var chunk := new ChunkHeader(at, capacity, chunkHead);
      AddSound(regions, live, Region(at, capacity, 0));
      chunkHead := chunk;
      chunks := [chunk] + chunks;
      regions := [Region(at, capacity, 0)] + regions;
      assert chunks[1..] == old(chunks) && regions[1..] == old(regions);
      ok := true;
    }

    /** The head chunk filled by `n` more bytes. */
    method Fill(head: ChunkHeader, n: nat)
      requires Linked() && head == chunkHead
      modifies head`size, this`regions
      ensures Linked() && regions == Filled(old(regions), n) && head.size == old(head.size) + n
    {
      head.size := head.size + n;
      regions := Filled(regions, n);
      assert regions[1..] == old(regions)[1..];
    }

    /** The regions a call starts to cut from: with a chunk added when the head has no room. */
    ghost function Roomy(n: nat, at: nat): seq<Region>
      reads this
    {
      if HeadFits(regions, n) then regions else [Region(at, ChunkSize(n), 0)] + regions
    }

    /** The block is the last one of the head chunk, and the chunk has room behind it. */
    ghost predicate Grows(original: nat, originalSize: nat, newSize: nat)
      requires originalSize <= newSize
      reads this
    {
      && regions != [] && original + originalSize == regions[0].Top()
      && HeadFits(regions, newSize - originalSize)
    }

    /** A new block, apart from every live one: at the top of the head chunk, or of a new one. */
    method Malloc(size0: nat, at: nat) returns (p: nat)
      requires Valid() && Offers(at, ChunkSize(Align(size0)))
      modifies this`chunkHead, this`chunks, this`regions, this`live, chunks
      ensures Valid() && (forall c :: c in chunks ==> c in old(chunks) || fresh(c))
      ensures p == 0 <==> size0 == 0 || (at == 0 && !HeadFits(old(regions), Align(size0)))
      ensures p == 0 ==> live == old(live) && regions == old(regions)
      ensures p != 0 ==>
        var rs := old(Roomy(Align(size0), at));
        && p == rs[0].Top() && regions == Filled(rs, Align(size0))
        && p !in old(live) && live == old(live)[p := Align(size0)]
    {
      hide LiveIn, Sound;
      if size0 == 0 {
        return 0;
      }
      var size := Align(size0);
      if chunkHead == null || chunkHead.size + size > chunkHead.capacity {
        var ok := AddChunk(if chunkCapacity > size then chunkCapacity else size, at);
        if !ok {
          return 0;
        }
      }
      p := chunkHead.address + HEADER + chunkHead.size;
      CutSound(regions, live, size);
      Fill(chunkHead, size);
      live := live[p := size];
    }

    /** `memcpy` between blocks that do not overlap. */
    method MemCpy(target: nat, source: nat, n: nat)
      requires target + n <= source || source + n <= target
      modifies this`memory
      ensures forall a :: target <= a < target + n ==> Load(memory, a) == Load(old(memory), source + (a - target))
      ensures forall a: nat :: a < target || target + n <= a ==> Load(memory, a) == Load(old(memory), a)
    {
      hide Load;
      for i := 0 to n
        invariant forall a :: target <= a < target + i ==> Load(memory, a) == Load(old(memory), source + (a - target))
        invariant forall a: nat :: a < target || target + i <= a ==> Load(memory, a) == Load(old(memory), a)
      {
        assert Load(memory, source + i) == Load(old(memory), source + i);
        ghost var before := memory;
        memory := memory[target + i := Load(memory, source + i)];
        forall a: nat
          ensures a != target + i ==> Load(memory, a) == Load(before, a)
          ensures a == target + i ==> Load(memory, a) == Load(old(memory), source + i)
        {
          Stored(before, target + i, Load(before, source + i), a);
        }
      }
    }

    /**
     Keeps the block, grows it in place, or moves it to a new one; the old contents come along, and no
     other live block changes.  Which of the three, and where to, follows from the sizes and the head
     chunk alone, and null is answered only when `Malloc` has none, or nothing is asked for.
     */
    method Realloc(original: nat, originalSize0: nat, newSize0: nat, at: nat) returns (p: nat)
      requires Valid() && Offers(at, ChunkSize(Align(newSize0)))
      requires original != 0 ==> original in live && live[original] == Align(originalSize0)
      modifies this`chunkHead, this`chunks, this`regions, this`live, this`memory, chunks
      ensures Valid() && (forall c :: c in chunks ==> c in old(chunks) || fresh(c))
      ensures p == 0 ==> live == old(live) && memory == old(memory)
      ensures p != 0 ==> live == (old(live) - {original})[p := Align(newSize0)]
      ensures p != 0 && original != 0 ==>
        var n := if originalSize0 <= newSize0 then Align(originalSize0) else Align(newSize0);
        Contents(memory, p, n) == Contents(old(memory), original, n)
      ensures forall q :: q in old(live) && q != original ==>
        q in live && live[q] == old(live)[q] && Contents(memory, q, live[q]) == Contents(old(memory), q, live[q])
      ensures p == 0 ==> regions == old(regions)
      ensures original == 0 ==> (p == 0 <==> newSize0 == 0 || (at == 0 && !HeadFits(old(regions), Align(newSize0))))
      ensures original == 0 && p != 0 ==>
        var rs := old(Roomy(Align(newSize0), at));
        p == rs[0].Top() && regions == Filled(rs, Align(newSize0))
      ensures original != 0 && newSize0 == 0 ==> p == 0
      ensures original != 0 && 0 < newSize0 && Align(newSize0) <= Align(originalSize0) ==>
        p == original && regions == old(regions)
      ensures original != 0 && Align(originalSize0) < Align(newSize0) ==>
        var (m, n) := (Align(originalSize0), Align(newSize0));
        var grows, rs := old(Grows(original, m, n)), old(Roomy(n, at));
        && (p == 0 <==> at == 0 && !grows && !HeadFits(old(regions), n))
        && (grows ==> p == original && regions == Filled(old(regions), n - m))
        && (!grows && p != 0 ==> p == rs[0].Top() && regions == Filled(rs, n))
    {
      hide LiveIn, Sound, Linked, Contents, Load, Housed, HeadFits, Valid, Apart;
      if original == 0 {
        NullNotLive();
        p := Malloc(newSize0, at);
        return;
      }
      if newSize0 == 0 {
        return 0;
      }
      var originalSize, newSize := Align(originalSize0), Align(newSize0);
      if originalSize >= newSize {
        KeepFewer(original, newSize);
        return original;
      }
      p := Enlarge(original, originalSize, newSize, at);
    }

    /** The block needs more room: behind it, or elsewhere. */
    method Enlarge(original: nat, originalSize: nat, newSize: nat, at: nat) returns (p: nat)
      requires Valid() && Offers(at, ChunkSize(newSize)) && newSize % 8 == 0
      requires original in live && original != 0 && live[original] == originalSize < newSize
      modifies this`chunkHead, this`chunks, this`regions, this`live, this`memory, chunks
      ensures Valid() && (forall c :: c in chunks ==> c in old(chunks) || fresh(c))
      ensures p == 0 ==> live == old(live) && memory == old(memory)
      ensures p != 0 ==> live == (old(live) - {original})[p := newSize]
      ensures p != 0 ==> Contents(memory, p, originalSize) == Contents(old(memory), original, originalSize)
      ensures forall q :: q in old(live) && q != original ==>
        q in live && live[q] == old(live)[q] && Contents(memory, q, live[q]) == Contents(old(memory), q, live[q])
      ensures p == 0 <==> at == 0 && !old(Grows(original, originalSize, newSize)) && !HeadFits(old(regions), newSize)
      ensures old(Grows(original, originalSize, newSize)) ==>
        p == original && regions == Filled(old(regions), newSize - originalSize)
      ensures p != 0 && !old(Grows(original, originalSize, newSize)) ==>
        p == old(Roomy(newSize, at))[0].Top() && regions == Filled(old(Roomy(newSize, at)), newSize)
      ensures p == 0 ==> regions == old(regions)
    {
      hide LiveIn, Sound, Linked, Contents, Load, Housed, HeadFits, Valid, Apart;
      LiveHasChunk(original);
      var grown := Grow(original, originalSize, newSize);
      if grown {
        return original;
      }
      p := Malloc(newSize, at);
      if p != 0 {
        MoveTo(p, original, originalSize, newSize);
      }
    }

    lemma NullNotLive()
      requires Valid()
      ensures 0 !in live && live - {0} == live
    {
      NullIsNotLive(regions, live);
    }

    /** The block stays where it is; its owner may use less of it. */
    ghost method KeepFewer(original: nat, newSize: nat)
      requires Valid() && original in live && 0 < newSize <= live[original] && newSize % 8 == 0
      modifies this`live
      ensures Valid() && live == old(live)[original := newSize]
    {
      hide LiveIn, Sound;
      FewerSound(regions, live, original, newSize);
      live := live[original := newSize];
    }

    /** Expands a block in place if it is the last allocation and there is room behind it. */
    method Grow(original: nat, originalSize: nat, newSize: nat) returns (grown: bool)
      requires Valid() && original in live && live[original] == originalSize < newSize && newSize % 8 == 0
      modifies this`regions, this`live, chunks
      ensures Valid() && chunks == old(chunks) != []
      ensures grown == old(Grows(original, originalSize, newSize))
      ensures grown ==> live == old(live)[original := newSize]
      ensures grown ==> regions == Filled(old(regions), newSize - originalSize)
      ensures !grown ==> live == old(live) && regions == old(regions)
    {
      hide Sound, LiveIn;
      LiveHasChunk(original);
      LiveIsWhole(regions, live, original);
      if original == chunkHead.address + HEADER + chunkHead.size - originalSize {
        var increment := newSize - originalSize;
        if chunkHead.size + increment <= chunkHead.capacity {
          GrowSound(regions, live, original, increment);
          Fill(chunkHead, increment);
          live := live[original := newSize];
          return true;
        }
      }
      grown := false;
    }

    lemma LiveHasChunk(p: nat)
      requires Valid() && p in live
      ensures chunks != [] && regions != []
    {
    }

    /** Copies a block into one just allocated, and gives the old one up. */
    method MoveTo(p: nat, original: nat, originalSize: nat, newSize: nat)
      requires Valid() && p in live && live[p] == newSize && original in live && live[original] == originalSize
      requires p != original && originalSize <= newSize
      modifies this`memory, this`live
      ensures Valid() && live == old(live) - {original}
      ensures Contents(memory, p, originalSize) == Contents(old(memory), original, originalSize)
      ensures forall q :: q in live && q != p ==> Contents(memory, q, live[q]) == Contents(old(memory), q, live[q])
    {
      hide Sound, Housed;
      MemCpy(p, original, originalSize);
      SameContents(memory, p, old(memory), original, originalSize);
      forall q | q in live && q != p
        ensures Contents(memory, q, live[q]) == Contents(old(memory), q, live[q])
      {
        SameContents(memory, q, old(memory), q, live[q]);
      }
      FewerSound(regions, live, original, live[original]);
      live := live - {original};
    }

    /** Frees every chunk but the user's buffer, which is emptied. */
    method Clear()
      requires Valid()
      modifies this`chunkHead, this`chunks, this`regions, this`live, chunks
      ensures Valid() && live == map[]
      ensures userBuffer == null ==> regions == []
      ensures userBuffer != null ==>
        |regions| == 1 && chunks == [userBuffer] && regions[0] == old(regions)[|old(regions)| - 1].(size := 0)
    {
      hide Sound, LiveIn;
      live := map[];
      NothingLive(regions);
      while chunkHead != null && chunkHead != userBuffer
        invariant Valid() && live == map[]
        invariant |chunks| <= |old(chunks)| && chunks == old(chunks)[|old(chunks)| - |chunks|..]
        invariant regions == old(regions)[|old(regions)| - |regions|..]
        decreases |chunks|
      {
        DropHead();
      }
      if chunkHead != null && chunkHead == userBuffer {
        EmptyBuffer();
      }
    }

    /** Only the user's buffer is left, and is emptied. */
    method EmptyBuffer()
      requires Valid() && live == map[] && chunkHead != null && chunkHead == userBuffer
      modifies chunkHead`size, this`regions
      ensures Valid() && chunks == [userBuffer] && |old(regions)| == 1
      ensures regions == [old(regions)[0].(size := 0)]
    {
      hide Sound, LiveIn;
      OnlyBuffer();
      EmptiedSound(regions[0]);
      NothingLive([regions[0].(size := 0)]);
      assert chunkHead.Is(regions[0]) && chunkHead.next == null;
      chunkHead.size := 0;
      regions := [regions[0].(size := 0)];
      assert chunks == [chunkHead] && chunks[1..] == [] && regions[1..] == [];
      assert Chained(chunks[1..], regions[1..]);
    }

    /** The user's buffer is the last chunk, so behind it there is none. */
    lemma OnlyBuffer()
      requires Linked() && chunkHead != null && chunkHead == userBuffer
      ensures |chunks| == 1
    {
      LastInRest(chunks);
    }

    method DropHead()
      requires Valid() && live == map[] && chunkHead != null && chunkHead != userBuffer
      modifies this`chunkHead, this`chunks, this`regions
      ensures Valid() && chunks == old(chunks)[1..] && regions == old(regions)[1..]
    {
      hide LiveIn;
      chunkHead := chunkHead.next;
      chunks := chunks[1..];
      regions := regions[1..];
      NothingLive(regions);
      forall i, j | 0 <= i < j < |regions|
        ensures Apart(regions[i], regions[j])
      {
        assert Apart(old(regions)[i + 1], old(regions)[j + 1]);
      }
    }
  }
}
