/** The page and free-list allocator (android/jni/jsoncpp/json_batchallocator.h:30-124). */
module BatchAllocator {
  import opened Basics
  import opened Words

  /** The place of an object: a page, by order of creation, and an offset in objects. */
  datatype Block = Block(page: nat, offset: nat)

  /** The two parameters: objects in a block and objects in a page. */
  datatype Sizes = Sizes(perAllocation: nat, perPage: nat) {
    ghost predicate Valid() {
      perAllocation > 0 && perPage >= 16
    }
  }

  /** The state as its users see it: pages, the part of the last one that is handed out, the free list
      and the blocks in use. */
  datatype Pool = Pool(pages: nat, used: nat, free: seq<Block>, live: set<Block>)

  datatype Op = Allocate | Release(block: Block)

  const START: Pool := Pool(1, 0, [], {})

  /** Page 0 is the dummy page of the constructor. */
  function End(s: Sizes, page: nat): nat {
    if page == 0 then 0 else s.perPage
  }

  /** The block that `allocate` returns. */
  function Allocated(s: Sizes, p: Pool): Block
    requires p.pages > 0
  {
    if p.free != [] then p.free[0]
    else if p.used == End(s, p.pages - 1) then Block(p.pages, 0)
    else Block(p.pages - 1, p.used)
  }

  function AfterAllocate(s: Sizes, p: Pool): Pool
    requires p.pages > 0
  {
    var live := p.live + {Allocated(s, p)};
    if p.free != [] then p.(free := p.free[1..], live := live)
    else if p.used == End(s, p.pages - 1) then Pool(p.pages + 1, s.perAllocation, [], live)
    else Pool(p.pages, p.used + s.perAllocation, [], live)
  }

  function AfterRelease(p: Pool, b: Block): Pool {
    p.(free := [b] + p.free, live := p.live - {b})
  }

  /** A run; `None` if the user releases what is not in use. */
  function Run(s: Sizes, ops: seq<Op>): (p: Option<Pool>)
    ensures p.Some? ==> p.value.pages > 0
    decreases |ops|
  {
    if ops == [] then Some(START)
    else
      match Run(s, ops[..|ops| - 1])
      case None => None
      case Some(p) =>
        match ops[|ops| - 1]
        case Allocate => Some(AfterAllocate(s, p))
        case Release(b) => if b in p.live then Some(AfterRelease(p, b)) else None
  }

  /** The block lies inside the memory of its page, which has room for `perAllocation * perPage` objects. */
  predicate InBounds(s: Sizes, b: Block) {
    b.page > 0 && b.offset + s.perAllocation <= s.perAllocation * s.perPage
  }

  predicate Overlap(s: Sizes, b: Block, c: Block) {
    b.page == c.page && b.offset < c.offset + s.perAllocation && c.offset < b.offset + s.perAllocation
  }

  // ---- Pages that hold a whole number of blocks --------------------------------------------------------

  /** The block has been cut from a page. */
  predicate Carved(s: Sizes, p: Pool, b: Block)
    requires s.perAllocation > 0
  {
    && b.offset % s.perAllocation == 0 && 0 < b.page < p.pages
    && b.offset < if b.page == p.pages - 1 then p.used else s.perPage
  }

  predicate Distinct(free: seq<Block>) {
    forall i, j :: 0 <= i < j < |free| ==> free[i] != free[j]
  }

  /** Every block that was cut is either in use or on the free list, once; all pages but the last are
      used up. */
  ghost predicate Inv(s: Sizes, p: Pool)
    requires s.perAllocation > 0
  {
    && p.pages > 0 && p.used % s.perAllocation == 0 && p.used <= End(s, p.pages - 1)
    && Distinct(p.free)
    && (forall b :: b in p.free ==> b !in p.live)
    && (forall b :: Carved(s, p, b) <==> b in p.free || b in p.live)
  }

  lemma NextMultiple(k: nat, a: nat, b: nat)
    requires k > 0 && a % k == 0 && b % k == 0 && a < b
    ensures a + k <= b && (a + k) % k == 0
  {
    var m, n := a / k, b / k;
    assert a == m * k && b == n * k;
    if m >= n {
      MulMonotone(n, m, k);
    }
    MulMonotone(m + 1, n, k);
    MulDistributes(m, 1, k);
    DivModUnique(a + k, k, m + 1, 0);
  }

  /** Multiples that are not equal are a whole block apart. */
  lemma Apart(s: Sizes, b: Block, c: Block)
    requires s.perAllocation > 0 && b.offset % s.perAllocation == 0 && c.offset % s.perAllocation == 0 && b != c
    ensures !Overlap(s, b, c)
  {
    if b.offset < c.offset {
      NextMultiple(s.perAllocation, b.offset, c.offset);
    } else if c.offset < b.offset {
      NextMultiple(s.perAllocation, c.offset, b.offset);
    }
  }

  predicate Fits(s: Sizes) {
    s.perAllocation > 0 && s.perPage >= 16 && s.perPage % s.perAllocation == 0
  }

  /** What is cut after a new block is what was cut before, and the block. */
  lemma CutCarves(s: Sizes, p: Pool, b: Block)
    requires Fits(s) && Inv(s, p) && p.free == [] && b == Allocated(s, p)
    ensures !Carved(s, p, b) && b.page > 0 && b.offset % s.perAllocation == 0 && b.offset + s.perAllocation <= s.perPage
    ensures (b.offset + s.perAllocation) % s.perAllocation == 0
    ensures forall c :: Carved(s, AfterAllocate(s, p), c) <==> Carved(s, p, c) || c == b
  {
    var k, q := s.perAllocation, AfterAllocate(s, p);
    DivModUnique(0, k, 0, 0);
    NextMultiple(k, b.offset, s.perPage);
    forall c
      ensures Carved(s, q, c) <==> Carved(s, p, c) || c == b
    {
      if c.page == b.page && c.offset % k == 0 && b.offset < c.offset {
        NextMultiple(k, b.offset, c.offset);
      }
    }
  }

  lemma CutInv(s: Sizes, p: Pool, b: Block)
    requires Fits(s) && Inv(s, p) && p.free == [] && b == Allocated(s, p)
    ensures Inv(s, AfterAllocate(s, p)) && b !in p.live
    ensures b.page > 0 && b.offset % s.perAllocation == 0 && b.offset + s.perAllocation <= s.perPage
  {
    hide Carved;
    CutCarves(s, p, b);
  }

  /** `allocate` keeps the invariant; its block is inside its page and overlaps no block in use. */
  lemma AllocateIsSafe(s: Sizes, p: Pool)
    requires Fits(s) && Inv(s, p)
    ensures Inv(s, AfterAllocate(s, p))
    ensures var b := Allocated(s, p);
            && b.page > 0 && b.offset + s.perAllocation <= s.perPage && InBounds(s, b)
            && b !in p.live && forall c :: c in p.live ==> !Overlap(s, b, c)
  {
    hide AfterAllocate, Allocated, Overlap;
    if p.free == [] {
      CutInv(s, p, Allocated(s, p));
    } else {
      TakeFreeInv(s, p);
    }
    LiveIsApart(s, p, Allocated(s, p));
    MulMonotone(1, s.perAllocation, s.perPage);
  }

  lemma LiveIsApart(s: Sizes, p: Pool, b: Block)
    requires Fits(s) && Inv(s, p) && b !in p.live && b.offset % s.perAllocation == 0
    ensures forall c :: c in p.live ==> !Overlap(s, b, c)
  {
    hide Overlap;
    forall c | c in p.live
      ensures !Overlap(s, b, c)
    {
      assert Carved(s, p, c);
      Apart(s, b, c);
    }
  }

  lemma TakeFreeInv(s: Sizes, p: Pool)
    requires Fits(s) && Inv(s, p) && p.free != []
    ensures Inv(s, AfterAllocate(s, p))
    ensures var b := Allocated(s, p);
            b !in p.live && b.page > 0 && b.offset % s.perAllocation == 0 && b.offset + s.perAllocation <= s.perPage
  {
    var b, q := p.free[0], AfterAllocate(s, p);
    assert b in p.free && Carved(s, p, b);
    assert b.offset < s.perPage;
    NextMultiple(s.perAllocation, b.offset, s.perPage);
    forall c
      ensures Carved(s, q, c) <==> c in q.free || c in q.live
    {
      assert Carved(s, q, c) <==> Carved(s, p, c);
      assert p.free == [b] + q.free;
    }
  }

  lemma ReleaseInv(s: Sizes, p: Pool, b: Block)
    requires Fits(s) && Inv(s, p) && b in p.live
    ensures Inv(s, AfterRelease(p, b))
  {
    var q := AfterRelease(p, b);
    forall c
      ensures Carved(s, q, c) <==> c in q.free || c in q.live
    {
      assert Carved(s, q, c) <==> Carved(s, p, c);
    }
  }

  /** The block that was released last is handed out first, and then everything is as it was before. */
  lemma ReleaseThenAllocate(s: Sizes, p: Pool, b: Block)
    requires p.pages > 0 && b in p.live
    ensures Allocated(s, AfterRelease(p, b)) == b && AfterAllocate(s, AfterRelease(p, b)) == p
  {
    assert ([b] + p.free)[1..] == p.free;
    assert p.live - {b} + {b} == p.live;
  }

  lemma {:induction false} RunInv(s: Sizes, ops: seq<Op>)
    requires Fits(s) && Run(s, ops).Some?
    ensures Inv(s, Run(s, ops).value)
    decreases |ops|
  {
    hide Inv;
    if ops == [] {
      StartInv(s);
    } else {
      RunInv(s, ops[..|ops| - 1]);
      var p := Run(s, ops[..|ops| - 1]).value;
      match ops[|ops| - 1]
      case Allocate => AllocateIsSafe(s, p);
      case Release(b) => ReleaseInv(s, p, b);
    }
  }

  lemma StartInv(s: Sizes)
    requires Fits(s)
    ensures Inv(s, START)
  {
  }

  // ---- Exactly when the allocator is safe --------------------------------------------------------------

  function Allocations(n: nat): seq<Op> {
    if n == 0 then [] else Allocations(n - 1) + [Allocate]
  }

  /** When no whole number of blocks fills a page, the test for its end is jumped over. */
  lemma {:induction false} NeverFull(s: Sizes, n: nat)
    requires s.Valid() && s.perPage % s.perAllocation != 0 && n > 0
    ensures var r := Run(s, Allocations(n));
            r.Some? && r.value.pages == 2 && r.value.used == n * s.perAllocation && r.value.free == []
    ensures n * s.perAllocation != s.perPage
  {
    var ops := Allocations(n);
    assert ops[..|ops| - 1] == Allocations(n - 1) && ops[|ops| - 1] == Allocate;
    if n == 1 {
      assert Run(s, Allocations(0)) == Some(START);
    } else {
      NeverFull(s, n - 1);
      MulDistributes(n - 1, 1, s.perAllocation);
    }
    DivModUnique(n * s.perAllocation, s.perAllocation, n, 0);
  }

  /** Every block is inside its page on every run if and only if a page holds a whole number of blocks. */
  lemma SafeIff(s: Sizes)
    requires s.Valid()
    ensures (forall ops :: Run(s, ops).Some? ==> InBounds(s, Allocated(s, Run(s, ops).value)))
       <==> s.perPage % s.perAllocation == 0
  {
    hide Run, Inv;
    if s.perPage % s.perAllocation == 0 {
      forall ops | Run(s, ops).Some?
        ensures InBounds(s, Allocated(s, Run(s, ops).value))
      {
        RunInv(s, ops);
        AllocateIsSafe(s, Run(s, ops).value);
      }
    } else {
      NeverFull(s, s.perPage);
      var p := Run(s, Allocations(s.perPage)).value;
      assert s.perPage * s.perAllocation == s.perAllocation * s.perPage;
      assert !InBounds(s, Allocated(s, p));
    }
  }

  /** On every run of a safe allocator the next block overlaps none in use, and what was cut from the
      pages is what is in use and what is free. */
  lemma RunIsSafe(s: Sizes, ops: seq<Op>)
    requires Fits(s) && Run(s, ops).Some?
    ensures var p := Run(s, ops).value;
            && (forall c :: c in p.live ==> !Overlap(s, Allocated(s, p), c))
            && (forall b :: Carved(s, p, b) <==> b in p.free || b in p.live)
            && (forall b :: b in p.free ==> b !in p.live)
  {
    hide Run, Allocated, AfterAllocate, Overlap, Carved;
    RunInv(s, ops);
    AllocateIsSafe(s, Run(s, ops).value);
  }

  // ---- The allocator in memory -------------------------------------------------------------------------

  /** `BatchInfo` without its buffer. */
  datatype BatchInfo = BatchInfo(next: Option<nat>, used: nat, end: nat)

  function First(free: seq<Block>): Option<Block> {
    if free == [] then None else Some(free[0])
  }

  /** Every free block links to the next one. */
  predicate Linked(free: seq<Block>, words: map<Block, Option<Block>>) {
    forall i :: 0 <= i < |free| ==> free[i] in words && words[free[i]] == First(free[i + 1..])
  }

  /** Words of blocks that are not free do not matter. */
  lemma LinkedStays(free: seq<Block>, words: map<Block, Option<Block>>, block: Block, word: Option<Block>)
    requires Linked(free, words) && block !in free
    ensures Linked(free, words[block := word])
  {
  }

  lemma LinkedPush(free: seq<Block>, words: map<Block, Option<Block>>, block: Block)
    requires Linked(free, words) && block !in free
    ensures Linked([block] + free, words[block := First(free)])
  {
    hide First;
    var pushed := [block] + free;
    forall i | 0 <= i < |pushed|
      ensures pushed[i] in words[block := First(free)]
              && words[block := First(free)][pushed[i]] == First(pushed[i + 1..])
    {
      assert pushed[i + 1..] == free[i..];
      assert i > 0 ==> pushed[i] == free[i - 1] && free[i - 1] in free;
    }
  }

  lemma LinkedPop(free: seq<Block>, words: map<Block, Option<Block>>)
    requires Linked(free, words) && free != []
    ensures free[0] in words && words[free[0]] == First(free[1..]) && Linked(free[1..], words)
  {
    hide First;
    forall i | 0 <= i < |free| - 1
      ensures free[1..][i] in words && words[free[1..][i]] == First(free[1..][i + 1..])
    {
      assert free[1..][i + 1..] == free[i + 2..];
      assert free[i + 1] in words && words[free[i + 1]] == First(free[i + 2..]);
    }
  }

  class Allocator {
    const sizes: Sizes
    /** The pages that were allocated, in order of creation; a pointer to one is its index. */
    var pages: seq<BatchInfo>
    var batches: Option<nat>
    var currentBatch: Option<nat>
    var freeHead: Option<Block>
    /** The first word of every block: the link of a free one, whatever the user wrote in one in use. */
    var words: map<Block, Option<Block>>

    ghost var free: seq<Block>
    ghost var live: set<Block>

    ghost predicate Valid()
      reads this
    {
      && sizes.Valid() && |pages| > 0
      && batches == currentBatch == Some(|pages| - 1)
      && (forall i :: 0 <= i < |pages| ==>
            pages[i].next == (if i == 0 then None else Some(i - 1)) && pages[i].end == End(sizes, i))
      && (forall i :: 0 <= i < |pages| - 1 ==> pages[i].used == pages[i].end)
      && freeHead == First(free) && Linked(free, words) && Distinct(free)
          && (forall i :: 0 <= i < |free| ==> free[i] !in live)
    }

    ghost function Abs(): Pool
      requires |pages| > 0
      reads this
    {
      Pool(|pages|, pages[|pages| - 1].used, free, live)
    }

    constructor (objectPerAllocation: nat, objectsPerPage: nat)
      requires objectPerAllocation > 0 && objectsPerPage >= 16
      ensures Valid() && Abs() == START && sizes == Sizes(objectPerAllocation, objectsPerPage)
    {
      sizes := Sizes(objectPerAllocation, objectsPerPage);
      pages := [BatchInfo(None, 0, 0)];
      batches, currentBatch, freeHead := Some(0), Some(0), None;
      words, free, live := map[], [], {};
    }

    /** `allocate` */
    method Allocate() returns (block: Block)
      requires Valid()
      modifies this
      ensures Valid() && block == Allocated(sizes, old(Abs())) && Abs() == AfterAllocate(sizes, old(Abs()))
    {
      if freeHead.Some? {
        block := TakeFree();
        return;
      }
      if pages[currentBatch.value].used == pages[currentBatch.value].end {
        NextBatch();
      }
      block := Block(currentBatch.value, pages[currentBatch.value].used);
      pages := pages[currentBatch.value := pages[currentBatch.value].(used :=
          pages[currentBatch.value].used + sizes.perAllocation)];
      live := live + {block};
    }

    method TakeFree() returns (block: Block)
      requires Valid() && freeHead.Some?
      modifies this`freeHead, this`free, this`live
      ensures Valid() && block == Allocated(sizes, old(Abs())) && Abs() == AfterAllocate(sizes, old(Abs()))
    {
      hide End, Linked;
      LinkedPop(free, words);
      block := freeHead.value;
      freeHead := words[block];
      free := free[1..];
      live := live + {block};
    }

    /** The search for a page with room, which finds none, and the new page. */
    method NextBatch()
      requires Valid() && freeHead == None && pages[|pages| - 1].used == pages[|pages| - 1].end
      modifies this`pages, this`batches, this`currentBatch
      ensures Valid() && pages == old(pages) + [BatchInfo(Some(|old(pages)| - 1), 0, sizes.perPage)]
    {
      currentBatch := pages[currentBatch.value].next;
      while currentBatch.Some? && pages[currentBatch.value].used == pages[currentBatch.value].end
        invariant pages == old(pages) && batches == old(batches)
        invariant currentBatch.Some? ==> currentBatch.value < |pages| - 1
        decreases if currentBatch.Some? then currentBatch.value + 1 else 0
      {
        currentBatch := pages[currentBatch.value].next;
      }
      if currentBatch.None? {
        pages := pages + [BatchInfo(None, 0, sizes.perPage)];
        currentBatch := Some(|pages| - 1);
        pages := pages[|pages| - 1 := pages[|pages| - 1].(next := batches)];
        batches := currentBatch;
      }
    }

    /** `release` of an object in use. */
    method Release(block: Block)
      requires Valid() && block in live
      modifies this
      ensures Valid() && Abs() == AfterRelease(old(Abs()), block)
    {
      hide End, Linked;
      LinkedPush(free, words, block);
      words := words[block := freeHead];
      freeHead := Some(block);
      free := [block] + free;
      live := live - {block};
    }

    /** The user writes into an object in use. */
    method Write(block: Block, word: Option<Block>)
      requires Valid() && block in live
      modifies this`words
      ensures Valid() && Abs() == old(Abs())
    {
      hide End, Linked;
      LinkedStays(free, words, block, word);
      words := words[block := word];
    }
  }
}
