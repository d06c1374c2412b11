/**
 The allocation group (pa_allocation.c): three singly linked lists that share the
 links of a few blocks, each block as large as all earlier ones together.

 Memory is modelled by one object per piece that the allocator hands out. Freeing
 a piece demands that it is live, so a method that verifies frees nothing twice,
 and reading the `next` field of a link demands that the piece holding the link is.
 */
module AllocationGroups {
  import opened Bits

  const INITIAL_LINK_COUNT := 16

  /** A piece of memory as handed out by the allocator. */
  class Memory {
    const size: int
    var live: bool

    constructor (size: int)
      ensures live && this.size == size
    {
      this.size := size;
      live := true;
    }

    method Free()
      requires live
      modifies this`live
      ensures !live
    {
      live := false;
    }
  }

  /** A link, and the piece of memory in which it lies. */
  class Link {
    const home: Memory
    var next: Link?
    var buffer: Memory?

    constructor (home: Memory)
      ensures this.home == home
    {
      this.home := home;
    }

    function Next(): Link?
      requires home.live
      reads this`next, home
    {
      next
    }
  }

  function At<T>(s: seq<T>, i: int): T
    requires 0 <= i < |s|
  {
    s[i]
  }

  ghost predicate Unique<T>(s: seq<T>) {
    forall i, j {:trigger At(s, i), At(s, j)} :: 0 <= i < j < |s| ==> At(s, i) != At(s, j)
  }

  lemma AllDiffer<T>(s: seq<T>)
    requires Unique(s)
    ensures forall i, j :: 0 <= i < j < |s| ==> s[i] != s[j]
  {
    forall i, j | 0 <= i < j < |s| ensures s[i] != s[j] {
      assert At(s, i) != At(s, j);
    }
  }

  lemma OthersDiffer<T>(s: seq<T>, n: nat)
    requires Unique(s) && n < |s|
    ensures forall i :: 0 <= i < |s| && i != n ==> s[i] != s[n]
  {
    forall i | 0 <= i < |s| && i != n ensures s[i] != s[n] {
      assert At(s, i) != At(s, n);
    }
  }

  function Following(s: seq<Link>, i: int): (next: Link?)
    requires 0 <= i < |s|
    ensures i + 1 == |s| ==> next == null
  {
    if i + 1 < |s| then s[i + 1] else null
  }

  /** `s` are the links met by following `next` from `head` until null. */
  ghost predicate Chain(head: Link?, s: seq<Link>)
    reads (set x | x in s)`next
  {
    && (head == if s == [] then null else s[0])
    && (forall i {:trigger Following(s, i)} :: 0 <= i < |s| ==> s[i].next == Following(s, i))
  }

  /** A chain that ends in null meets no link twice: following it terminates. */
  lemma {:induction false} NoRepeats(head: Link?, s: seq<Link>, i: nat, j: nat)
    requires Chain(head, s) && i < j < |s|
    ensures s[i] != s[j]
    decreases |s| - j
  {
    if j + 1 < |s| { NoRepeats(head, s, i + 1, j + 1); }
    assert s[i].next == Following(s, i) && s[j].next == Following(s, j);
  }

  lemma Distinct(head: Link?, s: seq<Link>)
    requires Chain(head, s)
    ensures Unique(s)
  {
    forall i, j | 0 <= i < j < |s| ensures s[i] != s[j] { NoRepeats(head, s, i, j); }
  }

  /**
   A block of links, or none when there is no memory. The first link records the
   block; the others form a list that goes on with `nextSpare`.
   */
  method AllocateLinks(count: int, nextBlock: Link?, nextSpare: Link?, available: bool)
      returns (links: seq<Link>)
    requires count > 0
    ensures !available ==> links == []
    ensures available ==> |links| == count && fresh(links[0].home) && links[0].home.live
    ensures available ==> links[0].buffer == links[0].home && links[0].home.size == count
    ensures available ==> links[0].next == if count == 1 then nextSpare else nextBlock
    ensures forall i :: 0 <= i < |links| ==> fresh(links[i]) && links[i].home == links[0].home
    ensures Unique(links)
    ensures forall i :: 1 <= i < |links| ==> links[i].buffer == null
    ensures forall i {:trigger Following(links, i)} :: 1 <= i < |links| ==>
      links[i].next == (if i + 1 < |links| then Following(links, i) else nextSpare)
  {
    links := [];
    if available {
      var block := new Memory(count);
      while |links| < count
        invariant |links| <= count && fresh(block) && block.live && block.size == count
        invariant forall i :: 0 <= i < |links| ==> fresh(links[i]) && links[i].home == block
        invariant Unique(links)
      {
        AllDiffer(links);
        var link := new Link(block);
        links := links + [link];
      }
      links[0].buffer := block;
      links[0].next := nextBlock;
      for i := 1 to count
        invariant block.live && links[0].buffer == block && links[0].next == nextBlock
        invariant forall k :: 1 <= k < i ==> links[k].buffer == null
        invariant forall k :: 1 <= k < i && k + 1 < count ==> links[k].next == links[k + 1]
      {
        OthersDiffer(links, i);
        links[i].buffer := null;
        // the source also points the last link one past the block, and then corrects it
        if i + 1 < count { links[i].next := links[i + 1]; }
      }
      OthersDiffer(links, count - 1);
      links[count - 1].next := nextSpare;
    }
  }

  /** The links hold these pieces of memory, in order, and lie in pieces of `storage`. */
  ghost predicate Hold(links: seq<Link>, pieces: seq<Memory>, storage: seq<Memory>)
    reads (set x | x in links)`buffer
  {
    && |links| == |pieces|
    && forall i :: 0 <= i < |links| ==> links[i].buffer == pieces[i] && links[i].home in storage
  }

  /** The list of blocks: each first link records the piece of memory in which it lies. */
  ghost predicate BlockList(head: Link?, blocks: seq<Link>, storage: seq<Memory>)
    reads (set x | x in blocks)`next, (set x | x in blocks)`buffer
  {
    && Chain(head, blocks) && Hold(blocks, storage, storage)
    && forall i :: 0 <= i < |blocks| ==> blocks[i].home == storage[i]
  }

  /** The list of spare links, which hold nothing. */
  ghost predicate SpareList(head: Link?, spares: seq<Link>, storage: seq<Memory>)
    reads (set x | x in spares)`next, (set x | x in spares)`buffer
  {
    && Chain(head, spares)
    && forall i :: 0 <= i < |spares| ==> spares[i].buffer == null && spares[i].home in storage
  }

  /** The list of allocations, which hold the buffers. */
  ghost predicate UsedList(head: Link?, used: seq<Link>, buffers: seq<Memory>, storage: seq<Memory>)
    reads (set x | x in used)`next, (set x | x in used)`buffer
  {
    Chain(head, used) && Hold(used, buffers, storage)
  }

  /** Every piece of memory is live and has one purpose. */
  ghost predicate AllLive(home: Memory, storage: seq<Memory>, buffers: seq<Memory>)
    reads home`live, (set x | x in storage)`live, (set x | x in buffers)`live
  {
    && home.live && home !in storage && home !in buffers
    && (forall i :: 0 <= i < |storage| ==> storage[i].live && storage[i] !in buffers)
    && (forall i :: 0 <= i < |buffers| ==> buffers[i].live)
    && Unique(storage)
    && Unique(buffers)
  }

  /** No link is lost, and each new block has doubled the number of links. */
  ghost predicate Size(linkCount: int, blocks: nat, others: nat) {
    && linkCount == blocks + others
    && blocks > 0 && linkCount == INITIAL_LINK_COUNT * Pow2(blocks - 1)
  }

  /** The place of x in a sequence, or its length. */
  ghost function IndexOf(s: seq<Memory>, x: Memory): (k: nat)
    ensures k < |s| <==> x in s
    ensures if x in s then s[k] == x else k == |s|
  {
    if s == [] || s[0] == x then 0 else 1 + IndexOf(s[1..], x)
  }

  lemma {:induction false} FirstIndex(s: seq<Memory>, x: Memory, k: nat)
    requires k <= |s| && x !in s[..k] && (k < |s| ==> s[k] == x)
    ensures IndexOf(s, x) == k
  {
    if k > 0 {
      assert s[0] == s[..k][0];
      assert s[1..][..k - 1] == s[..k][1..];
      FirstIndex(s[1..], x, k - 1);
    }
  }

  ghost function Removed<T>(s: seq<T>, k: nat): (r: seq<T>)
    requires k < |s|
    ensures |r| == |s| - 1
  {
    s[..k] + s[k + 1..]
  }

  lemma NextInChain(head: Link?, s: seq<Link>, i: nat)
    requires Chain(head, s) && i < |s|
    ensures s[i].next == if i + 1 < |s| then s[i + 1] else null
  {
    assert s[i].next == Following(s, i);
  }

  lemma ChainCons(link: Link, s: seq<Link>)
    requires Chain(link.next, s)
    ensures Chain(link, [link] + s)
  {
    var t := [link] + s;
    forall i | 0 <= i < |t| ensures t[i].next == Following(t, i) {
      if i > 0 { assert t[i] == s[i - 1] && s[i - 1].next == Following(s, i - 1); }
    }
  }

  lemma ChainTail(head: Link?, s: seq<Link>)
    requires Chain(head, s) && s != []
    ensures head == s[0] && Chain(s[0].next, s[1..]) && s[0] !in s[1..]
  {
    Distinct(head, s);
    OthersDiffer(s, 0);
    var t := s[1..];
    assert s[0].next == Following(s, 0);
    forall i | 0 <= i < |t| ensures t[i].next == Following(t, i) {
      assert t[i] == s[i + 1] && s[i + 1].next == Following(s, i + 1);
    }
  }

  /** Two chains one after the other, when the last link of the first leads to the second. */
  lemma Joined(a: Link?, s: seq<Link>, b: Link?, t: seq<Link>)
    requires s != [] && a == s[0] && Chain(b, t) && s[|s| - 1].next == b
    requires forall i {:trigger Following(s, i)} :: 0 <= i < |s| - 1 ==> s[i].next == Following(s, i)
    ensures Chain(a, s + t)
  {
    var u := s + t;
    forall i | 0 <= i < |u| ensures u[i].next == Following(u, i) {
      if i >= |s| {
        assert u[i] == t[i - |s|] && t[i - |s|].next == Following(t, i - |s|);
      } else if i < |s| - 1 {
        assert u[i] == s[i] && Following(u, i) == Following(s, i);
      }
    }
  }

  lemma RemovedHold(links: seq<Link>, pieces: seq<Memory>, storage: seq<Memory>, k: nat)
    requires Hold(links, pieces, storage) && k < |links|
    ensures Hold(Removed(links, k), Removed(pieces, k), storage)
  {
    var l, p := Removed(links, k), Removed(pieces, k);
    forall i | 0 <= i < |l| ensures l[i].buffer == p[i] && l[i].home in storage {
      var j := if i < k then i else i + 1;
      assert l[i] == links[j] && p[i] == pieces[j];
    }
  }

  lemma RemovedLive(home: Memory, storage: seq<Memory>, buffers: seq<Memory>, k: nat)
    requires AllLive(home, storage, buffers) && k < |buffers|
    ensures AllLive(home, storage, Removed(buffers, k)) && buffers[k] !in Removed(buffers, k)
  {
    AllDiffer(buffers);
    var r := Removed(buffers, k);
    assert forall i :: 0 <= i < |r| ==> r[i] == buffers[if i < k then i else i + 1];
  }

  lemma LiveCons(home: Memory, storage: seq<Memory>, buffer: Memory, buffers: seq<Memory>)
    requires AllLive(home, storage, buffers)
    requires buffer.live && buffer != home && buffer !in storage && buffer !in buffers
    ensures AllLive(home, storage, [buffer] + buffers)
  {
    AllDiffer(buffers);
  }

  lemma LiveStorage(home: Memory, block: Memory, storage: seq<Memory>, buffers: seq<Memory>)
    requires AllLive(home, storage, buffers)
    requires block.live && block != home && block !in storage && block !in buffers
    ensures AllLive(home, [block] + storage, buffers)
  {
    AllDiffer(storage);
  }

  /** One block more: every list but the (empty) list of spare links stays what it is. */
  lemma MoreStorage(head: Link?, blocks: seq<Link>, storage: seq<Memory>, link: Link,
                    allocations: Link?, used: seq<Link>, buffers: seq<Memory>)
    requires BlockList(head, blocks, storage) && UsedList(allocations, used, buffers, storage)
    requires link.next == head && link.buffer == link.home
    ensures BlockList(link, [link] + blocks, [link.home] + storage)
    ensures UsedList(allocations, used, buffers, [link.home] + storage)
  {
    ChainCons(link, blocks);
  }

  /** The links of a new block but the first form a list of spare links. */
  lemma NewSpares(links: seq<Link>, storage: seq<Memory>)
    requires |links| > 1 && links[0].home in storage
    requires forall i :: 1 <= i < |links| ==> links[i].home == links[0].home && links[i].buffer == null
    requires forall i {:trigger Following(links, i)} :: 1 <= i < |links| ==> links[i].next == Following(links, i)
    ensures SpareList(links[1], links[1..], storage)
  {
    var t := links[1..];
    forall i | 0 <= i < |t| ensures t[i].next == Following(t, i) {
      assert t[i] == links[i + 1] && Following(t, i) == Following(links, i + 1);
    }
  }

  /** The first `n` of these distinct pieces have been freed, the others are live. */
  ghost predicate Freed(pieces: seq<Memory>, n: nat)
    reads (set x | x in pieces)`live
  {
    && Unique(pieces)
    && (forall i :: 0 <= i < |pieces| ==> pieces[i].live == (n <= i))
  }

  /** The first `n` of these distinct links have lost the piece of memory that they held. */
  ghost predicate Cleared(links: seq<Link>, pieces: seq<Memory>, n: nat)
    reads (set x | x in links)`buffer
  {
    && |links| == |pieces|
    && Unique(links)
    && (forall i :: 0 <= i < |links| ==> links[i].buffer == if i < n then null else pieces[i])
  }

  lemma NoneFreed(home: Memory, storage: seq<Memory>, buffers: seq<Memory>)
    requires AllLive(home, storage, buffers)
    ensures Freed(storage, 0) && Freed(buffers, 0)
    ensures home.live && home !in storage && forall b :: b in buffers ==> b !in storage
  {
  }

  lemma StillLive(pieces: seq<Memory>, n: nat, piece: Memory)
    requires Freed(pieces, n) && ((n == 0 && piece in pieces) || (n < |pieces| && piece == pieces[n]))
    ensures piece.live
  {
  }

  /** Frees one piece more. */
  method FreeNext(piece: Memory, ghost pieces: seq<Memory>, ghost n: nat)
    requires Freed(pieces, n) && n < |pieces| && piece == pieces[n]
    modifies piece`live
    ensures Freed(pieces, n + 1)
  {
    OthersDiffer(pieces, n);
    piece.Free();
  }

  /** Frees the memory that one link more holds. */
  method FreeHeld(link: Link, ghost links: seq<Link>, ghost pieces: seq<Memory>, ghost n: nat)
    requires Freed(pieces, n) && Cleared(links, pieces, n) && n < |links| && link == links[n]
    modifies link`buffer, {pieces[n]}`live
    ensures Freed(pieces, n + 1) && Cleared(links, pieces, n + 1)
  {
    OthersDiffer(links, n);
    FreeNext(link.buffer, pieces, n);
    link.buffer := null;
  }

  /** Makes the last link of one chain lead to another chain. */
  method Continue(last: Link, next: Link?, ghost head: Link?, ghost s: seq<Link>, ghost t: seq<Link>)
    requires Chain(head, s) && s != [] && last == s[|s| - 1] && Chain(next, t) && last !in t
    modifies last`next
    ensures head == s[0] && Chain(head, s + t)
  {
    Distinct(head, s);
    OthersDiffer(s, |s| - 1);
    assert forall i {:trigger Following(s, i)} :: 0 <= i < |s| ==> s[i].next == Following(s, i);
    last.next := next;
    assert Chain(next, t);
    Joined(head, s, next, t);
  }

  class AllocationGroup {
    var linkCount: int
    var linkBlocks: Link?
    var spareLinks: Link?
    var allocations: Link?

    /** The memory of the group itself. */
    const home: Memory

    /** The links on each list, the memory of the blocks, and the live buffers. */
    ghost var blocks: seq<Link>
    ghost var spares: seq<Link>
    ghost var used: seq<Link>
    ghost var storage: seq<Memory>
    ghost var buffers: seq<Memory>

    ghost predicate Valid()
      reads this, (set x | x in blocks), (set x | x in spares), (set x | x in used), (set x | x in storage),
            (set x | x in buffers), home
    {
      && BlockList(linkBlocks, blocks, storage)
      && SpareList(spareLinks, spares, storage)
      && UsedList(allocations, used, buffers, storage)
      && AllLive(home, storage, buffers)
      && Size(linkCount, |blocks|, |spares| + |used|)
    }

    /** A new group over a block of links. */
    constructor (home: Memory, links: seq<Link>)
      requires home.live && |links| == INITIAL_LINK_COUNT && links[0].home.live && links[0].home != home
      requires links[0].buffer == links[0].home && links[0].next == null
      requires forall i :: 1 <= i < |links| ==> links[i].home == links[0].home && links[i].buffer == null
      requires forall i {:trigger Following(links, i)} :: 1 <= i < |links| ==> links[i].next == Following(links, i)
      ensures Valid() && buffers == [] && this.home == home
      ensures storage == [links[0].home] && |spares| == INITIAL_LINK_COUNT - 1 && linkCount == INITIAL_LINK_COUNT
    {
      this.home := home;
      linkCount, linkBlocks, spareLinks, allocations := INITIAL_LINK_COUNT, links[0], links[1], null;
      blocks, spares, used := [links[0]], links[1..], [];
      storage, buffers := [links[0].home], [];
      new;
      NewSpares(links, storage);
    }

    /** The three lists are acyclic and have no link in common. */
    lemma ListsAreDisjoint()
      requires Valid()
      ensures Unique(blocks)
      ensures Unique(spares)
      ensures Unique(used)
      ensures forall l :: l in blocks ==> l !in spares && l !in used
      ensures forall l :: l in spares ==> l !in used
    {
      Distinct(linkBlocks, blocks);
      Distinct(spareLinks, spares);
      Distinct(allocations, used);
    }

    lemma SpareApart()
      requires Valid()
      ensures linkCount > 1 && spareLinks == if spares == [] then null else spares[0]
      ensures spares != [] ==> spares[0] !in blocks && spares[0] !in used && spares[0].home.live
    {
      if spares != [] { assert spares[0] in spares; }
      ListsAreDisjoint();
    }

    lemma UsedApart(i: nat)
      requires Valid() && i < |used|
      ensures used[i] !in blocks && used[i] !in spares && used[i].home.live && used[i].home in storage
      ensures |used| == |buffers|
    {
      assert used[i] in used;
      ListsAreDisjoint();
    }

    /** A group without buffers, unless one of its two pieces of memory is refused. */
    static method CreateAllocationGroup(linksAvailable: bool, groupAvailable: bool)
        returns (group: AllocationGroup?, ghost taken: seq<Memory>)
      ensures group != null <==> linksAvailable && groupAvailable
      ensures group != null ==> fresh(group) && group.Valid() && group.buffers == []
      ensures group != null ==> group.linkCount == 16 && |group.spares| == 15 && group.storage == taken
      ensures |taken| == (if linksAvailable then 1 else 0) && forall piece :: piece in taken ==> fresh(piece)
      ensures group == null ==> forall piece :: piece in taken ==> !piece.live
    {
      group, taken := null, [];
      var links := AllocateLinks(INITIAL_LINK_COUNT, null, null, linksAvailable);
      if links != [] {
        taken := [links[0].home];
        if groupAvailable {
          var home := new Memory(0);
          group := new AllocationGroup(home, links);
        } else {
          links[0].home.Free();
        }
      }
    }

    /** The first `i` blocks of links have been freed. */
    ghost predicate Destroying(i: nat)
      reads this, (set x | x in blocks), (set x | x in storage)`live, (set x | x in buffers)`live, home`live
    {
      && i <= |blocks| && BlockList(linkBlocks, blocks, storage)
      && Freed(storage, i) && home.live && home !in storage
      && (forall b :: b in buffers ==> b.live && b !in storage && b != home)
    }

    lemma StartDestroying()
      requires Valid()
      ensures Destroying(0) && linkBlocks == blocks[0]
    {
      NoneFreed(home, storage, buffers);
    }

    /** Reads the link of one block, and only then frees the block in which it lies. */
    method FreeBlock(current: Link, ghost i: nat) returns (next: Link?)
      requires Destroying(i) && i < |blocks| && current == blocks[i]
      modifies (set x | x in storage)`live
      ensures Destroying(i + 1) && next == if i + 1 < |blocks| then blocks[i + 1] else null
    {
      NextInChain(linkBlocks, blocks, i);
      assert storage[i] in storage;
      hide Chain;
      next := current.Next();
      FreeNext(current.buffer, storage, i);
    }

    lemma AllBlocksFreed()
      requires Destroying(|blocks|)
      ensures home.live && home !in storage && forall piece :: piece in storage ==> !piece.live
      ensures forall b :: b in buffers ==> b.live && b != home
    {
    }

    /** Frees each block of links once, and the group; the user's buffers stay live. */
    method DestroyAllocationGroup()
      requires Valid()
      modifies (set x | x in storage)`live, home`live
      ensures !home.live && forall piece :: piece in storage ==> !piece.live
      ensures forall b :: b in buffers ==> b.live
    {
      StartDestroying();
      hide *;
      var current := linkBlocks;
      ghost var i, b := 0, blocks;
      while current != null
        invariant 0 <= i <= |b| && blocks == b && Destroying(i)
        invariant current == if i < |b| then b[i] else null
        decreases |b| - i
      {
        current := FreeBlock(current, i);
        i := i + 1;
      }
      AllBlocksFreed();
      home.Free();
    }

    /** Puts a new block in front of the others; its links are the spare ones. */
    method AddBlock(links: seq<Link>)
      requires Valid() && spares == [] && |links| == linkCount > 1
      requires links[0].home.live && links[0].home != home
      requires links[0].home !in storage && links[0].home !in buffers
      requires links[0].buffer == links[0].home && links[0].next == linkBlocks
      requires forall i :: 1 <= i < |links| ==> links[i].home == links[0].home && links[i].buffer == null
      requires forall i {:trigger Following(links, i)} :: 1 <= i < |links| ==> links[i].next == Following(links, i)
      modifies this`linkCount, this`linkBlocks, this`spareLinks, this`blocks, this`spares, this`storage
      ensures Valid() && linkCount == 2 * old(linkCount)
      ensures spares == links[1..] && blocks == [links[0]] + old(blocks)
      ensures storage == [links[0].home] + old(storage)
    {
      hide BlockList, SpareList, UsedList, AllLive;
      ghost var all := [links[0].home] + storage;
      NewSpares(links, all);
      MoreStorage(linkBlocks, blocks, storage, links[0], allocations, used, buffers);
      LiveStorage(home, links[0].home, storage, buffers);
      linkCount := linkCount + linkCount;
      linkBlocks := links[0];
      spareLinks := links[1];
      blocks := [links[0]] + blocks;
      spares := links[1..];
      storage := all;
    }

    /** More links, as many as there are, when no link is spare and there is memory. */
    method Grow(available: bool)
      requires Valid()
      modifies this`linkCount, this`linkBlocks, this`spareLinks, this`blocks, this`spares, this`storage
      ensures Valid()
      ensures old(spares) == [] && available ==>
        && linkCount == 2 * old(linkCount) && |spares| == old(linkCount) - 1 && (forall l :: l in spares ==> fresh(l))
        && |blocks| == |old(blocks)| + 1 && blocks[1..] == old(blocks)
        && |storage| == |old(storage)| + 1 && fresh(storage[0]) && storage[1..] == old(storage)
      ensures old(spares) != [] || !available ==>
        && linkCount == old(linkCount) && storage == old(storage) && blocks == old(blocks) && spares == old(spares)
    {
      hide *;
      SpareApart();
      if spareLinks == null {
        var links := AllocateLinks(linkCount, linkBlocks, spareLinks, available);
        if links != [] { AddBlock(links); }
      }
    }

    lemma BeforeTake()
      requires SpareList(spareLinks, spares, storage) && spares != []
      ensures spareLinks == spares[0] && SpareList(spares[0].next, spares[1..], storage)
      ensures spares[0] !in spares[1..] && spares[0].home in storage
    {
      ChainTail(spareLinks, spares);
      assert forall i :: 0 <= i < |spares[1..]| ==> spares[1..][i] == spares[i + 1];
    }

    lemma AfterTake(link: Link, buffer: Memory, used: seq<Link>, buffers: seq<Memory>)
      requires UsedList(link.next, used, buffers, storage) && link.buffer == buffer && link.home in storage
      ensures UsedList(link, [link] + used, [buffer] + buffers, storage)
    {
      ChainCons(link, used);
    }

    /** Moves the first spare link to the front of the allocations list. */
    method TakeLink(buffer: Memory)
      requires SpareList(spareLinks, spares, storage) && UsedList(allocations, used, buffers, storage)
      requires spares != [] && spares[0].home.live && spares[0] !in used
      modifies this`allocations, this`spareLinks, this`used, this`spares, this`buffers, {spareLinks}
      ensures SpareList(spareLinks, spares, storage) && UsedList(allocations, used, buffers, storage)
      ensures spares == old(spares[1..]) && used == [old(spares[0])] + old(used)
      ensures buffers == [buffer] + old(buffers)
    {
      hide Chain, SpareList, UsedList, Hold;
      BeforeTake();
      ghost var rest := spares[1..];
      var link := spareLinks;
      spareLinks := link.Next();
      link.buffer := buffer;
      link.next := allocations;
      allocations := link;
      spares := rest;
      AfterTake(link, buffer, used, buffers);
      buffers := [buffer] + buffers;
      used := [link] + used;
    }

    /** Takes a spare link for a buffer. */
    method Record(buffer: Memory)
      requires Valid() && spares != [] && buffer.live
      requires buffer != home && buffer !in storage && buffer !in buffers
      modifies this`allocations, this`spareLinks, this`used, this`spares, this`buffers, {spareLinks}
      ensures Valid() && buffers == [buffer] + old(buffers)
      ensures used == [old(spares[0])] + old(used) && spares == old(spares[1..])
    {
      SpareApart();
      LiveCons(home, storage, buffer, buffers);
      hide BlockList, SpareList, UsedList, AllLive;
      TakeLink(buffer);
    }

    /**
     A new buffer, recorded first in the allocations list; null exactly when memory
     is refused for the buffer or for links that it needs.
     */
    method GroupAllocateMemory(size: int, linksAvailable: bool, available: bool) returns (result: Memory?)
      requires Valid()
      modifies this, (set x | x in spares)
      ensures Valid()
      ensures result == null <==> !available || (old(spares) == [] && !linksAvailable)
      ensures result == null ==> buffers == old(buffers) && used == old(used)
      ensures result != null ==> fresh(result) && result.size == size && buffers == [result] + old(buffers)
      ensures result != null ==> |used| == |old(used)| + 1 && used[1..] == old(used)
      ensures old(spares) != [] ==> spares == if result == null then old(spares) else old(spares)[1..]
      ensures old(spares) != [] && result != null ==> used[0] == old(spares)[0]
      ensures old(spares) == [] && linksAvailable ==> |spares| == old(linkCount) - if result == null then 1 else 2
      ensures if old(spares) != [] || !linksAvailable then storage == old(storage)
        else |storage| == |old(storage)| + 1 && fresh(storage[0]) && storage[1..] == old(storage)
      ensures linkCount == if old(spares) == [] && linksAvailable then 2 * old(linkCount) else old(linkCount)
    {
      hide *;
      result := null;
      SpareApart();
      Grow(linksAvailable);
      SpareApart();
      assert spares != [] ==> spares[0] in spares;
      if spareLinks != null && available {
        result := new Memory(size);
        Record(result);
      }
    }

    /** The group is in order, but for one link that is on none of its lists. */
    ghost predicate ValidBut(link: Link)
      reads this, (set x | x in blocks), (set x | x in spares), (set x | x in used), (set x | x in storage)`live,
            (set x | x in buffers)`live, home`live
    {
      && BlockList(linkBlocks, blocks, storage) && SpareList(spareLinks, spares, storage)
      && UsedList(allocations, used, buffers, storage) && AllLive(home, storage, buffers)
      && Size(linkCount, |blocks|, |spares| + |used| + 1)
      && link.home in storage && link !in blocks && link !in spares && link !in used
    }

    lemma AfterDetach(link: Link)
      requires BlockList(linkBlocks, blocks, storage) && SpareList(spareLinks, spares, storage)
      requires Chain(allocations, used) && Hold(used, buffers, storage) && AllLive(home, storage, buffers)
      requires Size(linkCount, |blocks|, |spares| + |used| + 1)
      requires link.home in storage && link !in blocks && link !in spares && link !in used
      ensures ValidBut(link)
    {
    }

    lemma BeforeDetach(k: nat)
      requires Valid() && k < |used| == |buffers|
      ensures BlockList(linkBlocks, blocks, storage) && SpareList(spareLinks, spares, storage)
      ensures Chain(allocations, used) && Hold(Removed(used, k), Removed(buffers, k), storage)
      ensures AllLive(home, storage, Removed(buffers, k)) && buffers[k] !in Removed(buffers, k)
      ensures Size(linkCount, |blocks|, |spares| + |used|) && used[k].home in storage && used[k].home.live
      ensures used[k] !in blocks && used[k] !in spares
      ensures k > 0 ==> used[k - 1] !in blocks && used[k - 1] !in spares
    {
      UsedApart(k);
      if k > 0 { UsedApart(k - 1); }
      RemovedLive(home, storage, buffers, k);
      RemovedHold(used, buffers, storage, k);
    }

    /** Takes link number k, with its buffer, out of the allocations list. */
    method DetachBuffer(current: Link, previous: Link?, ghost k: nat)
      requires Valid() && k < |used| == |buffers|
      requires current == used[k] && previous == if k > 0 then used[k - 1] else null
      modifies this`allocations, this`used, this`buffers, {previous}`next
      ensures ValidBut(current) && old(buffers)[k] !in buffers
      ensures used == Removed(old(used), k) && buffers == Removed(old(buffers), k)
    {
      hide *;
      BeforeDetach(k);
      ghost var u, b := Removed(used, k), Removed(buffers, k);
      assert Hold(u, b, storage) && AllLive(home, storage, b);
      Detach(current, previous, k);
      assert Hold(u, b, storage) && AllLive(home, storage, b);
      buffers := b;
      AfterDetach(current);
    }

    /** Puts a link, without a buffer, in front of the spare links. */
    method PushSpare(current: Link)
      requires ValidBut(current)
      modifies this`spareLinks, this`spares, current`next, current`buffer
      ensures Valid() && spares == [current] + old(spares)
    {
      hide BlockList, UsedList, AllLive, Chain;
      current.buffer := null;
      current.next := spareLinks;
      spareLinks := current;
      ChainCons(current, spares);
      spares := [current] + spares;
    }

    /** Moves a link from the allocations list to the front of the spare links. */
    method Unlink(current: Link, previous: Link?, ghost k: nat)
      requires Valid() && k < |used| == |buffers| && current == used[k]
      requires previous == if k > 0 then used[k - 1] else null
      modifies this`allocations, this`spareLinks, this`used, this`spares, this`buffers, (set x | x in used)
      ensures Valid() && old(buffers)[k] !in buffers
      ensures buffers == Removed(old(buffers), k) && used == Removed(old(used), k)
      ensures spares == [old(used[k])] + old(spares)
    {
      assert current in used && (previous != null ==> previous in used);
      hide Unique, AllocationGroup.Valid, AllocationGroup.ValidBut, Removed;
      DetachBuffer(current, previous, k);
      PushSpare(current);
    }

    /** Freeing memory that is on no list leaves the group as it is. */
    method FreeOutsider(buffer: Memory)
      requires Valid() && buffer.live && buffer != home && buffer !in storage && buffer !in buffers
      modifies buffer`live
      ensures Valid() && !buffer.live
    {
      hide BlockList, SpareList, UsedList, AllLive, Size;
      buffer.Free();
    }

    /** The link of a buffer in the allocations list, and the link before it. */
    method Find(buffer: Memory) returns (current: Link?, previous: Link?)
      requires Valid()
      ensures |used| == |buffers|
      ensures var k := IndexOf(buffers, buffer);
        && current == (if k < |used| then used[k] else null)
        && previous == (if k > 0 then used[k - 1] else null)
    {
      current, previous := allocations, null;
      ghost var i := 0;
      while current != null && current.buffer != buffer
        invariant 0 <= i <= |used|
        invariant current == if i < |used| then used[i] else null
        invariant previous == if i > 0 then used[i - 1] else null
        invariant buffer !in buffers[..i]
        decreases |used| - i
      {
        assert used[i].next == Following(used, i);
        previous := current;
        current := current.Next();
        i := i + 1;
      }
      FirstIndex(buffers, buffer, i);
    }

    /**
     Gives back one buffer. It is freed whether the group knows it or not; its link,
     if it has one, becomes the first spare link. All other buffers stay live.
     */
    method GroupFreeMemory(buffer: Memory?)
      requires Valid()
      requires buffer != null ==> buffer.live && buffer != home && buffer !in storage
      modifies this`allocations, this`spareLinks, this`used, this`spares, this`buffers, (set x | x in used),
               {buffer}`live
      ensures Valid() && (buffer != null ==> !buffer.live)
      ensures buffer == null || buffer !in old(buffers) ==>
        buffers == old(buffers) && used == old(used) && spares == old(spares)
      ensures buffer != null && buffer in old(buffers) ==>
        var k := IndexOf(old(buffers), buffer);
        && k < |old(used)| && used == Removed(old(used), k)
        && buffers == Removed(old(buffers), k)
        && spares == [old(used[k])] + old(spares)
    {
      hide *;
      if buffer == null { return; }
      var current, previous := Find(buffer);
      if current != null { Unlink(current, previous, IndexOf(buffers, buffer)); }
      FreeOutsider(buffer);
    }

    /** Takes link number k out of the allocations list. */
    method Detach(current: Link, previous: Link?, ghost k: nat)
      requires Chain(allocations, used) && k < |used| && current == used[k] && current.home.live
      requires previous == if k > 0 then used[k - 1] else null
      modifies this`allocations, this`used, {previous}`next
      ensures used == Removed(old(used), k) && Chain(allocations, used) && current !in used
    {
      Distinct(allocations, used);
      assert used[k].next == Following(used, k);
      OthersDiffer(used, k);
      if previous != null {
        OthersDiffer(used, k - 1);
        previous.next := current.Next();
      } else {
        allocations := current.Next();
      }
      ghost var was := used;
      used := Removed(used, k);
      forall i | 0 <= i < |used| ensures used[i].next == Following(used, i) {
        if i + 1 < k {
          assert used[i] == was[i] && Following(used, i) == Following(was, i);
        } else if i < k {
          assert used[i] == was[i] == previous && Following(used, i) == Following(was, k);
        } else {
          assert used[i] == was[i + 1] && Following(used, i) == Following(was, i + 1);
        }
      }
    }

    /** The first `i` buffers of the allocations list have been freed. */
    ghost predicate Clearing(i: nat)
      reads this, (set x | x in blocks), (set x | x in spares), (set x | x in used), (set x | x in storage)`live,
            (set x | x in buffers)`live, home`live
    {
      && BlockList(linkBlocks, blocks, storage) && SpareList(spareLinks, spares, storage)
      && i <= |used| && Chain(allocations, used) && Freed(buffers, i) && Cleared(used, buffers, i)
      && (forall l :: l in used ==> l !in blocks && l !in spares && l.home in storage)
      && Freed(storage, 0) && home.live && home !in storage
      && (forall b :: b in buffers ==> b !in storage && b != home)
    }

    lemma StartClearing()
      requires Valid()
      ensures Clearing(0) && |buffers| == |used| && allocations == if used == [] then null else used[0]
    {
      ListsAreDisjoint();
      NoneFreed(home, storage, buffers);
    }

    /** Frees the buffer of one link. */
    method FreeOne(current: Link, ghost i: nat) returns (next: Link?)
      requires Clearing(i) && i < |used| == |buffers| && current == used[i]
      modifies (set l | l in used)`buffer, (set b | b in buffers)`live
      ensures Clearing(i + 1) && next == if i + 1 < |used| then used[i + 1] else null
    {
      NextInChain(allocations, used, i);
      assert buffers[i] in buffers && current in used;
      StillLive(storage, 0, current.home);
      hide Chain, BlockList, SpareList, Freed, Cleared;
      FreeHeld(current, used, buffers, i);
      next := current.Next();
    }

    /** Frees every buffer on the allocations list, and returns its last link. */
    method FreeBuffers() returns (previous: Link?)
      requires Valid()
      modifies (set l | l in used)`buffer, (set b | b in buffers)`live
      ensures Clearing(|used|)
      ensures previous == if used == [] then null else used[|used| - 1]
    {
      hide *;
      StartClearing();
      var current := allocations;
      previous := null;
      ghost var i: nat := 0;
      while current != null
        invariant i <= |used| == |buffers| && Clearing(i)
        invariant current == if i < |used| then used[i] else null
        invariant previous == if i > 0 then used[i - 1] else null
        decreases |used| - i
      {
        previous := current;
        current := FreeOne(current, i);
        i := i + 1;
      }
    }

    lemma AllBuffersFreed()
      requires Clearing(|used|)
      ensures BlockList(linkBlocks, blocks, storage) && AllLive(home, storage, [])
      ensures Chain(spareLinks, spares) && Chain(allocations, used)
      ensures forall l :: l in used + spares ==> l.buffer == null && l.home in storage
      ensures used == [] ==> Chain(spareLinks, used + spares)
      ensures used != [] ==> used[|used| - 1] !in blocks && used[|used| - 1] !in spares
      ensures |buffers| == |used| && forall b :: b in buffers ==> !b.live
      ensures used == [] ==> allocations == null
    {
      assert used == [] ==> used + spares == spares;
    }

    lemma CountLinks()
      requires Valid()
      ensures Size(linkCount, |blocks|, |spares| + |used|) && linkCount == |blocks| + |spares| + |used|
    {
    }

    lemma AfterSplice()
      requires BlockList(linkBlocks, blocks, storage) && Chain(spareLinks, spares)
      requires forall l :: l in spares ==> l.buffer == null && l.home in storage
      requires allocations == null && used == [] && buffers == []
      requires AllLive(home, storage, buffers) && Size(linkCount, |blocks|, |spares| + |used|)
      ensures Valid()
    {
    }

    /** Puts the links of the allocations list in front of the spare links. */
    method Splice(previous: Link?)
      requires Clearing(|used|) && Size(linkCount, |blocks|, |spares| + |used|)
      requires previous == if used == [] then null else used[|used| - 1]
      modifies this`allocations, this`spareLinks, this`used, this`spares, this`buffers, {previous}`next
      ensures Valid() && spares == old(used) + old(spares) && used == [] && buffers == []
      ensures forall b :: b in old(buffers) ==> !b.live
    {
      hide *;
      AllBuffersFreed();
      if previous != null {
        Continue(previous, spareLinks, allocations, used, spares);
        spareLinks := allocations;
        allocations := null;
      }
      spares := used + spares;
      used, buffers := [], [];
      AfterSplice();
    }

    /** Frees every live buffer once, and makes all links but the block links spare. */
    method FreeAllAllocations()
      requires Valid()
      modifies this`allocations, this`spareLinks, this`used, this`spares, this`buffers, (set x | x in used),
               (set x | x in buffers)`live
      ensures Valid() && buffers == [] && used == []
      ensures forall b :: b in old(buffers) ==> !b.live
      ensures spares == old(used) + old(spares)
    {
      hide *;
      CountLinks();
      var previous := FreeBuffers();
      Splice(previous);
    }
  }
}
