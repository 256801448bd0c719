/** Whole runs of the heap: any calls of malloc, calloc, realloc and free, and stores by the clients, in any order. */
module HeapRuns {
  import opened ByteMemory
  import opened Heap
  import opened HeapLayout
  import opened Words

  /** A call with its answer, or a write into the data of the live block at h. */
  datatype Event =
    | Malloc(size: word, p: nat)
    | Calloc(n: word, size: word, p: nat)
    | Realloc(p: nat, newsize: word, r: nat)
    | Free(p: nat)
    | Store(h: nat)

  /** Each step is what the contract of the method promises. */
  ghost predicate StepTo(c: Layout, e: Event, c': Layout)
    requires c.Inv() && c'.Inv()
  {
    match e
    case Malloc(size, p) => MallocEffect(c, c', p, size)
    case Calloc(n, size, p) => CallocEffect(c, c', p, n, size)
    case Realloc(p, newsize, r) => (p == 0 || IsLive(c, p)) && ReallocEffect(c, c', p, r, newsize)
    case Free(p) => if p == 0 then c' == c else IsLive(c, p) && FreeEffect(c, c', p)
    case Store(h) =>
      && h in c.live && c' == c.(m := c'.m)
      && SameOutside(c.m, c'.m, h + DATA_OFFSET, h + DATA_OFFSET + c.blocks[h])
  }

  ghost predicate IsLive(c: Layout, p: nat) {
    p >= DATA_OFFSET && p - DATA_OFFSET in c.live
  }

  /** A run from the empty heap. */
  ghost predicate Runs(cs: seq<Layout>, es: seq<Event>) {
    && |cs| == |es| + 1 && (forall i :: 0 <= i < |cs| ==> cs[i].Inv())
    && cs[0].blocks == map[] && cs[0].live == {}
    && forall i :: 0 <= i < |es| ==> StepTo(cs[i], es[i], cs[i + 1])
  }

  // ---------- isolation ----------

  /** The block is freed, written to, or resized and not left where it is. */
  predicate Touches(e: Event, h: nat) {
    match e
    case Free(p) => p == h + DATA_OFFSET
    case Store(k) => k == h
    case Realloc(p, newsize, r) => p == h + DATA_OFFSET && (newsize == 0 || (r != p && r != 0))
    case _ => false
  }

  ghost predicate SameBlock(c: Layout, c': Layout, h: nat) {
    && h in c.live && h in c'.live && h in c.blocks && h in c'.blocks && c'.blocks[h] == c.blocks[h]
    && h in c.Contents() && h in c'.Contents() && c'.Contents()[h] == c.Contents()[h]
  }

  lemma StepIsolates(c: Layout, e: Event, c': Layout, h: nat)
    requires c.Inv() && c'.Inv() && StepTo(c, e, c') && h in c.live && !Touches(e, h)
    ensures SameBlock(c, c', h)
  {
    ContentsMeaning(c);
    ContentsMeaning(c');
    LiveIsBlock(c, h);
    hide Layout.Inv, Layout.Contents;
    match e
    case Malloc(size, p) => MallocKeepsBlock(c, c', h, p, size);
    case Calloc(n, size, p) => MallocKeepsBlock(c, c', h, p, n * size % WORD_MODULUS);
    case Realloc(p, newsize, r) => ReallocIsolates(c, c', p, r, newsize, h);
    case Free(p) =>
      if p != 0 {
        FreeIsolates(c, c', p, h);
      }
    case Store(k) => WriteIsolates(c, c', k, h);
  }

  lemma FreeIsolates(c: Layout, c': Layout, p: nat, h: nat)
    requires c.Inv() && c'.Inv() && IsLive(c, p) && FreeEffect(c, c', p) && h in c.live && p != h + DATA_OFFSET
    ensures SameBlock(c, c', h)
  {
    ContentsMeaning(c);
    ContentsMeaning(c');
    LiveIsBlock(c, h);
    hide Layout.Inv, Layout.Contents;
  }

  lemma ReallocIsolates(c: Layout, c': Layout, p: nat, r: nat, newsize: word, h: nat)
    requires c.Inv() && c'.Inv() && StepTo(c, Realloc(p, newsize, r), c') && h in c.live
    requires !Touches(Realloc(p, newsize, r), h)
    ensures SameBlock(c, c', h)
  {
    hide Layout.Inv, Layout.Contents, MallocEffect, FreeEffect, MoveEffect, SameBlock;
    if p == 0 {
      MallocSame(c, c', h, r, newsize);
      return;
    }
    LiveIsBlock(c, p - DATA_OFFSET);
    if newsize == 0 {
      FreeIsolates(c, c', p, h);
    } else if newsize <= c.blocks[p - DATA_OFFSET] {
      SameAsItself(c, h);
    } else {
      MoveIsolates(c, c', p, r, newsize, h);
    }
  }

  lemma MallocSame(c: Layout, c': Layout, h: nat, r: nat, size: word)
    requires c.Inv() && c'.Inv() && h in c.live && MallocEffect(c, c', r, size)
    ensures SameBlock(c, c', h)
  {
    ContentsMeaning(c);
    ContentsMeaning(c');
    LiveIsBlock(c, h);
    MallocKeepsBlock(c, c', h, r, size);
  }

  lemma MoveIsolates(c: Layout, c': Layout, p: nat, r: nat, newsize: word, h: nat)
    requires c.Inv() && c'.Inv() && IsLive(c, p) && MoveEffect(c, c', p, r, newsize) && h in c.live
    requires p == h + DATA_OFFSET ==> r == p || r == 0
    ensures SameBlock(c, c', h)
  {
    if c' == c {
      SameAsItself(c, h);
    } else {
      ContentsMeaning(c);
      ContentsMeaning(c');
      LiveIsBlock(c, h);
      hide Layout.Inv, Layout.Contents, NeedsCarve, Rounded, FirstFit;
      var k, k' := p - DATA_OFFSET, r - DATA_OFFSET;
      assert (c'.Contents() - {k'})[h] == (c.Contents() - {k})[h];
    }
  }

  lemma LiveIsBlock(c: Layout, h: nat)
    requires c.Inv() && h in c.live
    ensures h in c.blocks
  {
  }

  lemma WriteIsolates(c: Layout, c': Layout, k: nat, h: nat)
    requires c.Inv() && c'.Inv() && StepTo(c, Store(k), c') && h in c.live && h != k
    ensures h in c.Contents() && h in c'.Contents() && c'.Contents()[h] == c.Contents()[h]
  {
    ContentsMeaning(c);
    ContentsMeaning(c');
    ContentsFrame(c, c', k);
    hide Layout.Inv, Layout.Contents;
    assert (c'.Contents() - {k})[h] == (c.Contents() - {k})[h];
  }

  /** Over every run: from the moment a block is live until it is freed, moved or written to, it stays live with the
      same size and the same bytes, whatever calls are made in between. */
  lemma {:induction false} RunIsolates(cs: seq<Layout>, es: seq<Event>, i: nat, j: nat, h: nat)
    requires Runs(cs, es) && i <= j < |cs| && h in cs[i].live
    requires forall k :: i <= k < j ==> !Touches(es[k], h)
    ensures h in cs[j].live && SameBlock(cs[i], cs[j], h)
    decreases j
  {
    hide Layout.Inv, Layout.Contents, StepTo, SameBlock;
    if i == j {
      SameAsItself(cs[i], h);
    } else {
      RunIsolates(cs, es, i, j - 1, h);
      StepIsolates(cs[j - 1], es[j - 1], cs[j], h);
      SameTwice(cs[i], cs[j - 1], cs[j], h);
    }
  }

  lemma SameAsItself(c: Layout, h: nat)
    requires c.Inv() && h in c.live
    ensures SameBlock(c, c, h)
  {
    ContentsMeaning(c);
  }

  lemma SameTwice(c: Layout, c1: Layout, c2: Layout, h: nat)
    requires SameBlock(c, c1, h) && SameBlock(c1, c2, h)
    ensures SameBlock(c, c2, h) && h in c2.live
  {
    hide Layout.Contents;
  }

  // ---------- the high-water mark ----------

  /** The live blocks of one size. */
  ghost function LiveOf(c: Layout, s: word): set<nat> {
    set h | h in c.live && h in c.blocks && c.blocks[h] == s
  }

  ghost function BlocksOf(c: Layout, s: word): set<nat> {
    set h | h in c.blocks.Keys && c.blocks[h] == s
  }

  /** The most blocks of one size that were live at once, up to step i. */
  ghost function Peak(cs: seq<Layout>, i: nat, s: word): nat
    requires i < |cs|
  {
    var now := |LiveOf(cs[i], s)|;
    if i == 0 then now else var before := Peak(cs, i - 1, s); if before < now then now else before
  }

  lemma NoneFree(c: Layout, b: nat)
    requires c.Inv() && b < |c.sizes| && c.chains[b] == []
    ensures BlocksOf(c, c.sizes[b]) == LiveOf(c, c.sizes[b])
  {
    forall h | h in BlocksOf(c, c.sizes[b])
      ensures h in c.live
    {
      assert h in c.chains[b] <==> c.OnList(b, h);
    }
  }

  /** A new block of a bucket's size is carved only when all blocks of that size are live. */
  lemma CarvedWhenAllLive(c: Layout, c': Layout, p: nat, size: word, s: word)
    requires c.Inv() && c'.Inv() && MallocEffect(c, c', p, size) && s in c.sizes
    requires BlocksOf(c', s) != BlocksOf(c, s)
    ensures p >= DATA_OFFSET && p - DATA_OFFSET !in c.blocks && Rounded(c.sizes, size) == s
    ensures BlocksOf(c, s) == LiveOf(c, s)
  {
    var b := FirstFit(c.sizes, size);
    hide Layout.Inv, Layout.Contents;
    if NeedsCarve(c, size) && b < |c.sizes| {
      NoneFree(c, b);
    }
  }

  /** A block that realloc carves is of another size than the one it frees, and no free block would have done. */
  lemma MovedWhenAllLive(c: Layout, c': Layout, p: nat, r: nat, newsize: word, s: word)
    requires c.Inv() && c'.Inv() && IsLive(c, p) && MoveEffect(c, c', p, r, newsize) && s in c.sizes
    requires c.blocks[p - DATA_OFFSET] < newsize && BlocksOf(c', s) != BlocksOf(c, s)
    ensures r >= DATA_OFFSET && r - DATA_OFFSET !in c.blocks && c'.blocks == c.blocks[r - DATA_OFFSET := s]
    ensures c'.live == c.live - {p - DATA_OFFSET} + {r - DATA_OFFSET} && c.blocks[p - DATA_OFFSET] != s
    ensures BlocksOf(c, s) == LiveOf(c, s)
  {
    var b := FirstFit(c.sizes, newsize);
    hide Layout.Inv, Layout.Contents;
    if NeedsCarve(c, newsize) && b < |c.sizes| {
      NoneFree(c, b);
    }
  }

  lemma MoveCounts(c: Layout, c': Layout, p: nat, r: nat, newsize: word, s: word)
    requires c.Inv() && c'.Inv() && IsLive(c, p) && MoveEffect(c, c', p, r, newsize) && s in c.sizes
    requires c.blocks[p - DATA_OFFSET] < newsize && BlocksOf(c', s) != BlocksOf(c, s)
    ensures |BlocksOf(c', s)| == |BlocksOf(c, s)| + 1 && |LiveOf(c', s)| == |BlocksOf(c', s)|
  {
    hide Layout.Contents, Layout.Inv, MoveEffect;
    MovedWhenAllLive(c, c', p, r, newsize, s);
    var h := r - DATA_OFFSET;
    assert BlocksOf(c', s) == BlocksOf(c, s) + {h};
    assert LiveOf(c', s) == LiveOf(c, s) + {h};
  }

  lemma MallocCounts(c: Layout, c': Layout, p: nat, size: word, s: word)
    requires c.Inv() && c'.Inv() && MallocEffect(c, c', p, size) && s in c.sizes && BlocksOf(c', s) != BlocksOf(c, s)
    ensures |BlocksOf(c', s)| == |BlocksOf(c, s)| + 1 && |LiveOf(c', s)| == |BlocksOf(c', s)|
  {
    hide Layout.Contents, Layout.Inv, LiveOf, BlocksOf;
    CarvedWhenAllLive(c, c', p, size, s);
    CarveCounts(c, c', p, size, s);
  }

  lemma SizesFixed(c: Layout, e: Event, c': Layout)
    requires c.Inv() && c'.Inv() && StepTo(c, e, c')
    ensures c'.sizes == c.sizes
  {
    hide Layout.Contents, Layout.Inv, NeedsCarve, Rounded, FirstFit;
  }

  /** The blocks of a size, live and all, before and after a step: all of them grow by one, when they were all live, or
      stay; and the live ones are among them. */
  lemma StepCounts(c: Layout, e: Event, c': Layout, s: word)
    requires c.Inv() && c'.Inv() && StepTo(c, e, c') && s in c.sizes
    ensures c'.sizes == c.sizes && |LiveOf(c', s)| <= |BlocksOf(c', s)|
    ensures |BlocksOf(c', s)| == |BlocksOf(c, s)|
            || (|BlocksOf(c', s)| == |BlocksOf(c, s)| + 1 && |LiveOf(c', s)| == |BlocksOf(c', s)|)
  {
    hide Layout.Contents, Layout.Inv, LiveOf, BlocksOf, MallocEffect, MoveEffect;
    LiveAmong(c', s);
    SizesFixed(c, e, c');
    if BlocksOf(c', s) != BlocksOf(c, s) {
      SameBlocks(c, c', s);
      match e
      case Malloc(size, p) => MallocCounts(c, c', p, size, s);
      case Calloc(n, size, p) => MallocCounts(c, c', p, n * size % WORD_MODULUS, s);
      case Realloc(p, newsize, r) =>
        if p == 0 {
          MallocCounts(c, c', r, newsize, s);
        } else {
          MoveCounts(c, c', p, r, newsize, s);
        }
    }
  }

  lemma SameBlocks(c: Layout, c': Layout, s: word)
    ensures c'.blocks == c.blocks ==> BlocksOf(c', s) == BlocksOf(c, s)
  {
  }

  lemma LiveAmong(c: Layout, s: word)
    ensures |LiveOf(c, s)| <= |BlocksOf(c, s)|
  {
    Subset(LiveOf(c, s), BlocksOf(c, s));
  }

  lemma {:induction false} Subset(a: set<nat>, b: set<nat>)
    requires a <= b
    ensures |a| <= |b|
    decreases |a|
  {
    if a != {} {
      var x :| x in a;
      Subset(a - {x}, b - {x});
    }
  }

  lemma CarveCounts(c: Layout, c': Layout, p: nat, size: word, s: word)
    requires c.Inv() && c'.Inv() && MallocEffect(c, c', p, size) && p >= DATA_OFFSET && p - DATA_OFFSET !in c.blocks
    requires Rounded(c.sizes, size) == s && BlocksOf(c, s) == LiveOf(c, s)
    ensures |BlocksOf(c', s)| == |BlocksOf(c, s)| + 1 && |LiveOf(c', s)| == |BlocksOf(c', s)|
  {
    hide Layout.Contents, Layout.Inv;
    var h := p - DATA_OFFSET;
    assert c'.blocks == c.blocks[h := s] && c'.live == c.live + {h};
    assert BlocksOf(c', s) == BlocksOf(c, s) + {h};
    assert LiveOf(c', s) == LiveOf(c, s) + {h};
  }

  /** Over every run, for every bucket: the number of blocks ever carved for it is the largest number of its blocks that
      were live at the same time. Memory of the bucket sizes is never carved while a freed block would do. */
  lemma {:induction false} CarvedIsPeak(cs: seq<Layout>, es: seq<Event>, i: nat, s: word)
    requires Runs(cs, es) && i < |cs| && s in cs[0].sizes
    ensures cs[i].sizes == cs[0].sizes && |BlocksOf(cs[i], s)| == Peak(cs, i, s)
    decreases i
  {
    hide Layout.Inv, StepTo, LiveOf, BlocksOf;
    if i == 0 {
      NoBlocks(cs[0], s);
    } else {
      CarvedIsPeak(cs, es, i - 1, s);
      StepCounts(cs[i - 1], es[i - 1], cs[i], s);
    }
  }

  lemma NoBlocks(c: Layout, s: word)
    requires c.blocks == map[]
    ensures |BlocksOf(c, s)| == 0 && |LiveOf(c, s)| == 0
  {
    assert BlocksOf(c, s) == {} && LiveOf(c, s) == {};
  }
  // ---------- the methods make such runs ----------

  lemma Extended(cs: seq<Layout>, es: seq<Event>, e: Event, c': Layout)
    requires Runs(cs, es) && c'.Inv() && StepTo(cs[|es|], e, c')
    ensures Runs(cs + [c'], es + [e])
  {
    hide Layout.Inv, StepTo;
  }

  lemma StoreIsStep(c: Layout, c': Layout, p: nat, offset: nat, value: byte)
    requires c.Inv() && c'.Inv() && IsLive(c, p) && offset < c.blocks[p - DATA_OFFSET] && p + offset < |c.m|
    requires c' == c.(m := WithByte(c.m, p + offset, value))
    ensures StepTo(c, Store(p - DATA_OFFSET), c')
  {
    BlockFacts(c, p - DATA_OFFSET);
    hide Layout.Inv;
  }

  /** A heap together with everything that has happened to it: each call, made through the methods of the heap, extends
      the run. */
  class Session {
    const heap: Heap
    ghost var cs: seq<Layout>
    ghost var es: seq<Event>

    ghost predicate Valid()
      reads this, heap, heap.mem
    {
      heap.Valid() && Runs(cs, es) && cs[|es|] == heap.View()
    }

    constructor (heap: Heap)
      requires heap.Valid() && heap.blocks == map[] && heap.live == {}
      ensures Valid() && this.heap == heap && es == []
    {
      this.heap, cs, es := heap, [heap.View()], [];
    }

    ghost method Record(e: Event)
      requires heap.Valid() && Runs(cs, es) && StepTo(cs[|es|], e, heap.View())
      modifies this
      ensures Valid() && es == old(es) + [e] && cs == old(cs) + [heap.View()]
    {
      Extended(cs, es, e, heap.View());
      cs, es := cs + [heap.View()], es + [e];
    }

    method Malloc(size: word) returns (p: nat)
      requires Valid() && Sound(heap.View(), size)
      modifies this, heap, heap.mem
      ensures Valid() && es == old(es) + [Event.Malloc(size, p)]
    {
      hide Layout.Inv, Runs, MallocEffect, Sound;
      p := heap.Malloc(size);
      Record(Event.Malloc(size, p));
    }

    method Calloc(n: word, size: word) returns (p: nat)
      requires Valid() && Sound(heap.View(), n * size % WORD_MODULUS)
      modifies this, heap, heap.mem
      ensures Valid() && es == old(es) + [Event.Calloc(n, size, p)]
    {
      hide Layout.Inv, Runs, CallocEffect, Sound;
      p := heap.Calloc(n, size);
      Record(Event.Calloc(n, size, p));
    }

    method Realloc(p: nat, newsize: word) returns (r: nat)
      requires Valid() && (p == 0 || IsLive(heap.View(), p))
      requires (p != 0 && newsize <= heap.blocks[p - DATA_OFFSET]) || Sound(heap.View(), newsize)
      modifies this, heap, heap.mem
      ensures Valid() && es == old(es) + [Event.Realloc(p, newsize, r)]
    {
      hide Layout.Inv, Runs, ReallocEffect, Sound;
      r := heap.Realloc(p, newsize);
      Record(Event.Realloc(p, newsize, r));
    }

    method Free(p: nat)
      requires Valid() && (p == 0 || IsLive(heap.View(), p))
      modifies this, heap, heap.mem
      ensures Valid() && es == old(es) + [Event.Free(p)]
    {
      hide Layout.Inv, Runs, FreeEffect;
      heap.Free(p);
      Record(Event.Free(p));
    }

    method Store(p: nat, offset: nat, value: byte)
      requires Valid() && IsLive(heap.View(), p) && offset < heap.blocks[p - DATA_OFFSET]
      modifies this, heap.mem
      ensures Valid() && es == old(es) + [Event.Store(p - DATA_OFFSET)]
    {
      hide Layout.Inv, Runs;
      ghost var c := heap.View();
      heap.ClientStore(p, offset, value);
      StoreIsStep(c, heap.View(), p, offset, value);
      Record(Event.Store(p - DATA_OFFSET));
    }
  }
}
