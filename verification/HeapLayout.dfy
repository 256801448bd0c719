/**
 The heap as a value: byte memory, the carving pointer, the bucket free lists, and who owns each block.
 A block at address h has a 12-byte header (magic, size, next) and `size` data bytes from h + 12.
 */
module HeapLayout {
  import opened ByteMemory
  import opened Words

  const BLOCK_MAGIC: word := 0x424C4D43
  const DATA_OFFSET: nat := 12
  const HEADER_SIZE: nat := 13

  /** The bytes a block takes when it is carved: header and data, rounded up to a multiple of 16. */
  function Span(size: nat): (n: nat)
    ensures n % 16 == 0 && 12 + size < n <= 12 + size + 16
  {
    (HEADER_SIZE + size + 15) / 16 * 16
  }

  /** The first bucket that is large enough, or |sizes| when no bucket is. */
  function FirstFit(sizes: seq<word>, size: nat): (b: nat)
    ensures b <= |sizes|
    ensures b < |sizes| ==> size <= sizes[b]
    ensures forall i :: 0 <= i < b ==> sizes[i] < size
  {
    if sizes == [] || size <= sizes[0] then 0 else 1 + FirstFit(sizes[1..], size)
  }

  /** The size a block is really given: that of the first fitting bucket, or the request itself. */
  function Rounded(sizes: seq<word>, size: word): (r: word)
    ensures size <= r
  {
    var b := FirstFit(sizes, size);
    if b < |sizes| then sizes[b] else size
  }

  predicate Ascending(sizes: seq<word>) {
    (forall i :: 0 <= i < |sizes| ==> 0 < sizes[i]) && forall i, j :: 0 <= i < j < |sizes| ==> sizes[i] < sizes[j]
  }

  /** That is the least bucket size that holds the request, or the request when none does. */
  lemma RoundedIsLeast(sizes: seq<word>, size: word)
    requires Ascending(sizes)
    ensures if forall i :: 0 <= i < |sizes| ==> sizes[i] < size then Rounded(sizes, size) == size
            else && Rounded(sizes, size) in sizes && size <= Rounded(sizes, size)
                 && forall i :: 0 <= i < |sizes| && size <= sizes[i] ==> Rounded(sizes, size) <= sizes[i]
  {
    var b := FirstFit(sizes, size);
    if b == |sizes| {
      assert forall i :: 0 <= i < |sizes| ==> sizes[i] < size;
    } else {
      assert sizes[b] in sizes && size <= sizes[b];
    }
  }

  /** A null-terminated singly linked list through the `next` words, without repetition. */
  ghost predicate IsChain(m: seq<byte>, head: nat, chain: seq<nat>) {
    && head == (if chain == [] then 0 else chain[0])
    && (forall i {:trigger LinkAt(m, chain, i)} :: 0 <= i < |chain| ==> LinkAt(m, chain, i))
    && forall i, j :: 0 <= i < j < |chain| ==> chain[i] != chain[j]
  }

  ghost predicate LinkAt(m: seq<byte>, chain: seq<nat>, i: nat)
    requires i < |chain|
  {
    && 0 < chain[i] && chain[i] + 12 <= |m|
    && WordAt(m, chain[i] + 8) == if i + 1 < |chain| then chain[i + 1] else 0
  }

  ghost predicate Marked(m: seq<byte>, h: nat, size: word) {
    h + 12 <= |m| && WordAt(m, h) == BLOCK_MAGIC && WordAt(m, h + 4) == size
  }

  datatype Layout = Layout(
    m: seq<byte>, low: nat, limit: nat, sizes: seq<word>, next: nat, heads: seq<nat>,
    blocks: map<nat, word>, live: set<nat>, chains: seq<seq<nat>>)
  {
    /** The address space leaves room above the heap for realloc to read one heap length too far. */
    ghost predicate Placed() {
      && 0 < low <= next <= limit && next % 16 == 0
      && limit + (limit - low) + 16 <= |m| <= 0x1_0000_0000
      && |heads| == |sizes| == |chains|
      && Ascending(sizes)
    }

    ghost function End(h: nat): nat
      requires h in blocks
    {
      h + Span(blocks[h])
    }

    ghost predicate Inside(h: nat) {
      h in blocks ==> low <= h && h % 16 == 0 && 0 < blocks[h] && End(h) <= next
    }

    ghost predicate Abuts(h: nat) {
      h in blocks ==> End(h) == next || End(h) in blocks
    }

    ghost predicate Apart(h: nat, k: nat) {
      h in blocks && k in blocks && h < k ==> End(h) <= k
    }

    /** The blocks cover low to next without a gap and without overlap. */
    ghost predicate Tiled() {
      && (low == next || low in blocks)
      && (forall h {:trigger Inside(h)} :: Inside(h))
      && (forall h {:trigger Abuts(h)} :: Abuts(h))
      && forall h, k {:trigger Apart(h, k)} :: Apart(h, k)
    }

    ghost predicate HasHeader(h: nat) {
      h in blocks ==> Marked(m, h, blocks[h])
    }

    ghost predicate Headed() {
      forall h {:trigger HasHeader(h)} :: HasHeader(h)
    }

    ghost predicate Chained()
      requires |heads| == |sizes| == |chains|
    {
      forall b :: 0 <= b < |sizes| ==> IsChain(m, heads[b], chains[b])
    }

    ghost predicate OnList(b: nat, h: nat)
      requires b < |sizes|
    {
      h in blocks && h !in live && blocks[h] == sizes[b]
    }

    /** A block that is not live is on the free list of the bucket of its size, and on no other list;
        one whose size is no bucket's is on none. */
    ghost predicate Owned()
      requires |heads| == |sizes| == |chains|
    {
      && live <= blocks.Keys
      && forall b, h {:trigger OnList(b, h)} :: 0 <= b < |sizes| ==> (h in chains[b] <==> OnList(b, h))
    }

    ghost predicate Inv() {
      Placed() && Tiled() && Headed() && Chained() && Owned()
    }

    ghost predicate Retired(h: nat) {
      h in blocks && h !in live && blocks[h] !in sizes
    }

    /** The data bytes of a block. */
    ghost function Data(h: nat): (d: seq<byte>)
      requires h in blocks && h + DATA_OFFSET + blocks[h] <= |m|
      ensures |d| == blocks[h]
    {
      m[h + DATA_OFFSET..h + DATA_OFFSET + blocks[h]]
    }

    /** What the clients of the allocator see: the live blocks and the bytes in them. */
    ghost function Contents(): (r: map<nat, seq<byte>>) {
      map h | h in live && h in blocks && h + DATA_OFFSET + blocks[h] <= |m| :: Data(h)
    }

    /** Carving the next block with a size already rounded to its bucket. */
    ghost function Carve(size: word, m': seq<byte>): Layout {
      this.(m := m', next := next + Span(size), blocks := blocks[next := size], live := live + {next})
    }

    /** Taking the head of a free list. */
    ghost function Pop(b: nat, m': seq<byte>): Layout
      requires b < |heads| == |chains| && chains[b] != []
    {
      var rest := chains[b][1..];
      this.(m := m', heads := heads[b := if rest == [] then 0 else rest[0]],
        live := live + {chains[b][0]}, chains := chains[b := rest])
    }

    /** Giving a live block back to the list of its bucket. */
    ghost function Push(h: nat, b: nat, m': seq<byte>): Layout
      requires b < |heads| == |chains|
    {
      this.(m := m', heads := heads[b := h], live := live - {h}, chains := chains[b := [h] + chains[b]])
    }
  }

  /** What the invariant says about one block. */
  lemma BlockFacts(c: Layout, h: nat)
    requires c.Inv() && h in c.blocks
    ensures c.low <= h && h % 16 == 0 && 0 < c.blocks[h] && c.End(h) <= c.next && Marked(c.m, h, c.blocks[h])
    ensures h + DATA_OFFSET + c.blocks[h] < c.next <= c.limit && c.limit + (c.limit - c.low) <= |c.m|
  {
    assert c.Inside(h) && c.HasHeader(h);
  }

  lemma TwoBlocks(c: Layout, h: nat, k: nat)
    requires c.Inv() && h in c.blocks && k in c.blocks && h != k
    ensures c.End(h) <= k || c.End(k) <= h
  {
    assert c.Apart(h, k) && c.Apart(k, h);
  }

  /** Every address of the carved region lies in exactly one block. */
  lemma EveryAddressInOneBlock(c: Layout, a: nat)
    requires c.Inv() && c.low <= a < c.next
    ensures exists h :: h in c.blocks && h <= a < c.End(h)
    ensures forall h, k | h in c.blocks && k in c.blocks :: h <= a < c.End(h) && k <= a < c.End(k) ==> h == k
  {
    var h: nat := c.low;
    while c.End(h) <= a
      invariant h in c.blocks && h <= a
      decreases a - h
    {
      assert c.Abuts(h);
      h := c.End(h);
    }
    forall h, k | h in c.blocks && k in c.blocks && h <= a < c.End(h) && k <= a < c.End(k)
      ensures h == k
    {
      if h != k {
        TwoBlocks(c, h, k);
      }
    }
  }

  lemma SizesDiffer(sizes: seq<word>, b: nat, b': nat)
    requires Ascending(sizes) && b < |sizes| && b' < |sizes| && sizes[b] == sizes[b']
    ensures b == b'
  {
  }

  lemma InvAscending(c: Layout)
    requires c.Inv()
    ensures |c.heads| == |c.sizes| == |c.chains| && Ascending(c.sizes)
  {
  }

  lemma ListedIff(c: Layout, h: nat, b: nat)
    requires c.Inv() && b < |c.sizes|
    ensures h in c.chains[b] <==> c.OnList(b, h)
  {
    hide Layout.Placed, Layout.Tiled, Layout.Headed, Layout.Chained;
    assert c.Placed();
  }

  /** A free block of a bucket's size is on that bucket's list and on no other. */
  lemma OwnList(c: Layout, h: nat, b: nat)
    requires c.Inv() && h in c.blocks && h !in c.live && b < |c.sizes| && c.sizes[b] == c.blocks[h]
    ensures h in c.chains[b]
    ensures forall b' :: 0 <= b' < |c.sizes| && h in c.chains[b'] ==> b' == b
  {
    hide Layout.Inv;
    InvAscending(c);
    ListedIff(c, h, b);
    forall b' | 0 <= b' < |c.sizes| && h in c.chains[b']
      ensures b' == b
    {
      ListedIff(c, h, b');
      SizesDiffer(c.sizes, b, b');
    }
  }

  /** Each block is exactly one of: live, on one free list (and there once), retired. */
  lemma ExactlyOneOwner(c: Layout, h: nat)
    requires c.Inv() && h in c.blocks
    ensures h in c.live || c.Retired(h) ==> forall b :: 0 <= b < |c.sizes| ==> h !in c.chains[b]
    ensures h !in c.live && !c.Retired(h) ==>
              exists b :: && 0 <= b < |c.sizes| && h in c.chains[b] && c.blocks[h] == c.sizes[b]
                          && forall b' :: 0 <= b' < |c.sizes| && h in c.chains[b'] ==> b' == b
  {
    hide Layout.Inv;
    InvAscending(c);
    if h in c.live || c.Retired(h) {
      forall b | 0 <= b < |c.sizes|
        ensures h !in c.chains[b]
      {
        ListedIff(c, h, b);
        assert c.sizes[b] in c.sizes;
      }
    } else {
      var b :| 0 <= b < |c.sizes| && c.sizes[b] == c.blocks[h];
      OwnList(c, h, b);
    }
  }

  /** A write inside the link word and data of block h leaves every other block as it was. */
  lemma OtherBlockFrame(c: Layout, h: nat, k: nat, m': seq<byte>)
    requires c.Inv() && h in c.blocks && k in c.blocks && k != h
    requires SameOutside(c.m, m', h + 8, c.End(h))
    ensures k + DATA_OFFSET + c.blocks[k] <= |c.m|
    ensures Marked(m', k, c.blocks[k]) && WordAt(m', k + 8) == WordAt(c.m, k + 8)
    ensures c.(m := m').Data(k) == c.Data(k)
  {
    BlockFacts(c, h);
    BlockFacts(c, k);
    TwoBlocks(c, h, k);
    WordFrame(c.m, m', h + 8, c.End(h), k);
    WordFrame(c.m, m', h + 8, c.End(h), k + 4);
    WordFrame(c.m, m', h + 8, c.End(h), k + 8);
  }

  lemma OwnHeaderFrame(c: Layout, h: nat, m': seq<byte>)
    requires c.Inv() && h in c.blocks && SameOutside(c.m, m', h + 8, c.End(h))
    ensures Marked(m', h, c.blocks[h])
  {
    BlockFacts(c, h);
    WordFrame(c.m, m', h + 8, c.End(h), h);
    WordFrame(c.m, m', h + 8, c.End(h), h + 4);
  }

  lemma HeadersFrame(c: Layout, h: nat, m': seq<byte>)
    requires c.Inv() && h in c.blocks && SameOutside(c.m, m', h + 8, c.End(h))
    ensures c.(m := m').Headed()
  {
    forall k
      ensures c.(m := m').HasHeader(k)
    {
      if k in c.blocks {
        if k == h {
          OwnHeaderFrame(c, h, m');
        } else {
          OtherBlockFrame(c, h, k, m');
        }
      }
    }
  }

  /** A chain that does not pass through h survives a write inside h. */
  lemma ChainFrame(c: Layout, h: nat, b: nat, m': seq<byte>)
    requires c.Inv() && h in c.blocks && SameOutside(c.m, m', h + 8, c.End(h))
    requires b < |c.sizes| && h !in c.chains[b]
    ensures IsChain(m', c.heads[b], c.chains[b])
  {
    var chain := c.chains[b];
    assert IsChain(c.m, c.heads[b], chain);
    forall i | 0 <= i < |chain|
      ensures LinkAt(m', chain, i)
    {
      assert chain[i] in chain && c.OnList(b, chain[i]);
      assert LinkAt(c.m, chain, i);
      OtherBlockFrame(c, h, chain[i], m');
    }
  }

  /** Structure that does not depend on the memory survives a change of links and ownership. */
  lemma TilingFrame(c: Layout, c': Layout)
    requires c.Tiled() && c'.blocks == c.blocks && c'.low == c.low && c'.next == c.next
    ensures c'.Tiled()
  {
    forall h
      ensures c'.Inside(h) && c'.Abuts(h)
    {
      assert c.Inside(h) && c.Abuts(h);
    }
    forall h, k
      ensures c'.Apart(h, k)
    {
      assert c.Apart(h, k);
    }
  }

  /** The head of a list is a free block of the list's size, on no other list and not behind itself. */
  lemma HeadFacts(c: Layout, b: nat)
    requires c.Inv() && b < |c.sizes| && c.chains[b] != []
    ensures var h := c.chains[b][0];
            && h == c.heads[b] && h in c.blocks && h !in c.live && h !in c.chains[b][1..] && h + 12 <= |c.m|
            && WordAt(c.m, h + 8) == (if |c.chains[b]| == 1 then 0 else c.chains[b][1])
            && forall d :: 0 <= d < |c.sizes| && d != b ==> h !in c.chains[d]
  {
    var h := c.chains[b][0];
    hide Layout.Tiled, Layout.Headed;
    assert IsChain(c.m, c.heads[b], c.chains[b]) && LinkAt(c.m, c.chains[b], 0);
    assert h in c.chains[b] && c.OnList(b, h);
    forall d | 0 <= d < |c.sizes| && d != b
      ensures h !in c.chains[d]
    {
      assert !c.OnList(d, h);
    }
  }

  /** What is left of a list whose head was unlinked. */
  lemma RestIsChain(c: Layout, b: nat, m': seq<byte>)
    requires c.Inv() && b < |c.sizes| && c.chains[b] != []
    requires var h := c.chains[b][0]; h in c.blocks && SameOutside(c.m, m', h + 8, c.End(h))
    ensures var rest := c.chains[b][1..]; IsChain(m', if rest == [] then 0 else rest[0], rest)
  {
    HeadFacts(c, b);
    var chain := c.chains[b];
    var rest := chain[1..];
    assert IsChain(c.m, c.heads[b], chain);
    forall i | 0 <= i < |rest|
      ensures LinkAt(m', rest, i)
    {
      assert chain[i + 1] in chain && c.OnList(b, chain[i + 1]);
      assert LinkAt(c.m, chain, i + 1);
      OtherBlockFrame(c, chain[0], rest[i], m');
    }
  }

  lemma HeadedFrame(c: Layout, c': Layout)
    requires c.Headed() && c'.blocks == c.blocks && c'.m == c.m
    ensures c'.Headed()
  {
    forall k
      ensures c'.HasHeader(k)
    {
      assert c.HasHeader(k);
    }
  }

  lemma LinkWordInside(c: Layout, h: nat, m': seq<byte>, w: word)
    requires c.Inv() && h in c.blocks && h + 12 <= |c.m| && WordStored(c.m, m', h + 8, w)
    ensures SameOutside(c.m, m', h + 8, c.End(h))
  {
    BlockFacts(c, h);
  }

  lemma PopKeeps(c: Layout, b: nat, m': seq<byte>)
    requires c.Inv() && b < |c.sizes| && c.chains[b] != []
    requires var h := c.chains[b][0];
             h + 12 <= |c.m| && WordStored(c.m, m', h + 8, 0)
    ensures c.chains[b][0] == c.heads[b] && c.heads[b] in c.blocks && c.chains[b][0] !in c.live
    ensures c.Pop(b, m').Inv() && c.Pop(b, m').heads[b] == WordAt(c.m, c.heads[b] + 8)
  {
    hide Layout.Tiled, Layout.Headed, Layout.Owned, IsChain, WordStored, SameOutside, WordAt;
    HeadFacts(c, b);
    var h := c.chains[b][0];
    var c' := c.Pop(b, m');
    LinkWordInside(c, h, m', 0);
    TilingFrame(c, c');
    HeadersFrame(c, h, m');
    HeadedFrame(c.(m := m'), c');
    PopOwned(c, b, m');
    RestIsChain(c, b, m');
    forall d | 0 <= d < |c.sizes|
      ensures IsChain(m', c'.heads[d], c'.chains[d])
    {
      if d != b {
        ChainFrame(c, h, d, m');
      }
    }
    StoredSize(c.m, m', h + 8, 0);
  }

  lemma StoredSize(m: seq<byte>, m': seq<byte>, a: nat, w: word)
    requires a + 4 <= |m| && WordStored(m, m', a, w)
    ensures |m'| == |m|
  {
  }

  lemma PopOwned(c: Layout, b: nat, m': seq<byte>)
    requires c.Inv() && b < |c.sizes| && c.chains[b] != []
    ensures c.Pop(b, m').Owned()
  {
    var c' := c.Pop(b, m');
    var h := c.chains[b][0];
    var rest := c.chains[b][1..];
    assert c.chains[b] == [h] + rest;
    assert IsChain(c.m, c.heads[b], c.chains[b]);
    assert h !in rest;
    assert h in c.chains[b] && c.OnList(b, h);
    forall d, k | 0 <= d < |c.sizes|
      ensures k in c'.chains[d] <==> c'.OnList(d, k)
    {
      assert k in c.chains[d] <==> c.OnList(d, k);
    }
  }

  lemma PushKeeps(c: Layout, h: nat, b: nat, m': seq<byte>)
    requires c.Inv() && h in c.live && b < |c.sizes| && c.blocks[h] == c.sizes[b]
    requires h + 12 <= |c.m| && c.heads[b] < 0x1_0000_0000 && WordStored(c.m, m', h + 8, c.heads[b])
    ensures c.Push(h, b, m').Inv()
  {
    var c' := c.Push(h, b, m');
    var chain := c.chains[b];
    TilingFrame(c, c');
    BlockFacts(c, h);
    HeadersFrame(c, h, m');
    forall k
      ensures c'.HasHeader(k)
    {
      assert c.(m := m').HasHeader(k);
    }
    forall d, k | 0 <= d < |c.sizes|
      ensures k in c'.chains[d] <==> c'.OnList(d, k)
    {
      assert k in c.chains[d] <==> c.OnList(d, k);
    }
    forall d | 0 <= d < |c.sizes|
      ensures IsChain(m', c'.heads[d], c'.chains[d])
    {
      assert !c.OnList(d, h);
      ChainFrame(c, h, d, m');
      if d == b {
        assert c'.chains[b][1..] == chain;
        assert LinkAt(m', c'.chains[b], 0);
        forall i | 1 <= i < |c'.chains[b]|
          ensures LinkAt(m', c'.chains[b], i)
        {
          assert LinkAt(m', chain, i - 1);
        }
      }
    }
  }

  lemma RetireKeeps(c: Layout, h: nat)
    requires c.Inv() && h in c.live && c.blocks[h] !in c.sizes
    ensures var c' := c.(live := c.live - {h});
            c'.Inv() && c'.Retired(h)
  {
    var c' := c.(live := c.live - {h});
    TilingFrame(c, c');
    forall k
      ensures c'.HasHeader(k)
    {
      assert c.HasHeader(k);
    }
    forall d, k | 0 <= d < |c.sizes|
      ensures k in c'.chains[d] <==> c'.OnList(d, k)
    {
      assert k in c.chains[d] <==> c.OnList(d, k);
      assert c.sizes[d] in c.sizes;
    }
  }

  /** Writing above the carved region leaves every block as it was. */
  lemma AboveFrame(c: Layout, k: nat, m': seq<byte>)
    requires c.Inv() && k in c.blocks && SameOutside(c.m, m', c.next, |c.m|)
    ensures k + DATA_OFFSET + c.blocks[k] <= |c.m|
    ensures Marked(m', k, c.blocks[k]) && WordAt(m', k + 8) == WordAt(c.m, k + 8)
    ensures c.(m := m').Data(k) == c.Data(k)
  {
    BlockFacts(c, k);
    WordFrame(c.m, m', c.next, |c.m|, k);
    WordFrame(c.m, m', c.next, |c.m|, k + 4);
    WordFrame(c.m, m', c.next, |c.m|, k + 8);
  }

  lemma CarveTiled(c: Layout, size: word, m': seq<byte>)
    requires c.Inv() && 0 < size && c.next + Span(size) <= c.limit
    ensures c.next !in c.blocks
    ensures c.Carve(size, m').Tiled() && c.Carve(size, m').next % 16 == 0
  {
    var c' := c.Carve(size, m');
    assert c.Inside(c.next);
    forall h
      ensures c'.Inside(h) && c'.Abuts(h)
    {
      assert c.Inside(h) && c.Abuts(h);
    }
    forall h, k
      ensures c'.Apart(h, k)
    {
      assert c.Apart(h, k) && c.Inside(h) && c.Inside(k);
    }
  }

  lemma CarveKeeps(c: Layout, size: word, m': seq<byte>)
    requires c.Inv() && 0 < size && c.next + Span(size) <= c.limit
    requires SameOutside(c.m, m', c.next, c.next + 12) && Marked(m', c.next, size)
    ensures c.next !in c.blocks && c.Carve(size, m').Inv()
  {
    var c' := c.Carve(size, m');
    CarveTiled(c, size, m');
    forall k
      ensures c'.HasHeader(k)
    {
      if k in c.blocks {
        AboveFrame(c, k, m');
      }
    }
    forall d | 0 <= d < |c.sizes|
      ensures IsChain(m', c.heads[d], c.chains[d])
    {
      assert IsChain(c.m, c.heads[d], c.chains[d]);
      forall i | 0 <= i < |c.chains[d]|
        ensures LinkAt(m', c.chains[d], i)
      {
        assert c.chains[d][i] in c.chains[d] && c.OnList(d, c.chains[d][i]);
        assert LinkAt(c.m, c.chains[d], i);
        AboveFrame(c, c.chains[d][i], m');
      }
    }
    forall d, k | 0 <= d < |c.sizes|
      ensures k in c'.chains[d] <==> c'.OnList(d, k)
    {
      assert k in c.chains[d] <==> c.OnList(d, k);
    }
  }

  /** A client may write anything into its own block. */
  lemma DataWriteKeeps(c: Layout, h: nat, m': seq<byte>)
    requires c.Inv() && h in c.live
    requires SameOutside(c.m, m', h + DATA_OFFSET, h + DATA_OFFSET + c.blocks[h])
    ensures c.(m := m').Inv()
  {
    var c' := c.(m := m');
    TilingFrame(c, c');
    HeadersFrame(c, h, m');
    forall d, k | 0 <= d < |c.sizes|
      ensures k in c'.chains[d] <==> c'.OnList(d, k)
    {
      assert k in c.chains[d] <==> c.OnList(d, k);
    }
    forall d | 0 <= d < |c.sizes|
      ensures IsChain(m', c.heads[d], c.chains[d])
    {
      assert !c.OnList(d, h);
      ChainFrame(c, h, d, m');
    }
  }

  /** A live block's contents are its data bytes; nothing else is in the contents. */
  lemma ContentsMeaning(c: Layout)
    requires c.Inv()
    ensures c.Contents().Keys == c.live
    ensures forall k :: k in c.live ==> k + DATA_OFFSET + c.blocks[k] <= |c.m| && c.Contents()[k] == c.Data(k)
  {
    forall k | k in c.live
      ensures k + DATA_OFFSET + c.blocks[k] <= |c.m|
    {
      BlockFacts(c, k);
    }
  }

  /** The contents of all other live blocks after a write inside block h, which may itself become live or cease to
      be so. */
  lemma ContentsFrame(c: Layout, c': Layout, h: nat)
    requires c.Inv() && c'.Inv() && c'.blocks == c.blocks && h in c.blocks
    requires SameOutside(c.m, c'.m, h + 8, c.End(h)) && c'.live - {h} == c.live - {h}
    ensures c'.Contents().Keys == c'.live && c.Contents().Keys == c.live
    ensures h !in c.live ==> c'.Contents() - {h} == c.Contents()
    ensures h !in c'.live ==> c'.Contents() == c.Contents() - {h}
    ensures c'.Contents() - {h} == c.Contents() - {h}
  {
    ContentsMeaning(c);
    ContentsMeaning(c');
    var r, r' := c.Contents() - {h}, c'.Contents() - {h};
    assert r.Keys == c.live - {h} && r'.Keys == c.live - {h};
    forall k | k in r.Keys
      ensures r'[k] == r[k]
    {
      OtherBlockFrame(c, h, k, c'.m);
      assert k in c.live && k in c'.live;
      assert c.(m := c'.m).Data(k) == c'.Data(k);
    }
    assert r' == r;
    assert h !in c.live ==> c.Contents() == r;
    assert h !in c'.live ==> c'.Contents() == r';
  }
}
