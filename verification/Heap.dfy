/** malloc, free, calloc and realloc over the raw heap. Addresses and sizes are 32-bit; 0 is the null pointer. */
module Heap {
  import opened ByteMemory
  import opened HeapLayout
  import opened Words

  const WORD_MODULUS: nat := 0x1_0000_0000

  /** The 32-bit arithmetic by which malloc finds the end of a newly carved block. */
  function CarveEnd(next: word, size: word): (end: word) {
    var t1 := (HEADER_SIZE + size) % WORD_MODULUS;
    var t2 := (t1 + 15) % WORD_MODULUS / 16 * 16;
    (next + t2) % WORD_MODULUS
  }

  /** The computed end leaves room for the block exactly when the carve stays below 2^32. */
  lemma CarveEndExact(next: word, size: word)
    ensures next + Span(size) < WORD_MODULUS ==> CarveEnd(next, size) == next + Span(size)
    ensures next + DATA_OFFSET + size <= CarveEnd(next, size) <==> next + Span(size) < WORD_MODULUS
  {
    var t1 := (HEADER_SIZE + size) % WORD_MODULUS;
    if HEADER_SIZE + size < WORD_MODULUS {
      assert t1 == HEADER_SIZE + size;
    } else {
      assert t1 == HEADER_SIZE + size - WORD_MODULUS;
    }
    var t2 := (t1 + 15) % WORD_MODULUS / 16 * 16;
    var end := (next + t2) % WORD_MODULUS;
    assert end == next + t2 || end == next + t2 - WORD_MODULUS;
  }

  /** No free block serves the request, so a new one has to be carved. */
  ghost predicate NeedsCarve(c: Layout, size: word)
    requires |c.sizes| == |c.chains|
  {
    var b := FirstFit(c.sizes, size);
    b == |c.sizes| || c.chains[b] == []
  }

  /** The carve, if there is one, does not pass the end of the address space. */
  ghost predicate NoWrap(c: Layout, size: word)
    requires |c.sizes| == |c.chains|
  {
    NeedsCarve(c, size) ==> c.next + Span(Rounded(c.sizes, size)) < WORD_MODULUS
  }

  /** What a caller can check before the call: no carve, or one below 2^32, or one whose wrapped end still lies above
      the limit, so that it is refused. */
  ghost predicate Sound(c: Layout, size: word)
    requires c.Inv()
  {
    size == 0 || NoWrap(c, size) || c.limit < CarveEnd(c.next, Rounded(c.sizes, size))
  }

  /** The heap before the first call. */
  ghost function Unused(m: seq<byte>, low: nat, limit: nat, sizes: seq<word>): Layout {
    Layout(m, low, limit, sizes, low, seq(|sizes|, _ => 0), map[], {}, seq(|sizes|, _ => []))
  }

  lemma UnusedInv(m: seq<byte>, low: nat, limit: nat, sizes: seq<word>)
    requires 0 < low <= limit && low % 16 == 0 && Ascending(sizes)
    requires limit + (limit - low) + 16 <= |m| <= WORD_MODULUS
    ensures Unused(m, low, limit, sizes).Inv()
  {
  }

  /** The first call on an unused heap at 0x20000000, asking for 0xF0000000 bytes: the carve wraps to an end below the
      heap, within the limit. */
  lemma WrappedCarve(m: seq<byte>, limit: nat, sizes: seq<word>)
    requires 0x2000_0000 <= limit && limit + (limit - 0x2000_0000) + 16 <= |m| <= WORD_MODULUS
    requires Ascending(sizes) && forall i :: 0 <= i < |sizes| ==> sizes[i] < 0xF000_0000
    ensures var c := Unused(m, 0x2000_0000, limit, sizes);
            c.Inv() && !Sound(c, 0xF000_0000) && CarveEnd(c.next, Rounded(c.sizes, 0xF000_0000)) == 0x1000_0010
  {
    UnusedInv(m, 0x2000_0000, limit, sizes);
    hide Layout.Inv;
    var b := FirstFit(sizes, 0xF000_0000);
    assert b == |sizes|;
  }

  /** The whole effect of malloc. */
  ghost predicate MallocEffect(c: Layout, c': Layout, p: nat, size: word)
    requires c.Inv() && c'.Inv()
  {
    var r := Rounded(c.sizes, size);
    var b := FirstFit(c.sizes, size);
    if size == 0 || (NeedsCarve(c, size) && c.limit < c.next + Span(r)) then
      p == 0 && c' == c
    else
      var h := p - DATA_OFFSET;
      && 0 <= h && p % 4 == 0 && h !in c.live
      && c'.live == c.live + {h} && c'.blocks == c.blocks[h := r]
      && c'.Contents() - {h} == c.Contents()
      && (c'.low, c'.limit, c'.sizes) == (c.low, c.limit, c.sizes)
      && if NeedsCarve(c, size)
         then h == c.next && h !in c.blocks && c'.next == c.next + Span(r) && c'.chains == c.chains
         else h == c.chains[b][0] && h in c.blocks && c.blocks[h] == r
              && c'.next == c.next && c'.chains == c.chains[b := c.chains[b][1..]]
  }

  /** Null is the answer exactly for size zero, and when no bucket of the rounded size has a free block and a new block
      would end above the limit; one that ends right at the limit is granted. */
  lemma NullIff(c: Layout, c': Layout, p: nat, size: word)
    requires c.Inv() && c'.Inv() && MallocEffect(c, c', p, size)
    ensures var r := Rounded(c.sizes, size);
            p == 0 <==> size == 0 || (&& (forall i :: 0 <= i < |c.sizes| && c.sizes[i] == r ==> c.heads[i] == 0)
                                      && c.next + (13 + r + 15) / 16 * 16 > c.limit)
  {
    InvAscending(c);
    hide Layout.Inv, Layout.Contents;
    var b, r := FirstFit(c.sizes, size), Rounded(c.sizes, size);
    if b < |c.sizes| {
      HeadsAreWords(c, b);
    }
    forall i | 0 <= i < |c.sizes| && c.sizes[i] == r
      ensures i == b
    {
      FirstFitOfBucket(c.sizes, i, size);
    }
  }

  /** The whole effect of free on a live pointer. */
  ghost predicate FreeEffect(c: Layout, c': Layout, p: nat)
    requires c.Inv() && c'.Inv() && p >= DATA_OFFSET && p - DATA_OFFSET in c.live
  {
    var h := p - DATA_OFFSET;
    && c'.live == c.live - {h} && c'.blocks == c.blocks
    && c'.Contents() == c.Contents() - {h}
    && (c'.low, c'.limit, c'.sizes, c'.next) == (c.low, c.limit, c.sizes, c.next)
    && if c.blocks[h] in c.sizes
       then var b := FirstFit(c.sizes, c.blocks[h]);
            b < |c.sizes| && c'.chains == c.chains[b := [h] + c.chains[b]]
       else c'.Retired(h) && c'.chains == c.chains
  }

  /** A request that fits the bucket of the block freed last gets that very block back. */
  lemma MallocUndoesFree(c: Layout, c1: Layout, c2: Layout, p: nat, q: nat, size: word)
    requires c.Inv() && c1.Inv() && c2.Inv()
    requires p >= DATA_OFFSET && p - DATA_OFFSET in c.live && FreeEffect(c, c1, p)
    requires MallocEffect(c1, c2, q, size)
    requires 0 < size && Rounded(c.sizes, size) == c.blocks[p - DATA_OFFSET] && c.blocks[p - DATA_OFFSET] in c.sizes
    ensures q == p && c2.live == c.live && c2.blocks == c.blocks && c2.chains == c.chains && c2.next == c.next
    ensures c2.Contents() - {p - DATA_OFFSET} == c.Contents() - {p - DATA_OFFSET}
  {
    hide Layout.Inv, Layout.Contents, FirstFit;
    var h := p - DATA_OFFSET;
    InvAscending(c);
    var i :| 0 <= i < |c.sizes| && c.sizes[i] == c.blocks[h];
    FirstFitOfBucket(c.sizes, i, size);
    BucketOfBucket(c.sizes, i);
    assert c1.chains[i] == [h] + c.chains[i];
    assert c1.chains[i][1..] == c.chains[i] && c1.chains[i := c.chains[i]] == c.chains;
  }

  lemma BucketOfBucket(sizes: seq<word>, i: nat)
    requires Ascending(sizes) && i < |sizes|
    ensures FirstFit(sizes, sizes[i]) == i
  {
    var b := FirstFit(sizes, sizes[i]);
    assert b < |sizes| ==> sizes[b] >= sizes[i];
  }

  /** In an ascending table, every size that is rounded up to bucket i finds bucket i. */
  lemma FirstFitOfBucket(sizes: seq<word>, i: nat, size: word)
    requires Ascending(sizes) && i < |sizes| && Rounded(sizes, size) == sizes[i]
    ensures FirstFit(sizes, size) == i
  {
    var b := FirstFit(sizes, size);
    if b < |sizes| {
      assert sizes[b] == sizes[i];
    }
  }

  /** A product modulo 2^32 is the product exactly when it does not overflow, and only then can a block hold it. */
  lemma ProductFits(n: word, size: word)
    ensures n * size < WORD_MODULUS <==> n * size % WORD_MODULUS == n * size
  {
    var t := n * size;
    assert 0 <= t;
  }

  lemma DataAligned(h: nat)
    requires h % 16 == 0
    ensures h % 4 == 0 && (h + DATA_OFFSET) % 4 == 0
  {
    var q := h / 16;
    assert h == 4 * (4 * q) && h + DATA_OFFSET == 4 * (4 * q + 3);
  }

  lemma PopEffect(c: Layout, m': seq<byte>, size: word)
    requires c.Inv() && 0 < size && !NeedsCarve(c, size)
    requires var h := c.chains[FirstFit(c.sizes, size)][0];
             h + 12 <= |c.m| && WordStored(c.m, m', h + 8, 0)
    ensures var b := FirstFit(c.sizes, size);
            var c' := c.Pop(b, m');
            c'.Inv() && MallocEffect(c, c', c.chains[b][0] + DATA_OFFSET, size)
  {
    var b := FirstFit(c.sizes, size);
    var h := c.chains[b][0];
    PopKeeps(c, b, m');
    var c' := c.Pop(b, m');
    assert h in c.chains[b] && c.OnList(b, h);
    BlockFacts(c, h);
    ContentsFrame(c, c', h);
    DataAligned(h);
    assert c'.blocks == c.blocks[h := c.blocks[h]];
  }

  lemma CarveEffect(c: Layout, m': seq<byte>, size: word)
    requires c.Inv() && 0 < size && NeedsCarve(c, size)
    requires var r := Rounded(c.sizes, size);
             c.next + Span(r) <= c.limit && SameOutside(c.m, m', c.next, c.next + 12) && Marked(m', c.next, r)
    ensures var c' := c.Carve(Rounded(c.sizes, size), m');
            c'.Inv() && MallocEffect(c, c', c.next + DATA_OFFSET, size)
  {
    var r := Rounded(c.sizes, size);
    CarveKeeps(c, r, m');
    var c' := c.Carve(r, m');
    forall k | k in c.live
      ensures k + DATA_OFFSET + c.blocks[k] <= |c.m| && k != c.next && c'.Data(k) == c.Data(k)
    {
      AboveFrame(c, k, m');
      assert c.(m := m').Data(k) == c'.Data(k);
    }
    assert c'.Contents() - {c.next} == c.Contents();
    DataAligned(c.next);
  }

  lemma PushEffect(c: Layout, m': seq<byte>, h: nat, b: nat)
    requires c.Inv() && h in c.live && b < |c.sizes| && c.blocks[h] == c.sizes[b]
    requires h + 12 <= |c.m| && c.heads[b] < WORD_MODULUS && WordStored(c.m, m', h + 8, c.heads[b])
    ensures var c' := c.Push(h, b, m');
            c'.Inv() && FreeEffect(c, c', h + DATA_OFFSET)
  {
    PushKeeps(c, h, b, m');
    BlockFacts(c, h);
    ContentsFrame(c, c.Push(h, b, m'), h);
    FirstFitOfBucket(c.sizes, b, c.blocks[h]);
  }

  lemma RetireEffect(c: Layout, h: nat)
    requires c.Inv() && h in c.live && c.blocks[h] !in c.sizes
    ensures var c' := c.(live := c.live - {h});
            c'.Inv() && FreeEffect(c, c', h + DATA_OFFSET)
  {
    RetireKeeps(c, h);
    ContentsFrame(c, c.(live := c.live - {h}), h);
  }

  /** The head of every free list is an address, hence a 32-bit word. */
  lemma HeadsAreWords(c: Layout, b: nat)
    requires c.Inv() && b < |c.sizes|
    ensures c.heads[b] < WORD_MODULUS
    ensures c.heads[b] == 0 <==> c.chains[b] == []
    ensures c.heads[b] != 0 ==> c.heads[b] == c.chains[b][0] && c.heads[b] + 12 <= |c.m|
  {
    assert IsChain(c.m, c.heads[b], c.chains[b]);
    if c.chains[b] != [] {
      assert LinkAt(c.m, c.chains[b], 0);
    }
  }

  /** What malloc established stays true when only the bytes of its block change. */
  lemma EffectStays(c: Layout, c1: Layout, c2: Layout, p: nat, size: word)
    requires c.Inv() && c1.Inv() && c2.Inv() && MallocEffect(c, c1, p, size) && p >= DATA_OFFSET
    requires c2 == c1.(m := c2.m) && c2.Contents() - {p - DATA_OFFSET} == c1.Contents() - {p - DATA_OFFSET}
    ensures MallocEffect(c, c2, p, size)
  {
    hide Layout.Inv, Layout.Contents, NeedsCarve, Rounded, FirstFit;
  }

  /** A write inside the data of the live block h: the rest of what malloc established stays true. */
  lemma FillEffect(c: Layout, c1: Layout, m': seq<byte>, p: nat, size: word, n: nat)
    requires c.Inv() && c1.Inv() && MallocEffect(c, c1, p, size) && p != 0
    requires n <= c1.blocks[p - DATA_OFFSET] && SameOutside(c1.m, m', p, p + n)
    ensures c1.(m := m').Inv() && MallocEffect(c, c1.(m := m'), p, size)
    ensures var d := c1.(m := m').Contents();
            && p - DATA_OFFSET in d && |d[p - DATA_OFFSET]| == c1.blocks[p - DATA_OFFSET]
            && d[p - DATA_OFFSET][..n] == m'[p..p + n]
  {
    hide Layout.Inv, MallocEffect;
    var h := p - DATA_OFFSET;
    GrantedBlock(c, c1, p, size);
    FilledBlock(c1, h, m', n);
    EffectStays(c, c1, c1.(m := m'), p, size);
  }

  lemma FilledBlock(c: Layout, h: nat, m': seq<byte>, n: nat)
    requires c.Inv() && h in c.live && h in c.blocks && n <= c.blocks[h]
    requires SameOutside(c.m, m', h + DATA_OFFSET, h + DATA_OFFSET + n)
    ensures c.(m := m').Inv() && c.(m := m').Contents() - {h} == c.Contents() - {h}
    ensures var d := c.(m := m').Contents();
            h in d && |d[h]| == c.blocks[h] && h + DATA_OFFSET + n <= |m'|
                && d[h][..n] == m'[h + DATA_OFFSET..h + DATA_OFFSET + n]
  {
    BlockFacts(c, h);
    DataWriteKeeps(c, h, m');
    hide Layout.Inv;
    ContentsFrame(c, c.(m := m'), h);
    ContentsMeaning(c.(m := m'));
  }

  /** The client's view after a store: one byte of one live block is new. */
  ghost predicate StoredIn(c: Layout, c': Layout, h: nat, offset: nat, value: byte) {
    && c' == c.(m := c'.m) && h in c.Contents() && offset < |c.Contents()[h]|
    && c'.Contents() == c.Contents()[h := WithByte(c.Contents()[h], offset, value)]
  }

  lemma OneByte(m: seq<byte>, a: nat, n: nat, offset: nat, value: byte)
    requires offset < n && a + n <= |m|
    ensures var m' := WithByte(m, a + offset, value);
            SameOutside(m, m', a, a + n) && m'[a..a + n] == WithByte(m[a..a + n], offset, value)
  {
  }

  lemma FrameWider(m: seq<byte>, m': seq<byte>, from: nat, to: nat, from': nat, to': nat)
    requires from' <= from && to <= to' && SameOutside(m, m', from, to)
    ensures SameOutside(m, m', from', to')
  {
  }

  lemma StoreFrame(c: Layout, h: nat, offset: nat, value: byte)
    requires c.Inv() && h in c.live && offset < c.blocks[h]
    ensures h + DATA_OFFSET + c.blocks[h] <= |c.m|
    ensures var c' := c.(m := WithByte(c.m, h + DATA_OFFSET + offset, value));
            && c'.Inv() && c'.Contents().Keys == c.Contents().Keys == c.live
            && c'.Contents() - {h} == c.Contents() - {h}
  {
    hide Layout.Inv, Layout.Contents, WithByte, SameOutside;
    LiveBytes(c, h);
    BlockFacts(c, h);
    var c' := c.(m := WithByte(c.m, h + DATA_OFFSET + offset, value));
    OneByte(c.m, h + DATA_OFFSET, c.blocks[h], offset, value);
    DataWriteKeeps(c, h, c'.m);
    FrameWider(c.m, c'.m, h + DATA_OFFSET, h + DATA_OFFSET + c.blocks[h], h + 8, c.End(h));
    ContentsFrame(c, c', h);
  }

  lemma StoreEffect(c: Layout, h: nat, offset: nat, value: byte)
    requires c.Inv() && h in c.live && offset < c.blocks[h]
    ensures h + DATA_OFFSET + offset < |c.m|
    ensures var c' := c.(m := WithByte(c.m, h + DATA_OFFSET + offset, value));
            c'.Inv() && StoredIn(c, c', h, offset, value)
  {
    hide Layout.Inv, Layout.Contents, WithByte, SameOutside;
    LiveBytes(c, h);
    StoreFrame(c, h, offset, value);
    var c' := c.(m := WithByte(c.m, h + DATA_OFFSET + offset, value));
    ContentsMeaning(c);
    ContentsMeaning(c');
    OneByte(c.m, h + DATA_OFFSET, c.blocks[h], offset, value);
    OneNewBlock(c.Contents(), c'.Contents(), h, WithByte(c.Contents()[h], offset, value));
  }

  lemma OneNewBlock(d: map<nat, seq<byte>>, d': map<nat, seq<byte>>, h: nat, bytes: seq<byte>)
    requires h in d && d'.Keys == d.Keys && d' - {h} == d - {h} && d'[h] == bytes
    ensures d' == d[h := bytes]
  {
    forall k | k in d && k != h
      ensures d'[k] == d[k]
    {
      assert (d' - {h})[k] == (d - {h})[k];
    }
  }

  /** The effect of realloc when it has to move a live block: r is the new block, or 0 when there is no room. */
  ghost predicate MoveEffect(c: Layout, c': Layout, p: nat, r: nat, newsize: word)
    requires c.Inv() && c'.Inv() && p >= DATA_OFFSET && p - DATA_OFFSET in c.live
  {
    var h := p - DATA_OFFSET;
    if NeedsCarve(c, newsize) && c.limit < c.next + Span(Rounded(c.sizes, newsize)) then
      r == 0 && c' == c
    else
      var h', size := r - DATA_OFFSET, Rounded(c.sizes, newsize);
      var b, was := FirstFit(c.sizes, newsize), c.blocks[h];
      && 0 <= h' && r % 4 == 0 && h' !in c.live
      && c'.live == c.live - {h} + {h'} && c'.blocks == c.blocks[h' := size]
      && c'.Contents() - {h'} == c.Contents() - {h}
      && Carried(c, c', h, h')
      && (c'.low, c'.limit, c'.sizes) == (c.low, c.limit, c.sizes)
      && (if NeedsCarve(c, newsize)
          then h' == c.next && h' !in c.blocks && c'.next == c.next + Span(size)
          else h' == c.chains[b][0] && h' in c.blocks && c.blocks[h'] == size && c'.next == c.next)
      && var taken := if NeedsCarve(c, newsize) then c.chains else c.chains[b := c.chains[b][1..]];
         if was in c.sizes then
           var d := FirstFit(c.sizes, was);
           d < |c.sizes| && c'.chains == taken[d := [h] + taken[d]]
         else c'.Retired(h) && c'.chains == taken
  }

  /** The effect of calloc: malloc for the product modulo 2^32, with that many bytes zero. */
  ghost predicate CallocEffect(c: Layout, c': Layout, p: nat, n: word, size: word)
    requires c.Inv() && c'.Inv()
  {
    && MallocEffect(c, c', p, n * size % WORD_MODULUS)
    && (p != 0 ==> p >= DATA_OFFSET && p - DATA_OFFSET in c'.Contents()
                   && AllZero(c'.Contents()[p - DATA_OFFSET], n * size % WORD_MODULUS))
  }

  /** The effect of realloc: malloc for null, free for size 0, nothing when the block is large enough, else a move. */
  ghost predicate ReallocEffect(c: Layout, c': Layout, p: nat, r: nat, newsize: word)
    requires c.Inv() && c'.Inv() && (p == 0 || (DATA_OFFSET <= p && p - DATA_OFFSET in c.live))
  {
    if p == 0 then MallocEffect(c, c', r, newsize)
    else if newsize == 0 then r == 0 && FreeEffect(c, c', p)
    else if newsize <= c.blocks[p - DATA_OFFSET] then r == p && c' == c
    else MoveEffect(c, c', p, r, newsize)
  }

  lemma LiveBytes(c: Layout, h: nat)
    requires c.Inv() && h in c.live
    ensures h in c.blocks && h + DATA_OFFSET + c.blocks[h] <= |c.m|
  {
    BlockFacts(c, h);
  }

  /** The n bytes at p of the old memory stand at r in the new one. */
  ghost predicate Arrived(m: seq<byte>, m': seq<byte>, p: nat, r: nat, n: nat) {
    p + n <= |m| && r + n <= |m'| && m'[r..r + n] == m[p..p + n]
  }

  lemma PrefixArrived(m: seq<byte>, m': seq<byte>, p: nat, r: nat, n: nat, n': nat)
    requires p + n <= |m| && r + n' <= |m'| && m[p..p + n] <= m'[r..r + n']
    ensures Arrived(m, m', p, r, n)
  {
    var d, d' := m[p..p + n], m'[r..r + n'];
    assert d == d'[..n] == m'[r..r + n];
  }

  /** What a move means for the memory. */
  lemma MovedBytes(c: Layout, c': Layout, p: nat, r: nat, newsize: word)
    requires c.Inv() && c'.Inv() && p >= DATA_OFFSET && p - DATA_OFFSET in c.live && r != 0
    requires c.blocks[p - DATA_OFFSET] < newsize && MoveEffect(c, c', p, r, newsize)
    ensures Arrived(c.m, c'.m, p, r, c.blocks[p - DATA_OFFSET])
  {
    hide Layout.Inv, Layout.Contents, NeedsCarve, Rounded, FirstFit, Arrived;
    var h, h' := p - DATA_OFFSET, r - DATA_OFFSET;
    LiveBytes(c, h);
    LiveBytes(c', h');
    ContentsMeaning(c);
    ContentsMeaning(c');
    PrefixArrived(c.m, c'.m, p, r, c.blocks[h], c'.blocks[h']);
  }

  lemma StillLive(c: Layout, c1: Layout, p: nat, r: nat, size: word)
    requires c.Inv() && c1.Inv() && p >= DATA_OFFSET && p - DATA_OFFSET in c.live && MallocEffect(c, c1, r, size)
    ensures p - DATA_OFFSET in c1.live
  {
  }

  lemma MallocKeepsBlock(c: Layout, c1: Layout, h: nat, r: nat, size: word)
    requires c.Inv() && c1.Inv() && h in c.live && MallocEffect(c, c1, r, size)
    ensures h in c1.live && h in c1.blocks && c1.blocks[h] == c.blocks[h] && h in c.Contents()
    ensures h + DATA_OFFSET + c.blocks[h] <= |c1.m| && c1.Data(h) == c.Contents()[h]
  {
    ContentsMeaning(c);
    ContentsMeaning(c1);
    BlockFacts(c1, h);
    hide Layout.Inv, NeedsCarve, Rounded, FirstFit;
    if c1 != c {
      assert c1.Contents() - {r - DATA_OFFSET} == c.Contents();
      assert c.Contents()[h] == (c1.Contents() - {r - DATA_OFFSET})[h] == c1.Contents()[h];
    }
  }

  /** Copying newsize bytes from the smaller block h reads past its end, possibly into the block being filled;
      the old bytes arrive all the same. */
  lemma CopyEffect(c: Layout, c1: Layout, p: nat, r: nat, newsize: word)
    requires c.Inv() && c1.Inv() && p >= DATA_OFFSET && p - DATA_OFFSET in c.live
    requires c.blocks[p - DATA_OFFSET] < newsize && MallocEffect(c, c1, r, newsize) && r != 0
    ensures p + newsize <= |c1.m| && r + newsize <= |c1.m| && (r <= p || p + 4 <= r)
    ensures var c2 := c1.(m := ForwardCopy(c1.m, r, p, newsize));
            c2.Inv() && MallocEffect(c, c2, r, newsize) && Carried(c, c2, p - DATA_OFFSET, r - DATA_OFFSET)
  {
    hide Layout.Inv, MallocEffect, Layout.Contents, ForwardCopy, SameOutside;
    var h, h' := p - DATA_OFFSET, r - DATA_OFFSET;
    CopyFits(c, c1, p, r, newsize);
    var m' := ForwardCopy(c1.m, r, p, newsize);
    CopiedPrefix(c1.m, r, p, newsize, c.blocks[h]);
    FillEffect(c, c1, m', r, newsize, newsize);
    PrefixOf(c.Contents()[h], m'[r..r + newsize], c1.(m := m').Contents()[h']);
  }

  lemma PrefixOf(d: seq<byte>, block: seq<byte>, d': seq<byte>)
    requires |d| <= |block| <= |d'| && d == block[..|d|] && block == d'[..|block|]
    ensures d <= d'
  {
  }

  /** The source range stays addressable, and it is the old bytes of h that lie clear of the new block. */
  lemma CopyFits(c: Layout, c1: Layout, p: nat, r: nat, newsize: word)
    requires c.Inv() && c1.Inv() && p >= DATA_OFFSET && p - DATA_OFFSET in c.live
    requires c.blocks[p - DATA_OFFSET] < newsize && MallocEffect(c, c1, r, newsize) && r != 0
    ensures p - DATA_OFFSET in c.blocks && p + newsize <= |c1.m| && r + newsize <= |c1.m| && (r <= p || p + 4 <= r)
    ensures r >= DATA_OFFSET && r - DATA_OFFSET in c1.blocks && newsize <= c1.blocks[r - DATA_OFFSET]
    ensures var cur := c.blocks[p - DATA_OFFSET];
            && (p + cur <= r || r + newsize <= p)
            && p - DATA_OFFSET in c.Contents() && c.Contents()[p - DATA_OFFSET] == c1.m[p..p + cur]
  {
    var h, h' := p - DATA_OFFSET, r - DATA_OFFSET;
    MallocKeepsBlock(c, c1, h, r, newsize);
    GrantedBlock(c, c1, r, newsize);
    hide Layout.Inv, MallocEffect, Layout.Contents;
    BlockFacts(c1, h);
    BlockFacts(c1, h');
    TwoBlocks(c1, h, h');
  }

  /** The bytes of block h of c lead those of block h' of c2. */
  ghost predicate Carried(c: Layout, c2: Layout, h: nat, h': nat) {
    h in c.Contents() && h' in c2.Contents() && c.Contents()[h] <= c2.Contents()[h']
  }

  lemma NothingAsked(c: Layout)
    requires c.Inv()
    ensures MallocEffect(c, c, 0, 0)
  {
  }

  /** Clearing the first size bytes of the block malloc just returned. */
  lemma ClearEffect(c: Layout, c1: Layout, p: nat, size: word)
    requires c.Inv() && c1.Inv() && MallocEffect(c, c1, p, size) && p != 0
    ensures p + size <= |c1.m|
    ensures var c2 := c1.(m := ZeroFill(c1.m, p, size));
            && c2.Inv() && MallocEffect(c, c2, p, size)
            && p - DATA_OFFSET in c2.Contents() && AllZero(c2.Contents()[p - DATA_OFFSET], size)
  {
    GrantedBlock(c, c1, p, size);
    hide Layout.Inv, MallocEffect, NeedsCarve, Rounded, FirstFit, Layout.Contents;
    BlockFacts(c1, p - DATA_OFFSET);
    hide ZeroFill, SameOutside, AllZero;
    ClearedPrefix(c1.m, p, size);
    var m' := ZeroFill(c1.m, p, size);
    FillEffect(c, c1, m', p, size, size);
    ZeroPrefix(m'[p..p + size], c1.(m := m').Contents()[p - DATA_OFFSET]);
  }

  lemma ZeroPrefix(block: seq<byte>, d: seq<byte>)
    requires |block| <= |d| && d[..|block|] == block && AllZero(block, |block|)
    ensures AllZero(d, |block|)
  {
    assert forall k :: 0 <= k < |block| ==> d[k] == d[..|block|][k];
  }

  lemma GrantedBlock(c: Layout, c1: Layout, r: nat, size: word)
    requires c.Inv() && c1.Inv() && MallocEffect(c, c1, r, size) && r != 0
    ensures r >= DATA_OFFSET && r - DATA_OFFSET !in c.live && r - DATA_OFFSET in c1.live && c1.live <= c1.blocks.Keys
    ensures size <= c1.blocks[r - DATA_OFFSET] && r % 4 == 0
  {
  }

  lemma NoRoom(c: Layout, c1: Layout, p: nat, size: word)
    requires c.Inv() && c1.Inv() && p >= DATA_OFFSET && p - DATA_OFFSET in c.live
    requires 0 < size && MallocEffect(c, c1, 0, size)
    ensures MoveEffect(c, c1, p, 0, size)
  {
  }

  lemma MoveThenFree(c: Layout, c2: Layout, c3: Layout, p: nat, r: nat, newsize: word)
    requires c.Inv() && c2.Inv() && c3.Inv() && p >= DATA_OFFSET && p - DATA_OFFSET in c.live
    requires 0 < newsize && MallocEffect(c, c2, r, newsize) && r != 0 && FreeEffect(c2, c3, p)
    requires Carried(c, c2, p - DATA_OFFSET, r - DATA_OFFSET)
    ensures MoveEffect(c, c3, p, r, newsize)
  {
    hide Layout.Inv, Layout.Contents, NeedsCarve, Rounded, FirstFit;
    var h, h' := p - DATA_OFFSET, r - DATA_OFFSET;
    assert c3.Contents() == c2.Contents() - {h};
    assert c3.Contents() - {h'} == c2.Contents() - {h'} - {h};
  }

  /** The three header words of a new block. */
  method WriteHeader(mem: array<byte>, h: nat, size: word)
    requires h + 12 <= mem.Length
    modifies mem
    ensures SameOutside(old(mem[..]), mem[..], h, h + 12) && Marked(mem[..], h, size)
    ensures WordAt(mem[..], h) == 0x424C4D43 && WordAt(mem[..], h + 4) == size
  {
    StoreWord(mem, h, BLOCK_MAGIC);
    ghost var m1 := mem[..];
    StoreWord(mem, h + 4, size);
    ghost var m2 := mem[..];
    StoreWord(mem, h + 8, 0);
    WordFrame(m1, m2, h + 4, h + 8, h);
    WordFrame(m2, mem[..], h + 8, h + 12, h);
    WordFrame(m2, mem[..], h + 8, h + 12, h + 4);
  }

  class Heap {
    const mem: array<byte>
    const low: nat
    const limit: nat
    const sizes: seq<word>
    var nextBlock: nat
    var freeList: seq<nat>
    ghost var blocks: map<nat, word>
    ghost var live: set<nat>
    ghost var chains: seq<seq<nat>>

    ghost function View(): Layout
      reads this, mem
    {
      Layout(mem[..], low, limit, sizes, nextBlock, freeList, blocks, live, chains)
    }

    ghost predicate Valid()
      reads this, mem
    {
      View().Inv()
    }

    constructor (mem: array<byte>, low: nat, limit: nat, sizes: seq<word>)
      requires 0 < low <= limit && low % 16 == 0
      requires limit + (limit - low) + 16 <= mem.Length <= WORD_MODULUS
      requires Ascending(sizes)
      ensures Valid() && this.mem == mem && View() == Unused(mem[..], low, limit, sizes)
    {
      this.mem, this.low, this.limit, this.sizes := mem, low, limit, sizes;
      nextBlock, freeList := low, seq(|sizes|, _ => 0);
      blocks, live, chains := map[], {}, seq(|sizes|, _ => []);
      new;
      UnusedInv(mem[..], low, limit, sizes);
    }

    /** The bucket scan: the first bucket that holds the request, or none. */
    method FindBucket(size: word) returns (bucket: nat)
      ensures bucket == FirstFit(sizes, size)
    {
      bucket := 0;
      while bucket < |sizes|
        invariant bucket <= |sizes|
        invariant FirstFit(sizes, size) == bucket + FirstFit(sizes[bucket..], size)
      {
        if size <= sizes[bucket] {
          return;
        }
        bucket := bucket + 1;
      }
    }

    /** The first arm of malloc: unlink the head of the bucket's free list. */
    method TakeFree(bucket: nat, size: word) returns (header: nat)
      requires Valid() && 0 < size && bucket == FirstFit(sizes, size) && bucket < |sizes| && freeList[bucket] != 0
      modifies this, mem
      ensures !NeedsCarve(old(View()), size)
      ensures Valid() && MallocEffect(old(View()), View(), header + DATA_OFFSET, size)
    {
      ghost var c := View();
      HeadsAreWords(c, bucket);
      PopHeader(c, bucket);
      header := freeList[bucket];
      assert WordAt(mem[..], header) == BLOCK_MAGIC;
      freeList := freeList[bucket := WordAt(mem[..], header + 8)];
      StoreWord(mem, header + 8, 0);
      chains, live := chains[bucket := chains[bucket][1..]], live + {header};
      PopEffect(c, mem[..], size);
      PopKeeps(c, bucket, mem[..]);
      assert View() == c.Pop(bucket, mem[..]);
    }

    /** The second arm of malloc: carve a new block of the given, already rounded size. */
    method CarveNew(size: word) returns (header: nat)
      requires Valid()
      modifies this, mem
      ensures header == if limit < CarveEnd(old(nextBlock), size) then 0 else old(nextBlock)
      ensures header == 0 ==> View() == old(View())
      ensures header != 0 ==> && nextBlock == CarveEnd(old(nextBlock), size) && header + 12 <= mem.Length
                              && SameOutside(old(mem[..]), mem[..], header, header + 12)
                              && Marked(mem[..], header, size)
      ensures header != 0 && header + Span(size) < WORD_MODULUS ==> View() == old(View()).Carve(size, mem[..])
    {
      header := nextBlock;
      var next := CarveEnd(nextBlock, size);
      CarveEndExact(nextBlock, size);
      DataAligned(header);
      assert header % 4 == 0;
      if next > limit {
        return 0;
      }
      nextBlock := next;
      WriteHeader(mem, header, size);
      if header + Span(size) < WORD_MODULUS {
        blocks, live := blocks[header := size], live + {header};
      }
    }

    method CarveFor(size: word, size': word) returns (header: nat)
      requires Valid() && 0 < size && size' == Rounded(sizes, size) && NeedsCarve(View(), size)
      modifies this, mem
      ensures Sound(old(View()), size) ==>
                Valid() && MallocEffect(old(View()), View(), if header == 0 then 0 else header + DATA_OFFSET, size)
      ensures header == 0 ==> View() == old(View())
      ensures !Sound(old(View()), size) ==> header != 0 && nextBlock < header + DATA_OFFSET + size'
    {
      hide Layout.Contents, FirstFit;
      ghost var c := View();
      CarveEndExact(nextBlock, size');
      header := CarveNew(size');
      if header != 0 && header + Span(size') < WORD_MODULUS {
        CarveEffect(c, mem[..], size);
      }
    }

    method Malloc(size: word) returns (p: nat)
      requires Valid()
      modifies this, mem
      ensures Valid() && MallocEffect(old(View()), View(), p, size) <==> Sound(old(View()), size)
      // Otherwise the answer is a block that sticks out of the carved region.
      ensures !Sound(old(View()), size) ==> p != 0 && nextBlock < p + Rounded(sizes, size)
    {
      if size == 0 {
        return 0;
      }
      var bucket := FindBucket(size);
      if bucket < |sizes| {
        HeadsAreWords(View(), bucket);
      }
      var header: nat;
      if bucket < |sizes| && freeList[bucket] != 0 {
        header := TakeFree(bucket, size);
      } else {
        var size' := if bucket < |sizes| then sizes[bucket] else size;
        header := CarveFor(size, size');
        if header == 0 {
          return 0;
        }
      }
      return header + DATA_OFFSET;
    }

    method GetAllocated(p: nat) returns (size: word)
      requires Valid() && (p == 0 || (DATA_OFFSET <= p && p - DATA_OFFSET in live))
      ensures size == if p == 0 then 0 else blocks[p - DATA_OFFSET]
    {
      size := 0;
      if p != 0 {
        BlockFacts(View(), p - DATA_OFFSET);
        if WordAt(mem[..], p - DATA_OFFSET) == BLOCK_MAGIC {
          size := WordAt(mem[..], p - DATA_OFFSET + 4);
        }
      }
    }

    method Free(p: nat)
      requires Valid() && (p == 0 || (DATA_OFFSET <= p && p - DATA_OFFSET in live))
      modifies this, mem
      ensures Valid()
      ensures if p == 0 then View() == old(View()) else FreeEffect(old(View()), View(), p)
    {
      if p == 0 {
        return;
      }
      ghost var c := View();
      var header := p - DATA_OFFSET;
      BlockFacts(c, header);
      if WordAt(mem[..], header) != BLOCK_MAGIC {
        return;
      }
      var size := WordAt(mem[..], header + 4);
      var bucket := 0;
      while bucket < |sizes|
        invariant 0 <= bucket <= |sizes|
        invariant View() == c
        invariant forall i :: 0 <= i < bucket ==> sizes[i] != size
      {
        if size == sizes[bucket] {
          HeadsAreWords(c, bucket);
          StoreWord(mem, header + 8, freeList[bucket]);
          freeList := freeList[bucket := header];
          chains, live := chains[bucket := [header] + chains[bucket]], live - {header};
          PushEffect(c, mem[..], header, bucket);
          assert View() == c.Push(header, bucket, mem[..]);
          return;
        }
        bucket := bucket + 1;
      }
      live := live - {header};
      RetireEffect(c, header);
      assert View() == c.(live := c.live - {header});
    }

    /** The product is taken modulo 2^32, so the block holds n * size bytes exactly when that does not overflow. */
    method Calloc(n: word, size: word) returns (p: nat)
      requires Valid() && Sound(View(), n * size % WORD_MODULUS)
      modifies this, mem
      ensures Valid() && CallocEffect(old(View()), View(), p, n, size)
      ensures p != 0 ==> (n * size <= blocks[p - DATA_OFFSET] <==> n * size < WORD_MODULUS)
    {
      hide Layout.Inv, Layout.Contents, MallocEffect, Sound, ZeroFill, AllZero, SameOutside;
      ghost var c := View();
      if n == 0 || size == 0 {
        NothingAsked(c);
        return 0;
      }
      var total: word := n * size % WORD_MODULUS;
      ProductFits(n, size);
      p := Malloc(total);
      if p == 0 {
        return 0;
      }
      ghost var c1 := View();
      GrantedBlock(c, c1, p, total);
      BlockFacts(c1, p - DATA_OFFSET);
      assert p % 4 == 0;
      ZeroWords(mem, p, total);
      ClearEffect(c, c1, p, total);
      assert View() == c1.(m := mem[..]);
    }

    method Realloc(p: nat, newsize: word) returns (r: nat)
      requires Valid() && (p == 0 || (DATA_OFFSET <= p && p - DATA_OFFSET in live))
      requires (p != 0 && newsize <= blocks[p - DATA_OFFSET]) || Sound(View(), newsize)
      modifies this, mem
      ensures Valid() && ReallocEffect(old(View()), View(), p, r, newsize)
      ensures p != 0 && newsize == 0 ==> r == 0
      // In terms of the memory: a block that is large enough stays as it is, a larger one starts with the old bytes.
      ensures p != 0 && 0 < newsize <= old(blocks)[p - DATA_OFFSET] ==>
                r == p && blocks == old(blocks) && live == old(live) && mem[..] == old(mem[..])
      ensures p != 0 && old(blocks)[p - DATA_OFFSET] < newsize && r != 0 ==>
                Arrived(old(mem[..]), mem[..], p, r, old(blocks)[p - DATA_OFFSET])
    {
      if p != 0 {
        LiveBytes(View(), p - DATA_OFFSET);
      }
      hide Layout.Inv, MallocEffect, FreeEffect, MoveEffect, Sound, Arrived;
      if p == 0 {
        r := Malloc(newsize);
        return;
      }
      if newsize == 0 {
        Free(p);
        return 0;
      }
      var currentSize := GetAllocated(p);
      if currentSize >= newsize {
        return p;
      }
      r := Move(p, newsize);
    }

    /** The last part of realloc: a larger block, the copy, and the old block freed. */
    method Move(p: nat, newsize: word) returns (r: nat)
      requires Valid() && DATA_OFFSET <= p && p - DATA_OFFSET in live
      requires 0 < newsize && blocks[p - DATA_OFFSET] < newsize
      requires Sound(View(), newsize)
      modifies this, mem
      ensures Valid() && MoveEffect(old(View()), View(), p, r, newsize)
      ensures r != 0 ==> Arrived(old(mem[..]), mem[..], p, r, old(blocks)[p - DATA_OFFSET])
    {
      hide Layout.Inv, MallocEffect, FreeEffect, MoveEffect, Sound, ForwardCopy, Carried, Arrived;
      ghost var c := View();
      r := Malloc(newsize);
      ghost var c1 := View();
      if r == 0 {
        NoRoom(c, c1, p, newsize);
      } else {
        CopyEffect(c, c1, p, r, newsize);
        GrantedBlock(c, c1, r, newsize);
        StillLive(c, c1, p, r, newsize);
        assert r % 4 == 0;
        CopyWords(mem, r, p, newsize);
        ghost var c2 := View();
        assert c2 == c1.(m := ForwardCopy(c1.m, r, p, newsize));
        Free(p);
        MoveThenFree(c, c2, View(), p, r, newsize);
        MovedBytes(c, View(), p, r, newsize);
      }
    }

    /** A client storing a byte into a live block: the one other way the heap's memory changes. */
    method ClientStore(p: nat, offset: nat, value: byte)
      requires Valid() && DATA_OFFSET <= p && p - DATA_OFFSET in live && offset < blocks[p - DATA_OFFSET]
      modifies mem
      ensures Valid() && StoredIn(old(View()), View(), p - DATA_OFFSET, offset, value)
      ensures p + offset < mem.Length && mem[..] == WithByte(old(mem[..]), p + offset, value)
    {
      StoreEffect(View(), p - DATA_OFFSET, offset, value);
      mem[p + offset] := value;
      assert mem[..] == WithByte(old(mem[..]), p + offset, value);
      assert View() == old(View()).(m := mem[..]);
    }
  }

  lemma PopHeader(c: Layout, b: nat)
    requires c.Inv() && b < |c.sizes| && c.chains[b] != []
    ensures var h := c.chains[b][0];
            h == c.heads[b] && h + 12 <= |c.m| && WordAt(c.m, h) == BLOCK_MAGIC
            && WordAt(c.m, h + 8) == if |c.chains[b]| == 1 then 0 else c.chains[b][1]
  {
    var h := c.chains[b][0];
    assert IsChain(c.m, c.heads[b], c.chains[b]);
    assert h in c.chains[b] && c.OnList(b, h) && LinkAt(c.m, c.chains[b], 0);
    BlockFacts(c, h);
  }
}
