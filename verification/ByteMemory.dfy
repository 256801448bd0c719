/** Raw byte memory with little-endian 32-bit words, as the allocator sees it. */
module ByteMemory {
  import opened Words

  function Join(b0: int, b1: int, b2: int, b3: int): int {
    b0 + 0x100 * b1 + 0x1_0000 * b2 + 0x100_0000 * b3
  }

  function WordAt(m: seq<byte>, a: nat): (w: word)
    requires a + 4 <= |m|
  {
    Join(m[a], m[a + 1], m[a + 2], m[a + 3])
  }

  function WordByte(w: word, i: nat): (b: byte)
    requires i < 4
  {
    if i == 0 then w % 0x100
    else if i == 1 then w / 0x100 % 0x100
    else if i == 2 then w / 0x100 / 0x100 % 0x100
    else w / 0x100 / 0x100 / 0x100 % 0x100
  }

  lemma SplitJoins(w: word)
    ensures Join(WordByte(w, 0), WordByte(w, 1), WordByte(w, 2), WordByte(w, 3)) == w
  {
  }

  lemma LowByte(b: byte, rest: nat)
    ensures (b + 0x100 * rest) % 0x100 == b && (b + 0x100 * rest) / 0x100 == rest
  {
  }

  lemma JoinSplits(b0: byte, b1: byte, b2: byte, b3: byte)
    ensures var w := Join(b0, b1, b2, b3);
            && 0 <= w < 0x1_0000_0000
            && WordByte(w, 0) == b0 && WordByte(w, 1) == b1 && WordByte(w, 2) == b2 && WordByte(w, 3) == b3
  {
    var w2 := b2 + 0x100 * b3;
    var w1 := b1 + 0x100 * w2;
    var w0 := b0 + 0x100 * w1;
    assert w0 == Join(b0, b1, b2, b3);
    LowByte(b0, w1);
    LowByte(b1, w2);
    LowByte(b2, b3);
  }

  /** A word determines the four bytes it was read from. */
  lemma WordBytes(m: seq<byte>, a: nat)
    requires a + 4 <= |m|
    ensures var w := WordAt(m, a);
            m[a] == WordByte(w, 0) && m[a + 1] == WordByte(w, 1) && m[a + 2] == WordByte(w, 2)
                && m[a + 3] == WordByte(w, 3)
  {
    JoinSplits(m[a], m[a + 1], m[a + 2], m[a + 3]);
  }

  /** The two memories differ at most in the addresses lo (included) to hi (excluded). */
  predicate SameOutside(m: seq<byte>, m': seq<byte>, lo: nat, hi: nat) {
    |m'| == |m| && forall k :: 0 <= k < |m| && !(lo <= k < hi) ==> m'[k] == m[k]
  }

  function WithByte(m: seq<byte>, a: nat, b: byte): seq<byte>
    requires a < |m|
  {
    m[a := b]
  }

  /** The memory after storing the word w at address a. */
  predicate WordStored(m: seq<byte>, m': seq<byte>, a: nat, w: word)
    requires a + 4 <= |m|
  {
    SameOutside(m, m', a, a + 4) && WordAt(m', a) == w
  }

  lemma WordFrame(m: seq<byte>, m': seq<byte>, lo: nat, hi: nat, a: nat)
    requires SameOutside(m, m', lo, hi) && a + 4 <= |m| && (a + 4 <= lo || hi <= a)
    ensures WordAt(m', a) == WordAt(m, a)
  {
  }

  /** The plain bytewise forward copy: byte k is read after bytes 0 to k - 1 have been written. */
  function ForwardCopy(m: seq<byte>, dst: nat, src: nat, n: nat): (r: seq<byte>)
    requires dst + n <= |m| && src + n <= |m|
    ensures |r| == |m|
  {
    if n == 0 then m
    else
      var r := ForwardCopy(m, dst, src, n - 1);
      r[dst + n - 1 := r[src + n - 1]]
  }

  /** The plain bytewise clear. */
  function ZeroFill(m: seq<byte>, dst: nat, n: nat): (r: seq<byte>)
    requires dst + n <= |m|
    ensures |r| == |m|
  {
    if n == 0 then m else ZeroFill(m, dst, n - 1)[dst + n - 1 := 0]
  }

  lemma {:induction false} ZeroFillMeaning(m: seq<byte>, dst: nat, n: nat)
    requires dst + n <= |m|
    ensures SameOutside(m, ZeroFill(m, dst, n), dst, dst + n)
    ensures forall k :: dst <= k < dst + n ==> ZeroFill(m, dst, n)[k] == 0
  {
    if n > 0 {
      ZeroFillMeaning(m, dst, n - 1);
    }
  }

  predicate AllZero(d: seq<byte>, n: nat) {
    n <= |d| && forall k :: 0 <= k < n ==> d[k] == 0
  }

  lemma ClearedPrefix(m: seq<byte>, dst: nat, n: nat)
    requires dst + n <= |m|
    ensures AllZero(ZeroFill(m, dst, n)[dst..dst + n], n) && SameOutside(m, ZeroFill(m, dst, n), dst, dst + n)
  {
    ZeroFillMeaning(m, dst, n);
  }

  /** Whatever the overlap of the rest, a source prefix that the destination does not touch arrives intact. */
  lemma {:induction false} ForwardCopyMeaning(m: seq<byte>, dst: nat, src: nat, n: nat, keep: nat)
    requires dst + n <= |m| && src + n <= |m| && keep <= n
    requires src + keep <= dst || dst + n <= src
    ensures var r := ForwardCopy(m, dst, src, n);
            && SameOutside(m, r, dst, dst + n)
            && forall k :: dst <= k < dst + keep ==> r[k] == m[k - dst + src]
  {
    if n > 0 {
      ForwardCopyMeaning(m, dst, src, n - 1, if keep == n then n - 1 else keep);
    }
  }

  lemma CopiedPrefix(m: seq<byte>, dst: nat, src: nat, n: nat, keep: nat)
    requires dst + n <= |m| && src + n <= |m| && keep <= n
    requires src + keep <= dst || dst + n <= src
    ensures ForwardCopy(m, dst, src, n)[dst..dst + n][..keep] == m[src..src + keep]
    ensures SameOutside(m, ForwardCopy(m, dst, src, n), dst, dst + n)
  {
    hide ForwardCopy;
    ForwardCopyMeaning(m, dst, src, n, keep);
    var r := ForwardCopy(m, dst, src, n);
    var copied := r[dst..dst + n][..keep];
    forall k | 0 <= k < keep
      ensures copied[k] == m[src..src + keep][k]
    {
      assert copied[k] == r[dst + k] == m[dst + k - dst + src];
    }
  }

  /** The memory after a word move: the four bytes as they were before it. */
  predicate WordMoved(m: seq<byte>, m': seq<byte>, dst: nat, src: nat)
    requires dst + 4 <= |m| && src + 4 <= |m|
  {
    && SameOutside(m, m', dst, dst + 4)
    && m'[dst] == m[src] && m'[dst + 1] == m[src + 1] && m'[dst + 2] == m[src + 2] && m'[dst + 3] == m[src + 3]
  }

  /** One word move is four byte moves as soon as the destination is not 1 to 3 bytes above the source. */
  lemma {:induction false} WordMoveIsFourByteMoves(m: seq<byte>, dst: nat, src: nat, n: nat, m': seq<byte>)
    requires dst + n + 4 <= |m| && src + n + 4 <= |m|
    requires dst <= src || src + 4 <= dst
    requires WordMoved(ForwardCopy(m, dst, src, n), m', dst + n, src + n)
    ensures m' == ForwardCopy(m, dst, src, n + 4)
  {
    var r := ForwardCopy(m, dst, src, n);
    var r1 := ForwardCopy(m, dst, src, n + 1);
    var r2 := ForwardCopy(m, dst, src, n + 2);
    var r3 := ForwardCopy(m, dst, src, n + 3);
    var r4 := ForwardCopy(m, dst, src, n + 4);
    assert r1 == r[dst + n := r[src + n]];
    assert r2 == r1[dst + n + 1 := r[src + n + 1]];
    assert r3 == r2[dst + n + 2 := r[src + n + 2]];
    assert r4 == r3[dst + n + 3 := r[src + n + 3]];
  }

  predicate WordCleared(m: seq<byte>, m': seq<byte>, dst: nat)
    requires dst + 4 <= |m|
  {
    SameOutside(m, m', dst, dst + 4) && m'[dst] == 0 && m'[dst + 1] == 0 && m'[dst + 2] == 0 && m'[dst + 3] == 0
  }

  lemma {:induction false} WordClearIsFourByteClears(m: seq<byte>, dst: nat, n: nat, m': seq<byte>)
    requires dst + n + 4 <= |m| && WordCleared(ZeroFill(m, dst, n), m', dst + n)
    ensures m' == ZeroFill(m, dst, n + 4)
  {
    var r := ZeroFill(m, dst, n);
    var r1 := ZeroFill(m, dst, n + 1);
    var r2 := ZeroFill(m, dst, n + 2);
    var r3 := ZeroFill(m, dst, n + 3);
    assert r1 == r[dst + n := 0];
    assert r2 == r1[dst + n + 1 := 0];
    assert r3 == r2[dst + n + 2 := 0];
  }

  method StoreWord(mem: array<byte>, a: nat, w: word)
    requires a + 4 <= mem.Length
    modifies mem
    ensures WordStored(old(mem[..]), mem[..], a, w)
  {
    SplitJoins(w);
    mem[a] := WordByte(w, 0);
    mem[a + 1] := WordByte(w, 1);
    mem[a + 2] := WordByte(w, 2);
    mem[a + 3] := WordByte(w, 3);
  }

  method MoveWord(mem: array<byte>, dst: nat, src: nat)
    requires dst + 4 <= mem.Length && src + 4 <= mem.Length
    modifies mem
    ensures WordMoved(old(mem[..]), mem[..], dst, src)
  {
    WordBytes(mem[..], src);
    var w := WordAt(mem[..], src);
    StoreWord(mem, dst, w);
    WordBytes(mem[..], dst);
  }

  method ClearWord(mem: array<byte>, dst: nat)
    requires dst + 4 <= mem.Length
    modifies mem
    ensures WordCleared(old(mem[..]), mem[..], dst)
  {
    StoreWord(mem, dst, 0);
    WordBytes(mem[..], dst);
  }

  lemma NoneCopied(m: seq<byte>, dst: nat, src: nat)
    requires dst <= |m| && src <= |m|
    ensures ForwardCopy(m, dst, src, 0) == m
  {
  }

  lemma NextCopied(m: seq<byte>, dst: nat, src: nat, n: nat)
    requires dst + n < |m| && src + n < |m|
    ensures var r := ForwardCopy(m, dst, src, n);
            |r| == |m| && ForwardCopy(m, dst, src, n + 1) == r[dst + n := r[src + n]]
  {
  }

  /** The copy loops of realloc: whole words while at least four bytes remain, then single bytes. */
  method CopyWords(mem: array<byte>, dst: nat, src: nat, n: nat)
    requires dst + n <= mem.Length && src + n <= mem.Length
    requires dst <= src || src + 4 <= dst
    modifies mem
    ensures mem[..] == ForwardCopy(old(mem[..]), dst, src, n)
  {
    hide ForwardCopy, WordMoved;
    ghost var m := mem[..];
    ghost var done: nat := 0;
    var src', dst', count := src, dst, n;
    NoneCopied(m, dst, src);
    while count >= 4
      invariant 0 <= count && done + count == n && dst' == dst + done && src' == src + done
      invariant mem[..] == ForwardCopy(m, dst, src, done)
    {
      MoveWord(mem, dst', src');
      WordMoveIsFourByteMoves(m, dst, src, done, mem[..]);
      src', dst', count, done := src' + 4, dst' + 4, count - 4, done + 4;
    }
    while count > 0
      invariant 0 <= count && done + count == n && dst' == dst + done && src' == src + done
      invariant mem[..] == ForwardCopy(m, dst, src, done)
    {
      NextCopied(m, dst, src, done);
      mem[dst'] := mem[src'];
      src', dst', count, done := src' + 1, dst' + 1, count - 1, done + 1;
    }
  }

  /** The clear loops of calloc. */
  method ZeroWords(mem: array<byte>, dst: nat, n: nat)
    requires dst + n <= mem.Length
    modifies mem
    ensures mem[..] == ZeroFill(old(mem[..]), dst, n)
  {
    ghost var m := mem[..];
    ghost var done: nat := 0;
    var dst', total := dst, n;
    while total >= 4
      invariant 0 <= total && done + total == n && dst' == dst + done
      invariant mem[..] == ZeroFill(m, dst, done)
    {
      ClearWord(mem, dst');
      WordClearIsFourByteClears(m, dst, done, mem[..]);
      dst', total, done := dst' + 4, total - 4, done + 4;
    }
    while total > 0
      invariant 0 <= total && done + total == n && dst' == dst + done
      invariant mem[..] == ZeroFill(m, dst, done)
    {
      mem[dst'] := 0;
      dst', total, done := dst' + 1, total - 1, done + 1;
    }
  }
}
