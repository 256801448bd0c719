/** strtok, with its static pointer, on NUL-terminated strings in memory. -1 is the null pointer. */
module Strtok {
  import opened Words

  /** Memory b holds, at the address s, the string text from position i on, and the terminating NUL. */
  ghost predicate HoldsFrom(b: seq<char>, s: nat, text: seq<char>, i: nat) {
    && i <= |text| && s + |text| < |b| && NUL !in text && b[s + |text|] == NUL
    && forall k :: i <= k < |text| ==> b[s + k] == text[k]
  }

  predicate Delimits(delim: seq<char>, c: char) {
    c in delim
  }

  /** The first position from i on that holds no delimiter, or the end. */
  function Skip(text: seq<char>, delim: seq<char>, i: nat): (a: nat)
    requires i <= |text|
    ensures i <= a <= |text|
    ensures forall k :: i <= k < a ==> Delimits(delim, text[k])
    ensures a < |text| ==> !Delimits(delim, text[a])
    decreases |text| - i
  {
    if i == |text| || !Delimits(delim, text[i]) then i else Skip(text, delim, i + 1)
  }

  /** The first position from i on that holds a delimiter, or the end. */
  function Stop(text: seq<char>, delim: seq<char>, i: nat): (e: nat)
    requires i <= |text|
    ensures i <= e <= |text|
    ensures forall k :: i <= k < e ==> !Delimits(delim, text[k])
    ensures e < |text| ==> Delimits(delim, text[e])
    decreases |text| - i
  {
    if i == |text| || Delimits(delim, text[i]) then i else Stop(text, delim, i + 1)
  }

  datatype Span = Span(start: nat, end: nat)

  /** The token spans that repeated calls find from position i on. */
  function Spans(text: seq<char>, delim: seq<char>, i: nat): (r: seq<Span>)
    requires i <= |text|
    decreases |text| - i
  {
    var a := Skip(text, delim, i);
    if a == |text| then []
    else
      var e := Stop(text, delim, a);
      [Span(a, e)] + if e == |text| then [] else Spans(text, delim, e + 1)
  }

  /** A maximal non-empty run of characters that are no delimiters. */
  predicate MaximalRun(text: seq<char>, delim: seq<char>, a: nat, e: nat) {
    && a < e <= |text| && (forall k :: a <= k < e ==> !Delimits(delim, text[k]))
    && (a == 0 || Delimits(delim, text[a - 1])) && (e == |text| || Delimits(delim, text[e]))
  }

  /** Maximal runs at or behind position i, in ascending order. */
  ghost predicate AscendingRuns(text: seq<char>, delim: seq<char>, i: nat, r: seq<Span>) {
    && (forall k :: 0 <= k < |r| ==> i <= r[k].start && MaximalRun(text, delim, r[k].start, r[k].end))
    && forall k, l :: 0 <= k < l < |r| ==> r[k].end < r[l].start
  }

  lemma {:induction false} SpansAreRuns(text: seq<char>, delim: seq<char>, i: nat)
    requires i <= |text| && (i == 0 || Delimits(delim, text[i - 1]))
    ensures AscendingRuns(text, delim, i, Spans(text, delim, i))
    decreases |text| - i
  {
    hide Skip, Stop, Spans, MaximalRun;
    SpansFrom(text, delim, i);
    var a := Skip(text, delim, i);
    if a < |text| {
      var e := Stop(text, delim, a);
      FirstIsRun(text, delim, i);
      if e < |text| {
        SpansAreRuns(text, delim, e + 1);
        PrependRun(text, delim, i, Span(a, e), Spans(text, delim, e + 1));
      }
    }
  }

  lemma PrependRun(text: seq<char>, delim: seq<char>, i: nat, x: Span, rest: seq<Span>)
    requires i <= x.start <= x.end && MaximalRun(text, delim, x.start, x.end)
    requires AscendingRuns(text, delim, x.end + 1, rest)
    ensures AscendingRuns(text, delim, i, [x] + rest)
  {
    hide MaximalRun;
    var r := [x] + rest;
    assert r[0] == x && forall k :: 1 <= k < |r| ==> r[k] == rest[k - 1];
  }

  lemma FirstIsRun(text: seq<char>, delim: seq<char>, i: nat)
    requires i <= |text| && (i == 0 || Delimits(delim, text[i - 1])) && Skip(text, delim, i) < |text|
    ensures var a := Skip(text, delim, i);
            i <= a && MaximalRun(text, delim, a, Stop(text, delim, a))
  {
    hide Delimits, Skip;
    var a := Skip(text, delim, i);
    assert a > i ==> Delimits(delim, text[a - 1]);
  }

  /** Every maximal run is found. */
  lemma {:induction false} RunsAreSpans(text: seq<char>, delim: seq<char>, i: nat, a: nat, e: nat)
    requires i <= a && MaximalRun(text, delim, a, e)
    ensures Span(a, e) in Spans(text, delim, i)
    decreases |text| - i
  {
    hide Skip, Stop, Delimits, MaximalRun, Spans;
    FirstRun(text, delim, i, a, e);
    var s := Skip(text, delim, i);
    var t := Stop(text, delim, s);
    SpansFrom(text, delim, i);
    if s == a {
      assert Spans(text, delim, i)[0] == Span(a, e);
    } else {
      RunBounds(text, delim, a, e);
      RunsAreSpans(text, delim, t + 1, a, e);
      InTail(Span(a, e), Span(s, t), Spans(text, delim, t + 1));
    }
  }

  lemma RunBounds(text: seq<char>, delim: seq<char>, a: nat, e: nat)
    requires MaximalRun(text, delim, a, e)
    ensures a < e <= |text|
  {
  }

  lemma InTail(x: Span, first: Span, rest: seq<Span>)
    requires x in rest
    ensures x in [first] + rest
  {
  }

  /** A maximal run at or after i is the first one found, or lies behind the delimiter that ends the first. */
  lemma FirstRun(text: seq<char>, delim: seq<char>, i: nat, a: nat, e: nat)
    requires i <= a && MaximalRun(text, delim, a, e)
    ensures var s := Skip(text, delim, i);
            && s < |text|
            && var t := Stop(text, delim, s);
               if s == a then e == t else t < a
  {
    hide Delimits;
    var s := Skip(text, delim, i);
    var first := text[a];
    var before := if a > 0 then text[a - 1] else first;
    var t := Stop(text, delim, s);
    var behind, ending := if e < |text| then text[e] else first, if t < |text| then text[t] else first;
  }

  /** So a tokenisation finds exactly the maximal runs. */
  lemma SpansAreMaximalRuns(text: seq<char>, delim: seq<char>, a: nat, e: nat)
    ensures Span(a, e) in Spans(text, delim, 0) <==> MaximalRun(text, delim, a, e)
    // That is: no character of it is in the set of delimiters, and those on either side are.
    ensures Span(a, e) in Spans(text, delim, 0) <==>
              && a < e <= |text| && (forall k :: a <= k < e ==> text[k] !in delim)
              && (a == 0 || text[a - 1] in delim) && (e == |text| || text[e] in delim)
  {
    SpansAreRuns(text, delim, 0);
    if MaximalRun(text, delim, a, e) {
      RunsAreSpans(text, delim, 0, a, e);
    }
  }

  class Tokenizer {
    const mem: array<char>
    var last: int
    // The string being tokenised: where it starts, what it was, and how far the last call got.
    ghost var base: nat
    ghost var text: seq<char>
    ghost var from: nat

    ghost predicate Valid()
      reads this, mem
    {
      last == -1 || (last == base + from && HoldsFrom(mem[..], base, text, from))
    }

    constructor (mem: array<char>)
      ensures Valid() && last == -1 && this.mem == mem
    {
      this.mem, last, base, text, from := mem, -1, 0, [], 0;
    }

    static method IsDelimiter(c: char, delim: seq<char>) returns (found: bool)
      ensures found <==> c in delim
      ensures found <==> Delimits(delim, c)
    {
      var spanp := 0;
      while spanp < |delim|
        invariant spanp <= |delim| && c !in delim[..spanp]
      {
        if c == delim[spanp] {
          return true;
        }
        spanp := spanp + 1;
      }
      assert delim == delim[..spanp];
      return false;
    }

    /** The first loop: step over leading delimiters. */
    method SkipDelimiters(start: nat, delim: seq<char>) returns (p: nat)
      requires base <= start && HoldsFrom(mem[..], base, text, start - base) && !Delimits(delim, NUL)
      ensures base <= p && p - base == Skip(text, delim, start - base) && p < mem.Length
      ensures mem[p] == NUL <==> p - base == |text|
    {
      hide Delimits;
      p := start;
      var isDelim := IsDelimiter(mem[p], delim);
      while isDelim
        invariant start <= p <= base + |text|
        invariant isDelim <==> Delimits(delim, mem[p])
        invariant Skip(text, delim, start - base) == Skip(text, delim, p - base)
        decreases base + |text| - p
      {
        assert mem[p] != NUL;
        assert mem[p] == text[p - base];
        p := p + 1;
        isDelim := IsDelimiter(mem[p], delim);
      }
      assert p < base + |text| ==> mem[p] == text[p - base];
    }

    /** The second loop: scan to the delimiter or NUL that ends the token. */
    method ScanToken(start: nat, delim: seq<char>) returns (p: nat)
      requires base <= start && HoldsFrom(mem[..], base, text, start - base) && !Delimits(delim, NUL)
      ensures base <= p && p - base == Stop(text, delim, start - base) && p < mem.Length
      ensures mem[p] == NUL <==> p - base == |text|
    {
      hide Delimits;
      p := start;
      var isDelim := IsDelimiter(mem[p], delim);
      while !isDelim && mem[p] != NUL
        invariant start <= p <= base + |text|
        invariant isDelim <==> Delimits(delim, mem[p])
        invariant Stop(text, delim, start - base) == Stop(text, delim, p - base)
        decreases base + |text| - p
      {
        assert mem[p] == text[p - base];
        p := p + 1;
        isDelim := IsDelimiter(mem[p], delim);
      }
      assert p < base + |text| ==> mem[p] == text[p - base];
    }

    /** One call. A null s continues where the last call stopped; `given` is what a non-null s points to. */
    method Strtok(s: int, delim: seq<char>, ghost given: seq<char>) returns (tok: int)
      requires -1 <= s && !Delimits(delim, NUL)
      requires if s == -1 then Valid() else HoldsFrom(mem[..], s, given, 0)
      modifies this, mem
      ensures Valid()
      ensures s == -1 ==> base == old(base) && text == old(text)
      ensures s != -1 ==> base == s && text == given
      ensures if s == -1 && old(last) == -1 then tok == -1 && last == -1 && mem[..] == old(mem[..])
              else Called(old(mem[..]), mem[..], base, text, if s == -1 then old(from) else 0, delim, tok, last)
      ensures last != -1 ==> from + base == last
    {
      hide Delimits, Skip, Stop, HoldsFrom;
      var start := s;
      if s == -1 {
        start := last;
        if start == -1 {
          return -1;
        }
      } else {
        base, text, from := s, given, 0;
      }
      StringFits(mem[..], base, text, from);
      var p := SkipDelimiters(start, delim);
      if mem[p] == NUL {
        last := -1;
        return -1;
      }
      tok := p;
      StringRest(mem[..], base, text, from, p - base);
      p := ScanToken(p, delim);
      if mem[p] == NUL {
        last := -1;
      } else {
        CutString(mem[..], base, text, from, p - base);
        assert mem[..][p := NUL] == old(mem[..])[p := NUL];
        mem[p] := NUL;
        last, from := p + 1, p + 1 - base;
        assert mem[..] == old(mem[..])[p := NUL];
      }
    }
  }

  lemma StringRest(b: seq<char>, s: nat, text: seq<char>, i: nat, j: nat)
    requires HoldsFrom(b, s, text, i) && i <= j <= |text|
    ensures HoldsFrom(b, s, text, j)
  {
  }

  lemma CutString(b: seq<char>, s: nat, text: seq<char>, i: nat, e: nat)
    requires HoldsFrom(b, s, text, i) && i <= e < |text|
    ensures s + e < |b| && HoldsFrom(b[s + e := NUL], s, text, e + 1)
  {
  }

  /** The effect of a call that looks at the string from position i on. */
  ghost predicate Called(b: seq<char>, b': seq<char>, s: nat, text: seq<char>, i: nat, delim: seq<char>, tok: int,
      last: int)
    requires i <= |text| && s + |text| < |b|
  {
    var a := Skip(text, delim, i);
    if a == |text| then tok == -1 && last == -1 && b' == b
    else
      var e := Stop(text, delim, a);
      && tok == s + a
      && if e == |text| then last == -1 && b' == b else last == s + e + 1 && b' == b[s + e := NUL]
  }

  /** The memory after a tokenisation: each delimiter that directly follows a token is now NUL, all else is as it
      was. */
  ghost function Cut(b: seq<char>, s: nat, n: nat, spans: seq<Span>): (r: seq<char>)
    ensures |r| == |b|
  {
    if spans == [] then b
    else
      var r := Cut(b, s, n, spans[..|spans| - 1]);
      var e := spans[|spans| - 1].end;
      if e < n && s + e < |b| then r[s + e := NUL] else r
  }

  lemma {:induction false} CutBytes(b: seq<char>, s: nat, n: nat, spans: seq<Span>, j: nat)
    requires s + n < |b| && j < |b|
    ensures Cut(b, s, n, spans)[j]
         == if exists k :: 0 <= k < |spans| && spans[k].end < n && s + spans[k].end == j then NUL else b[j]
  {
    if spans != [] {
      var m := |spans| - 1;
      CutBytes(b, s, n, spans[..m], j);
      assert forall k :: 0 <= k < m ==> spans[..m][k] == spans[k];
    }
  }

  /** After a tokenisation, the k-th token pointer is a NUL-terminated string: the k-th maximal run, unharmed. */
  lemma TokenIsItsRun(b: seq<char>, s: nat, text: seq<char>, delim: seq<char>, k: nat)
    requires HoldsFrom(b, s, text, 0) && k < |Spans(text, delim, 0)|
    ensures var x := Spans(text, delim, 0)[k];
            && x.start < x.end <= |text|
            && HoldsFrom(Cut(b, s, |text|, Spans(text, delim, 0)), s + x.start, text[x.start..x.end], 0)
  {
    hide Spans, Skip, Stop, Cut, Delimits;
    var spans := Spans(text, delim, 0);
    var x := spans[k];
    SpansAreRuns(text, delim, 0);
    forall j | x.start <= j < x.end
      ensures Cut(b, s, |text|, spans)[s + j] == text[j]
    {
      CutBytes(b, s, |text|, spans, s + j);
      assert forall l :: 0 <= l < |spans| ==> MaximalRun(text, delim, spans[l].start, spans[l].end);
    }
    CutBytes(b, s, |text|, spans, s + x.end);
    assert x.end == spans[k].end;
  }

  /** strtok on a string and then on null until it answers null: the tokens are the spans, in order. */
  method TokenizeAll(t: Tokenizer, s: nat, delim: seq<char>, ghost text: seq<char>) returns (toks: seq<nat>)
    requires !Delimits(delim, NUL) && HoldsFrom(t.mem[..], s, text, 0)
    modifies t, t.mem
    ensures t.Valid()
    ensures var spans := Spans(text, delim, 0);
            && |toks| == |spans| && (forall k :: 0 <= k < |toks| ==> toks[k] == s + spans[k].start)
            && t.mem[..] == Cut(old(t.mem[..]), s, |text|, spans)
  {
    hide Delimits, MaximalRun, Skip, Stop, HoldsFrom, Called, Cut, Spans, Progress, Matched;
    StringFits(t.mem[..], s, text, 0);
    ghost var b := t.mem[..];
    ghost var spans := Spans(text, delim, 0);
    toks := [];
    var tok := t.Strtok(s, delim, text);
    ghost var i: nat := 0;  // where the call that produced tok started looking
    FirstCall(b, t.mem[..], s, text, delim, tok, t.last);
    while tok != -1
      invariant t.Valid() && t.base == s && t.text == text && i <= |text| && s + |text| < |b|
      invariant Progress(b, t.mem[..], s, text, delim, toks, i, tok, t.last)
      invariant t.last != -1 ==> t.base + t.from == t.last
      decreases |spans| - |toks|, if tok == -1 then 0 else 1
    {
      Advance(b, t.mem[..], s, text, delim, toks, i, tok, t.last);
      toks := toks + [tok];
      ghost var m, resumes, from := t.mem[..], t.last != -1, t.from;
      tok := t.Strtok(-1, delim, []);
      if resumes {
        i := from;
        Resume(b, m, t.mem[..], s, text, delim, toks, i, tok, t.last);
      } else {
        NoMore(b, m, s, text, delim, toks, i, t.last);
      }
    }
    Finished(b, t.mem[..], s, text, delim, toks, i, t.last);
  }

  lemma Finished(b: seq<char>, b': seq<char>, s: nat, text: seq<char>, delim: seq<char>, toks: seq<nat>, i: nat,
      last: int)
    requires i <= |text| && s + |text| < |b| && Progress(b, b', s, text, delim, toks, i, -1, last)
    ensures var spans := Spans(text, delim, 0);
            && |toks| == |spans| && (forall k :: 0 <= k < |toks| ==> toks[k] == s + spans[k].start)
            && b' == Cut(b, s, |text|, spans)
  {
    hide Cut, Spans;
    var spans := Spans(text, delim, 0);
    assert spans[..|toks|] == spans;
  }

  /** The tokens so far are those of the first spans, and exactly the bytes behind these are cut. */
  ghost predicate Matched(b: seq<char>, b': seq<char>, s: nat, text: seq<char>, delim: seq<char>, toks: seq<nat>) {
    var spans := Spans(text, delim, 0);
    && |toks| <= |spans| && (forall k :: 0 <= k < |toks| ==> toks[k] == s + spans[k].start)
    && b' == Cut(b, s, |text|, spans[..|toks|])
  }

  /** The state of a tokenisation after toks, when a call looking from i on has just answered tok. */
  ghost predicate Progress(
    b: seq<char>, b': seq<char>, s: nat, text: seq<char>, delim: seq<char>, toks: seq<nat>, i: nat, tok: int, last: int)
    requires i <= |text| && s + |text| < |b|
  {
    var spans := Spans(text, delim, 0);
    if tok == -1 then |toks| == |spans| && Matched(b, b', s, text, delim, toks)
    else
      && |toks| <= |spans| && Matched(b, Cut(b, s, |text|, spans[..|toks|]), s, text, delim, toks)
      && spans[|toks|..] == Spans(text, delim, i)
      && Called(Cut(b, s, |text|, spans[..|toks|]), b', s, text, i, delim, tok, last)
  }

  lemma FirstCall(b: seq<char>, b': seq<char>, s: nat, text: seq<char>, delim: seq<char>, tok: int, last: int)
    requires s + |text| < |b| && Called(b, b', s, text, 0, delim, tok, last)
    ensures Progress(b, b', s, text, delim, [], 0, tok, last)
  {
    hide Skip, Stop, Delimits;
    var spans := Spans(text, delim, 0);
    assert spans[..0] == [] && spans[0..] == spans;
  }

  /** The answer tok is the next span's start. */
  lemma Advance(
    b: seq<char>, b': seq<char>, s: nat, text: seq<char>, delim: seq<char>, toks: seq<nat>, i: nat, tok: int, last: int)
    requires i <= |text| && s + |text| < |b|
    requires tok != -1 && Progress(b, b', s, text, delim, toks, i, tok, last)
    ensures tok >= 0 && Matched(b, b', s, text, delim, toks + [tok]) && |toks| < |Spans(text, delim, 0)| && |b'| == |b|
    ensures var spans := Spans(text, delim, 0);
            if last == -1 then |toks| + 1 == |spans|
            else s < last <= s + |text| && spans[|toks| + 1..] == Spans(text, delim, last - s)
  {
    hide Skip, Stop, Delimits, Cut, Spans;
    var spans := Spans(text, delim, 0);
    var m := |toks|;
    SpansFrom(text, delim, i);
    var a := Skip(text, delim, i);
    var e := Stop(text, delim, a);
    NextSpan(spans, m, Span(a, e), if e == |text| then [] else Spans(text, delim, e + 1));
    CutNext(b, s, |text|, spans, m);
    var toks' := toks + [tok];
    forall k | 0 <= k < |toks'|
      ensures toks'[k] == s + spans[k].start
    {
      assert k < m ==> toks'[k] == toks[k];
    }
  }

  lemma SpansFrom(text: seq<char>, delim: seq<char>, i: nat)
    requires i <= |text|
    ensures var a := Skip(text, delim, i);
            Spans(text, delim, i) == if a == |text| then [] else
              var e := Stop(text, delim, a);
              [Span(a, e)] + if e == |text| then [] else Spans(text, delim, e + 1)
  {
  }

  lemma CutNext(b: seq<char>, s: nat, n: nat, spans: seq<Span>, m: nat)
    requires m < |spans|
    ensures var e := spans[m].end;
            var r := Cut(b, s, n, spans[..m]);
            Cut(b, s, n, spans[..m + 1]) == if e < n && s + e < |b| then r[s + e := NUL] else r
  {
    assert spans[..m + 1][..m] == spans[..m] && spans[..m + 1][m] == spans[m];
  }

  lemma NextSpan(spans: seq<Span>, m: nat, x: Span, rest: seq<Span>)
    requires m <= |spans| && spans[m..] == [x] + rest
    ensures m < |spans| && spans[m] == x && spans[m + 1..] == rest
    ensures spans[..m + 1][..m] == spans[..m] && spans[..m + 1][m] == x && |spans| == m + 1 + |rest|
  {
    assert spans[m..][0] == x && spans[m..][1..] == rest;
  }

  lemma NoMore(b: seq<char>, b': seq<char>, s: nat, text: seq<char>, delim: seq<char>, toks: seq<nat>, i: nat,
      last: int)
    requires i <= |text| && s + |text| < |b| && Matched(b, b', s, text, delim, toks)
            && |toks| == |Spans(text, delim, 0)|
    ensures Progress(b, b', s, text, delim, toks, i, -1, last)
  {
  }

  lemma Resume(
    b: seq<char>, b': seq<char>, b'': seq<char>, s: nat, text: seq<char>, delim: seq<char>, toks: seq<nat>, i: nat,
    tok: int, last: int)
    requires i <= |text| && s + |text| < |b| == |b'|
    requires Matched(b, b', s, text, delim, toks) && Spans(text, delim, 0)[|toks|..] == Spans(text, delim, i)
    requires Called(b', b'', s, text, i, delim, tok, last)
    ensures Progress(b, b'', s, text, delim, toks, i, tok, last)
  {
    hide Skip, Stop, Delimits;
    var spans := Spans(text, delim, 0);
    if tok == -1 {
      assert Spans(text, delim, i) == [];
      assert |spans[|toks|..]| == 0;
    }
  }

  lemma StringFits(b: seq<char>, s: nat, text: seq<char>, i: nat)
    requires HoldsFrom(b, s, text, i)
    ensures i <= |text| && s + |text| < |b|
  {
  }
}
