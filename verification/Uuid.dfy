/** uuid_parse and uuid_unparse, the latter through the real formatter. */
module Uuid {
  import opened HexText
  import opened Printf
  import opened PrintfFormat
  import opened Words

  type Bytes = u: seq<byte> | |u| == 16 witness [0, 0, 0, 0, 0, 0, 0, 0, 0, 0, 0, 0, 0, 0, 0, 0]

  type Node = n: seq<byte> | |n| == 6 witness [0, 0, 0, 0, 0, 0]

  datatype Fields = Fields(timeLow: word, timeMid: half, timeHi: half, clockSeq: half, node: Node)

  const FMT_LOWER: string := "%08x-%04x-%04x-" + "%02x%02x-" + "%02x%02x%02x%02x%02x%02x"
  const FMT_UPPER: string := "%08X-%04X-%04X-" + "%02X%02X-" + "%02X%02X%02X%02X%02X%02X"

  // ---------- packing ----------

  function Pair(hi: int, lo: int): int {
    hi * 0x100 + lo
  }

  function Unpack(u: Bytes): (f: Fields) {
    Fields(Pair(Pair(Pair(u[0], u[1]), u[2]), u[3]), Pair(u[4], u[5]), Pair(u[6], u[7]), Pair(u[8], u[9]), u[10..])
  }

  function Pack(f: Fields): (u: Bytes) {
    [f.timeLow / 0x100 / 0x100 / 0x100 % 0x100, f.timeLow / 0x100 / 0x100 % 0x100, f.timeLow / 0x100 % 0x100,
        f.timeLow % 0x100,
     f.timeMid / 0x100 % 0x100, f.timeMid % 0x100, f.timeHi / 0x100 % 0x100, f.timeHi % 0x100,
     f.clockSeq / 0x100 % 0x100, f.clockSeq % 0x100] + f.node
  }

  lemma PairSplits(hi: nat, lo: byte)
    ensures Pair(hi, lo) / 0x100 == hi && Pair(hi, lo) % 0x100 == lo
  {
  }

  lemma PackUndoesUnpack(u: Bytes)
    ensures Pack(Unpack(u)) == u
  {
    PairSplits(u[0], u[1]);
    PairSplits(Pair(u[0], u[1]), u[2]);
    PairSplits(Pair(Pair(u[0], u[1]), u[2]), u[3]);
    PairSplits(u[4], u[5]);
    PairSplits(u[6], u[7]);
    PairSplits(u[8], u[9]);
  }

  lemma UnpackUndoesPack(f: Fields)
    ensures Unpack(Pack(f)) == f
  {
    assert Pack(f)[10..] == f.node;
  }

  // ---------- what unparse prints ----------

  /** The 8-4-4-4-12 text form of section 3 of RFC 4122. */
  function FieldText(f: Fields, upper: bool): (r: seq<char>)
    ensures |r| == 36
  {
    TimeText(f, upper) + (Hex(f.clockSeq, 4, upper) + ['-']) + NodeText(f.node, upper)
  }

  function TimeText(f: Fields, upper: bool): (r: seq<char>)
    ensures |r| == 19
  {
    Hex(f.timeLow, 8, upper) + ['-'] + (Hex(f.timeMid, 4, upper) + ['-']) + (Hex(f.timeHi, 4, upper) + ['-'])
  }

  function NodeText(n: Node, upper: bool): (r: seq<char>)
    ensures |r| == 12
  {
    Hex(n[0], 2, upper) + Hex(n[1], 2, upper) + (Hex(n[2], 2, upper) + Hex(n[3], 2, upper))
    + (Hex(n[4], 2, upper) + Hex(n[5], 2, upper))
  }

  function UnparseArgs(f: Fields): seq<Arg> {
    [Number(f.timeLow), Number(f.timeMid), Number(f.timeHi), Number(f.clockSeq / 0x100), Number(f.clockSeq % 0x100),
     Number(f.node[0]), Number(f.node[1]), Number(f.node[2]), Number(f.node[3]), Number(f.node[4]), Number(f.node[5])]
  }

  /** An element of the format: a zero-padded number of k hexadecimal digits, or a dash. */
  datatype Item = Digits(k: nat, v: word) | Dash

  function PieceOf(x: Item, upper: bool): Piece {
    match x
    case Digits(k, _) => Directive(Zero, k, NoPrecision, false, if upper then 'X' else 'x')
    case Dash => Literal('-')
  }

  function PiecesOf(xs: seq<Item>, upper: bool): (r: seq<Piece>)
    ensures |r| == |xs| && forall i :: 0 <= i < |xs| ==> r[i] == PieceOf(xs[i], upper)
  {
    seq(|xs|, i requires 0 <= i < |xs| => PieceOf(xs[i], upper))
  }

  function ArgsOf(xs: seq<Item>): seq<Arg> {
    if xs == [] then [] else (if xs[0].Digits? then [Number(xs[0].v)] else []) + ArgsOf(xs[1..])
  }

  function TextOf(xs: seq<Item>, upper: bool): seq<char> {
    if xs == [] then [] else (if xs[0].Digits? then Hex(xs[0].v, xs[0].k, upper) else ['-']) + TextOf(xs[1..], upper)
  }

  lemma {:induction false} ItemsMean(xs: seq<Item>, upper: bool)
    requires forall i :: 0 <= i < |xs| && xs[i].Digits? ==> 0 < xs[i].k <= 8 && xs[i].v < Power(16, xs[i].k)
    ensures Meaning(PiecesOf(xs, upper), ArgsOf(xs)) == Some(TextOf(xs, upper))
    decreases |xs|
  {
    hide Hex, Numeral;
    if xs != [] {
      assert PiecesOf(xs, upper)[1..] == PiecesOf(xs[1..], upper);
      assert PiecesOf(xs, upper)[0] == PieceOf(xs[0], upper);
      ItemsMean(xs[1..], upper);
      if xs[0].Digits? {
        assert ArgsOf(xs)[0] == Number(xs[0].v) && ArgsOf(xs)[1..] == ArgsOf(xs[1..]);
        DigitsText(xs[0].k, xs[0].v, upper);
      } else {
        assert ArgsOf(xs) == ArgsOf(xs[1..]);
      }
    }
  }

  lemma DigitsText(k: nat, v: word, upper: bool)
    requires 0 < k <= 8 && v < Power(16, k)
    ensures NumberText(Spec(true, false, k, false, 0, upper, false), Numeral(16, v, upper)) == Hex(v, k, upper)
    ensures Convert(Spec(true, false, k, false, 0, false, false), if upper then 'X' else 'x', Number(v))
            == Some(Hex(v, k, upper))
  {
    NumeralIsHex(v, k, upper);
    assert Repeat(' ', 0) == [];
    assert Hex(v, k, upper) + [] == Hex(v, k, upper);
  }

  lemma ItemsCons(x: Item, xs: seq<Item>, upper: bool)
    ensures FormatOf(PiecesOf([x] + xs, upper)) == PieceText(PieceOf(x, upper)) + FormatOf(PiecesOf(xs, upper))
    ensures ArgsOf([x] + xs) == (if x.Digits? then [Number(x.v)] else []) + ArgsOf(xs)
    ensures TextOf([x] + xs, upper) == (if x.Digits? then Hex(x.v, x.k, upper) else ['-']) + TextOf(xs, upper)
  {
    hide PieceText, Hex;
    assert ([x] + xs)[1..] == xs && PiecesOf([x] + xs, upper)[1..] == PiecesOf(xs, upper);
    assert PiecesOf([x] + xs, upper)[0] == PieceOf(x, upper);
  }

  lemma {:induction false} ItemsAppend(xs: seq<Item>, ys: seq<Item>, upper: bool)
    ensures FormatOf(PiecesOf(xs + ys, upper)) == FormatOf(PiecesOf(xs, upper)) + FormatOf(PiecesOf(ys, upper))
    ensures ArgsOf(xs + ys) == ArgsOf(xs) + ArgsOf(ys)
    ensures TextOf(xs + ys, upper) == TextOf(xs, upper) + TextOf(ys, upper)
    decreases |xs|
  {
    hide PieceText, Hex, FormatOf, PiecesOf, TextOf, ArgsOf;
    if xs == [] {
      NoItems(upper);
      assert xs + ys == ys;
    } else {
      ItemsAppend(xs[1..], ys, upper);
      assert xs + ys == [xs[0]] + (xs[1..] + ys) && xs == [xs[0]] + xs[1..];
      ItemsCons(xs[0], xs[1..] + ys, upper);
      ItemsCons(xs[0], xs[1..], upper);
    }
  }

  lemma NoItems(upper: bool)
    ensures FormatOf(PiecesOf([], upper)) == [] && ArgsOf([]) == [] && TextOf([], upper) == []
  {
  }

  lemma OneNumber(k: nat, v: word, upper: bool)
    requires 0 < k < 10
    ensures var xs := [Digits(k, v)];
            && FormatOf(PiecesOf(xs, upper)) == ['%', '0', DigitChar(k, false), if upper then 'X' else 'x']
            && ArgsOf(xs) == [Number(v)] && TextOf(xs, upper) == Hex(v, k, upper)
  {
    hide Hex, FormatOf, PieceText, PieceOf, PiecesOf, TextOf, ArgsOf, DigitChar;
    NoItems(upper);
    ItemsCons(Digits(k, v), [], upper);
    NumberPiece(k, v, upper);
    assert [Digits(k, v)] + [] == [Digits(k, v)];
  }

  /** Two numbers and nothing between them. */
  lemma TwoBytes(v: word, w: word, upper: bool)
    ensures var xs := [Digits(2, v), Digits(2, w)];
            && FormatOf(PiecesOf(xs, upper)) == (if upper then "%02X%02X" else "%02x%02x")
            && ArgsOf(xs) == [Number(v), Number(w)]
            && TextOf(xs, upper) == Hex(v, 2, upper) + Hex(w, 2, upper)
  {
    hide Hex, FormatOf, PieceText, PieceOf, PiecesOf, TextOf, ArgsOf, DigitChar;
    OneNumber(2, v, upper);
    OneNumber(2, w, upper);
    ItemsAppend([Digits(2, v)], [Digits(2, w)], upper);
    assert [Digits(2, v)] + [Digits(2, w)] == [Digits(2, v), Digits(2, w)];
    TwoFormats(upper);
  }

  lemma TwoFormats(upper: bool)
    ensures var x := ['%', '0', DigitChar(2, false), if upper then 'X' else 'x'];
            x + x == if upper then "%02X%02X" else "%02x%02x"
  {
    assert DigitChar(2, false) == '2';
  }

  lemma NumberPiece(k: nat, v: word, upper: bool)
    requires 0 < k < 10
    ensures PieceText(PieceOf(Digits(k, v), upper)) == ['%', '0', DigitChar(k, false), if upper then 'X' else 'x']
  {
    assert Numeral(10, k, false) == [DigitChar(k, false)];
  }

  /** A number and the dash behind it. */
  lemma NumberDash(k: nat, v: word, upper: bool)
    requires 0 < k < 10
    ensures var xs := [Digits(k, v), Dash];
            && FormatOf(PiecesOf(xs, upper)) == ['%', '0', DigitChar(k, false), if upper then 'X' else 'x', '-']
            && ArgsOf(xs) == [Number(v)]
            && TextOf(xs, upper) == Hex(v, k, upper) + ['-']
  {
    hide Hex, FormatOf, PiecesOf, TextOf, ArgsOf;
    NoItems(upper);
    var xs := [Digits(k, v), Dash];
    assert xs == [Digits(k, v)] + [Dash] && [Dash] == [Dash] + [];
    ItemsCons(Digits(k, v), [Dash], upper);
    ItemsCons(Dash, [], upper);
    NumberPiece(k, v, upper);
  }

  function HeadItems(f: Fields): seq<Item> {
    [Digits(8, f.timeLow), Dash] + [Digits(4, f.timeMid), Dash] + [Digits(4, f.timeHi), Dash]
  }

  function ClockItems(f: Fields): seq<Item> {
    [Digits(2, f.clockSeq / 0x100)] + [Digits(2, f.clockSeq % 0x100), Dash]
  }

  function NodeItems(f: Fields): seq<Item> {
    [Digits(2, f.node[0]), Digits(2, f.node[1])] + [Digits(2, f.node[2]), Digits(2, f.node[3])]
    + [Digits(2, f.node[4]), Digits(2, f.node[5])]
  }

  lemma HeadItemsText(f: Fields, upper: bool)
    ensures FormatOf(PiecesOf(HeadItems(f), upper)) == if upper then "%08X-%04X-%04X-" else "%08x-%04x-%04x-"
    ensures ArgsOf(HeadItems(f)) == [Number(f.timeLow), Number(f.timeMid), Number(f.timeHi)]
    ensures TextOf(HeadItems(f), upper) == TimeText(f, upper)
  {
    hide Hex, PieceOf, PiecesOf, FormatOf, TextOf, ArgsOf;
    NumberDash(8, f.timeLow, upper);
    NumberDash(4, f.timeMid, upper);
    NumberDash(4, f.timeHi, upper);
    ItemsAppend([Digits(8, f.timeLow), Dash], [Digits(4, f.timeMid), Dash], upper);
    ItemsAppend([Digits(8, f.timeLow), Dash] + [Digits(4, f.timeMid), Dash], [Digits(4, f.timeHi), Dash], upper);
  }

  lemma ClockItemsText(f: Fields, upper: bool)
    ensures FormatOf(PiecesOf(ClockItems(f), upper)) == if upper then "%02X%02X-" else "%02x%02x-"
    ensures ArgsOf(ClockItems(f)) == [Number(f.clockSeq / 0x100), Number(f.clockSeq % 0x100)]
    ensures TextOf(ClockItems(f), upper) == Hex(f.clockSeq, 4, upper) + ['-']
  {
    hide Hex, PiecesOf, FormatOf, TextOf, ArgsOf;
    NumberDash(2, f.clockSeq % 0x100, upper);
    NumberPiece(2, f.clockSeq / 0x100, upper);
    ItemsCons(Digits(2, f.clockSeq / 0x100), [Digits(2, f.clockSeq % 0x100), Dash], upper);
    TwoBytesHex(f.clockSeq, upper);
  }

  lemma NodeItemsText(f: Fields, upper: bool)
    ensures FormatOf(PiecesOf(NodeItems(f), upper))
         == if upper then "%02X%02X%02X%02X%02X%02X" else "%02x%02x%02x%02x%02x%02x"
    ensures ArgsOf(NodeItems(f)) == [Number(f.node[0]), Number(f.node[1]), Number(f.node[2]),
                                     Number(f.node[3]), Number(f.node[4]), Number(f.node[5])]
    ensures TextOf(NodeItems(f), upper) == NodeText(f.node, upper)
  {
    hide Hex, PieceOf, PiecesOf, FormatOf, TextOf, ArgsOf;
    TwoBytes(f.node[0], f.node[1], upper);
    TwoBytes(f.node[2], f.node[3], upper);
    TwoBytes(f.node[4], f.node[5], upper);
    ItemsAppend([Digits(2, f.node[0]), Digits(2, f.node[1])], [Digits(2, f.node[2]), Digits(2, f.node[3])], upper);
    ItemsAppend([Digits(2, f.node[0]), Digits(2, f.node[1])] + [Digits(2, f.node[2]), Digits(2, f.node[3])],
                [Digits(2, f.node[4]), Digits(2, f.node[5])], upper);
  }

  function AllItems(f: Fields): seq<Item> {
    HeadItems(f) + ClockItems(f) + NodeItems(f)
  }

  lemma AllItemsText(f: Fields, upper: bool)
    ensures FormatOf(PiecesOf(AllItems(f), upper)) == if upper then FMT_UPPER else FMT_LOWER
    ensures ArgsOf(AllItems(f)) == UnparseArgs(f)
    ensures TextOf(AllItems(f), upper) == FieldText(f, upper)
  {
    hide Hex, HeadItems, ClockItems, NodeItems, PiecesOf, FormatOf, TextOf, ArgsOf, TimeText, NodeText;
    HeadItemsText(f, upper);
    ClockItemsText(f, upper);
    NodeItemsText(f, upper);
    ItemsAppend(HeadItems(f), ClockItems(f), upper);
    ItemsAppend(HeadItems(f) + ClockItems(f), NodeItems(f), upper);
  }

  /** The real format string, given the real arguments, prints the text form. */
  lemma UnparsePrints(f: Fields, upper: bool)
    ensures Render(if upper then FMT_UPPER else FMT_LOWER, 0, UnparseArgs(f)) == Some(FieldText(f, upper))
  {
    hide Hex, FieldText, TextOf, ArgsOf, FormatOf, UnparseArgs, Render, Meaning;
    var xs := AllItems(f);
    AllItemsText(f, upper);
    ItemsInRange(f);
    ItemsMean(xs, upper);
    PiecesProper(xs, upper);
    RenderMeansPieces([], PiecesOf(xs, upper), ArgsOf(xs));
    assert [] + FormatOf(PiecesOf(xs, upper)) == FormatOf(PiecesOf(xs, upper));
  }

  lemma ItemsInRange(f: Fields)
    ensures forall i :: 0 <= i < |AllItems(f)| && AllItems(f)[i].Digits? ==>
              0 < AllItems(f)[i].k <= 8 && AllItems(f)[i].v < Power(16, AllItems(f)[i].k)
  {
    assert Power(16, 2) == 0x100 && Power(16, 4) == 0x1_0000;
    assert Power(16, 6) == 0x100 * Power(16, 4) && Power(16, 8) == 0x1_0000_0000;
  }

  lemma PiecesProper(xs: seq<Item>, upper: bool)
    ensures forall i :: 0 <= i < |xs| ==> Proper(PiecesOf(xs, upper)[i])
  {
  }

  // ---------- parse ----------

  predicate IsDashPlace(i: nat) {
    i == 8 || i == 13 || i == 18 || i == 23
  }

  /** The 8-4-4-4-12 form. */
  predicate Form(s: seq<char>) {
    |s| == 36 && forall i :: 0 <= i < 36 ==> if IsDashPlace(i) then s[i] == '-' else IsDigitOf(s[i], 16)
  }

  /** The number HexUint32 reads at position i: the hexadecimal digits up to the first other character, modulo 2^32. */
  function HexEnd(s: seq<char>, i: nat): (e: nat)
    requires i <= |s|
    ensures i <= e <= |s| && (e < |s| ==> !IsDigitOf(s[e], 16))
    ensures forall k :: i <= k < e ==> IsDigitOf(s[k], 16)
    decreases |s| - i
  {
    if i == |s| || !IsDigitOf(s[i], 16) then i else HexEnd(s, i + 1)
  }

  function HexAt(s: seq<char>, i: nat): (v: word)
    requires i <= |s|
  {
    Value(16, s[i..HexEnd(s, i)]) % 0x1_0000_0000
  }

  function ByteAt(s: seq<char>, i: nat): (b: byte)
    requires i + 2 <= |s|
  {
    HexAt(s[i..i + 2], 0) % 0x100
  }

  function ParsedFields(s: seq<char>): (f: Fields)
    requires |s| == 36
  {
    Fields(HexAt(s, 0), HexAt(s, 9) % 0x1_0000, HexAt(s, 14) % 0x1_0000, HexAt(s, 19) % 0x1_0000,
           [ByteAt(s, 24), ByteAt(s, 26), ByteAt(s, 28), ByteAt(s, 30), ByteAt(s, 32), ByteAt(s, 34)])
  }

  lemma RunEndsAt(s: seq<char>, i: nat, e: nat)
    requires i <= e <= |s| && DigitsOf(s[i..e], 16) && (e < |s| ==> !IsDigitOf(s[e], 16))
    ensures e == HexEnd(s, i)
  {
    assert forall j :: i <= j < e ==> s[j] == s[i..e][j - i];
  }

  /** A run of digits that is followed by no digit is read as its value. */
  lemma HexAtIs(s: seq<char>, i: nat, k: nat)
    requires i + k <= |s| && k <= 8 && DigitsOf(s[i..i + k], 16)
    requires i + k < |s| ==> !IsDigitOf(s[i + k], 16)
    ensures HexAt(s, i) == Value(16, s[i..i + k]) < Power(16, k)
  {
    hide Value, Hex, Power, IsDigitOf;
    RunEndsAt(s, i, i + k);
    HexOfValue(s[i..i + k]);
    PowersOf16(k);
  }

  lemma PowersOf16(k: nat)
    requires k <= 8
    ensures Power(16, k) <= 0x1_0000_0000
    ensures Power(16, 2) == 0x100 && Power(16, 4) == 0x1_0000 && Power(16, 8) == 0x1_0000_0000
  {
    assert Power(16, 4) == 0x1_0000 && Power(16, 6) == 0x100 * Power(16, 4);
    assert k == 5 ==> Power(16, k) == 16 * Power(16, 4);
    assert k == 7 ==> Power(16, k) == 16 * Power(16, 6);
  }

  /** Where the numbers stand in a text form. */
  ghost predicate HasChunks(s: seq<char>, f: Fields, upper: bool) {
    && |s| == 36 && s[8] == '-' && s[13] == '-' && s[18] == '-' && s[23] == '-'
    && s[..8] == Hex(f.timeLow, 8, upper) && s[9..13] == Hex(f.timeMid, 4, upper)
    && s[14..18] == Hex(f.timeHi, 4, upper) && s[19..23] == Hex(f.clockSeq, 4, upper)
    && s[24..26] == Hex(f.node[0], 2, upper) && s[26..28] == Hex(f.node[1], 2, upper)
    && s[28..30] == Hex(f.node[2], 2, upper) && s[30..32] == Hex(f.node[3], 2, upper)
    && s[32..34] == Hex(f.node[4], 2, upper) && s[34..36] == Hex(f.node[5], 2, upper)
  }

  lemma ChunksMakeText(s: seq<char>, f: Fields, upper: bool)
    requires HasChunks(s, f, upper)
    ensures s == FieldText(f, upper)
  {
    hide Hex;
    assert s[..19] == TimeText(f, upper) by {
      assert s[..19] == s[..8] + ['-'] + (s[9..13] + ['-']) + (s[14..18] + ['-']);
    }
    assert s[24..] == NodeText(f.node, upper) by {
      assert s[24..] == s[24..26] + s[26..28] + (s[28..30] + s[30..32]) + (s[32..34] + s[34..36]);
    }
    assert s == s[..19] + (s[19..23] + ['-']) + s[24..];
  }

  lemma TextHasChunks(f: Fields, upper: bool)
    ensures HasChunks(FieldText(f, upper), f, upper)
  {
    hide Hex;
    var s := FieldText(f, upper);
    TimeChunks(f, upper);
    NodeChunks(f.node, upper);
    var t, n := TimeText(f, upper), NodeText(f.node, upper);
    hide TimeText, NodeText;
    assert s[..19] == t && s[24..] == n && s[19..23] == Hex(f.clockSeq, 4, upper) && s[23] == '-';
    assert s[..8] == s[..19][..8] && s[9..13] == s[..19][9..13] && s[14..18] == s[..19][14..18];
    assert s[8] == s[..19][8] && s[13] == s[..19][13] && s[18] == s[..19][18];
    assert s[24..26] == s[24..][..2] && s[26..28] == s[24..][2..4] && s[28..30] == s[24..][4..6];
    assert s[30..32] == s[24..][6..8] && s[32..34] == s[24..][8..10] && s[34..36] == s[24..][10..12];
  }

  lemma TimeChunks(f: Fields, upper: bool)
    ensures var t := TimeText(f, upper);
            && t[8] == '-' && t[13] == '-' && t[18] == '-' && t[..8] == Hex(f.timeLow, 8, upper)
            && t[9..13] == Hex(f.timeMid, 4, upper) && t[14..18] == Hex(f.timeHi, 4, upper)
  {
    hide Hex;
  }

  lemma NodeChunks(m: Node, upper: bool)
    ensures var n := NodeText(m, upper);
            && n[..2] == Hex(m[0], 2, upper) && n[2..4] == Hex(m[1], 2, upper) && n[4..6] == Hex(m[2], 2, upper)
            && n[6..8] == Hex(m[3], 2, upper) && n[8..10] == Hex(m[4], 2, upper) && n[10..12] == Hex(m[5], 2, upper)
  {
    hide Hex;
  }

  /** The digits of a well-formed text, taken together, are those of its parsed fields in lower case. */
  lemma ParseOfForm(s: seq<char>)
    requires Form(s)
    ensures FieldText(ParsedFields(s), false) == LowerCase(s)
  {
    hide Hex, HexAt, ByteAt, FieldText;
    var f, t := ParsedFields(s), LowerCase(s);
    NumberChunk(s, 0, 8);
    NumberChunk(s, 9, 4);
    NumberChunk(s, 14, 4);
    NumberChunk(s, 19, 4);
    ByteChunk(s, 24);
    ByteChunk(s, 26);
    ByteChunk(s, 28);
    ByteChunk(s, 30);
    ByteChunk(s, 32);
    ByteChunk(s, 34);
    PowersOf16(4);
    assert IsDashPlace(8) && IsDashPlace(13) && IsDashPlace(18) && IsDashPlace(23);
    ChunksMakeText(t, f, false);
  }

  lemma NumberChunk(s: seq<char>, i: nat, k: nat)
    requires Form(s) && i + k < 36 && k <= 8 && IsDashPlace(i + k)
    requires forall j :: i <= j < i + k ==> !IsDashPlace(j)
    ensures HexAt(s, i) < Power(16, k) && Hex(HexAt(s, i), k, false) == LowerCase(s)[i..i + k]
  {
    hide Value, Hex, Power, HexAt;
    var d := s[i..i + k];
    assert DigitsOf(d, 16);
    HexAtIs(s, i, k);
    HexOfValue(d);
    assert LowerCase(d) == LowerCase(s)[i..i + k];
  }

  lemma ByteChunk(s: seq<char>, i: nat)
    requires Form(s) && 24 <= i <= 34
    ensures Hex(ByteAt(s, i), 2, false) == LowerCase(s)[i..i + 2]
  {
    hide Value, Hex, Power, HexAt, IsDigitOf;
    var d := s[i..i + 2];
    assert DigitsOf(d, 16);
    assert d[0..2] == d;
    HexAtIs(d, 0, 2);
    HexOfValue(d);
    PowersOf16(2);
    assert LowerCase(d) == LowerCase(s)[i..i + 2];
  }

  /** The text form of any fields is well-formed and parses back to them, in both letter cases. */
  lemma ParseOfText(f: Fields, upper: bool)
    ensures Form(FieldText(f, upper)) && ParsedFields(FieldText(f, upper)) == f
  {
    hide Hex, FieldText, HexAt, ByteAt, HasChunks;
    var s := FieldText(f, upper);
    TextHasChunks(f, upper);
    ChunksAreForm(s, f, upper);
    PowersOf16(4);
    ChunkValue(s, 0, 8, f.timeLow, f, upper);
    ChunkValue(s, 9, 4, f.timeMid, f, upper);
    ChunkValue(s, 14, 4, f.timeHi, f, upper);
    ChunkValue(s, 19, 4, f.clockSeq, f, upper);
    ByteValue(s, 0, f, upper);
    ByteValue(s, 1, f, upper);
    ByteValue(s, 2, f, upper);
    ByteValue(s, 3, f, upper);
    ByteValue(s, 4, f, upper);
    ByteValue(s, 5, f, upper);
  }

  lemma ChunksAreForm(s: seq<char>, f: Fields, upper: bool)
    requires HasChunks(s, f, upper)
    ensures Form(s)
  {
    hide Hex;
    PowersOf16(4);
    HexDenotes(f.timeLow, 8, upper);
    HexDenotes(f.timeMid, 4, upper);
    HexDenotes(f.timeHi, 4, upper);
    HexDenotes(f.clockSeq, 4, upper);
    forall i | 0 <= i < 36
      ensures if IsDashPlace(i) then s[i] == '-' else IsDigitOf(s[i], 16)
    {
      if i < 24 {
        assert i < 8 ==> s[i] == s[..8][i];
        assert 9 <= i < 13 ==> s[i] == s[9..13][i - 9];
        assert 14 <= i < 18 ==> s[i] == s[14..18][i - 14];
        assert 19 <= i < 23 ==> s[i] == s[19..23][i - 19];
      } else {
        NodeDigit(s, f, upper, i);
      }
    }
  }

  lemma NodeDigit(s: seq<char>, f: Fields, upper: bool, i: nat)
    requires HasChunks(s, f, upper) && 24 <= i < 36
    ensures IsDigitOf(s[i], 16)
  {
    hide Hex;
    var j := (i - 24) / 2;
    var from := 24 + 2 * j;
    PowersOf16(2);
    HexDenotes(f.node[j], 2, upper);
    assert s[from..from + 2] == Hex(f.node[j], 2, upper);
    assert s[i] == s[from..from + 2][i - from];
  }

  lemma ChunkValue(s: seq<char>, i: nat, k: nat, v: nat, f: Fields, upper: bool)
    requires HasChunks(s, f, upper) && Form(s)
    requires (i, k, v) in {(0, 8, f.timeLow as nat), (9, 4, f.timeMid as nat), (14, 4, f.timeHi as nat),
            (19, 4, f.clockSeq as nat)}
    ensures HexAt(s, i) == v
  {
    hide Hex;
    PowersOf16(4);
    HexDenotes(v, k, upper);
    assert s[i..i + k] == Hex(v, k, upper);
    HexAtIs(s, i, k);
  }

  lemma ByteValue(s: seq<char>, j: nat, f: Fields, upper: bool)
    requires HasChunks(s, f, upper) && Form(s) && j < 6
    ensures ByteAt(s, 24 + 2 * j) == f.node[j]
  {
    hide Hex, HasChunks, Form, HexAt;
    var i := 24 + 2 * j;
    NodePlace(s, f, upper, j);
    var d := s[i..i + 2];
    PowersOf16(2);
    HexDenotes(f.node[j], 2, upper);
    assert d[0..2] == d;
    HexAtIs(d, 0, 2);
  }

  // ---------- the functions ----------

  /** What uuid_unparse_lower and uuid_unparse_upper write for u. */
  function UnparseText(u: Bytes, upper: bool): (r: seq<char>) {
    FieldText(Unpack(u), upper)
  }

  /** Where the two digits of byte j stand: behind those of the bytes before it, and the dashes before bytes 4, 6, 8
      and 10. */
  function BytePlace(j: nat): nat {
    2 * j + (if j < 4 then 0 else if j < 6 then 1 else if j < 8 then 2 else if j < 10 then 3 else 4)
  }

  /** The text is the sixteen bytes in order, two digits each. */
  lemma UnparseBytes(u: Bytes, upper: bool, j: nat)
    requires j < 16
    ensures var text, at := UnparseText(u, upper), BytePlace(j);
            |text| == 36 && at + 2 <= 36 && text[at..at + 2] == Hex(u[j], 2, upper)
  {
    hide Hex, FieldText, Pair;
    var f, text := Unpack(u), UnparseText(u, upper);
    TextHasChunks(f, upper);
    if j < 4 {
      FourBytes(text[..8], u[0], u[1], u[2], u[3], upper);
      SliceOf(text, 0, 8, 2 * j);
    } else if j < 6 {
      PairPlace(text, 9, u[4], u[5], upper);
    } else if j < 8 {
      PairPlace(text, 14, u[6], u[7], upper);
    } else if j < 10 {
      PairPlace(text, 19, u[8], u[9], upper);
    } else {
      NodePlace(text, f, upper, j - 10);
    }
  }

  lemma SliceOf(text: seq<char>, from: nat, to: nat, at: nat)
    requires from + at + 2 <= to <= |text|
    ensures text[from..to][at..at + 2] == text[from + at..from + at + 2]
  {
    var part := text[from..to];
    assert part[at] == text[from + at] && part[at + 1] == text[from + at + 1];
  }

  lemma NodePlace(text: seq<char>, f: Fields, upper: bool, k: nat)
    requires HasChunks(text, f, upper) && k < 6
    ensures |text| == 36 && text[24 + 2 * k..26 + 2 * k] == Hex(f.node[k], 2, upper)
  {
    hide Hex;
    if k == 0 {
    } else if k == 1 {
    } else if k == 2 {
    } else if k == 3 {
    } else if k == 4 {
    } else {
      assert k == 5;
    }
  }

  lemma PairPlace(text: seq<char>, from: nat, a: byte, b: byte, upper: bool)
    requires from + 4 <= |text| && text[from..from + 4] == Hex(Pair(a, b), 4, upper)
    ensures text[from..from + 2] == Hex(a, 2, upper) && text[from + 2..from + 4] == Hex(b, 2, upper)
  {
    hide Hex, Pair;
    PairBehind(a, b, 2, upper);
    SliceOf(text, from, from + 4, 0);
    SliceOf(text, from, from + 4, 2);
  }

  lemma PairBehind(hi: nat, lo: byte, k: nat, upper: bool)
    ensures Pair(hi, lo) >= 0 && Hex(Pair(hi, lo), k + 2, upper) == Hex(hi, k, upper) + Hex(lo, 2, upper)
  {
    hide Hex;
    ByteBehind(hi, lo, k, upper);
  }

  lemma FourBytes(t: seq<char>, a: byte, b: byte, c: byte, d: byte, upper: bool)
    requires t == Hex(Pair(Pair(Pair(a, b), c), d), 8, upper)
    ensures |t| == 8 && t[0..2] == Hex(a, 2, upper) && t[2..4] == Hex(b, 2, upper)
    ensures t[4..6] == Hex(c, 2, upper) && t[6..8] == Hex(d, 2, upper)
  {
    hide Hex, Pair;
    PairBehind(a, b, 2, upper);
    PairBehind(Pair(a, b), c, 4, upper);
    PairBehind(Pair(Pair(a, b), c), d, 6, upper);
    FourPairs(t, Hex(a, 2, upper), Hex(b, 2, upper), Hex(c, 2, upper), Hex(d, 2, upper));
  }

  lemma FourPairs(t: seq<char>, a: seq<char>, b: seq<char>, c: seq<char>, d: seq<char>)
    requires |a| == |b| == |c| == |d| == 2 && t == a + b + c + d
    ensures t[0..2] == a && t[2..4] == b && t[4..6] == c && t[6..8] == d
  {
  }

  /** Dashes, digits, and letters of the case asked for only. */
  lemma UnparseCase(u: Bytes, upper: bool)
    ensures forall i :: 0 <= i < |UnparseText(u, upper)| ==>
              UnparseText(u, upper)[i] == '-' || InCase(UnparseText(u, upper)[i], upper)
  {
    hide Hex, FieldText;
    var text := UnparseText(u, upper);
    TextHasChunks(Unpack(u), upper);
    forall i | 0 <= i < |text|
      ensures text[i] == '-' || InCase(text[i], upper)
    {
      if !IsDashPlace(i) {
        var j := ByteOf(i);
        UnparseBytes(u, upper, j);
        HexCase(u[j], 2, upper);
        var two := text[BytePlace(j)..BytePlace(j) + 2];
        assert text[i] == two[i - BytePlace(j)];
      }
    }
  }

  /** The byte whose digits a place of the text belongs to. */
  function ByteOf(i: nat): (j: nat)
    requires i < 36 && !IsDashPlace(i)
    ensures j < 16 && BytePlace(j) <= i < BytePlace(j) + 2
  {
    (i - (if i < 8 then 0 else if i < 13 then 1 else if i < 18 then 2 else if i < 23 then 3 else 4)) / 2
  }

  /** uuid_parse undoes uuid_unparse, in both letter cases. */
  lemma ParseUndoesUnparse(u: Bytes, upper: bool)
    ensures Form(UnparseText(u, upper)) && Pack(ParsedFields(UnparseText(u, upper))) == u
  {
    hide FieldText, Form, ParsedFields, Pack, Unpack;
    ParseOfText(Unpack(u), upper);
    PackUndoesUnpack(u);
  }

  /** uuid_unparse_lower gives back every well-formed text, in lower case. */
  lemma UnparseUndoesParse(s: seq<char>)
    requires Form(s)
    ensures UnparseText(Pack(ParsedFields(s)), false) == LowerCase(s)
  {
    hide FieldText, ParsedFields, Pack, Unpack;
    ParseOfForm(s);
    UnpackUndoesPack(ParsedFields(s));
  }

  method HexUint32(s: seq<char>, start: nat) returns (ret: word)
    requires start <= |s|
    ensures ret == HexAt(s, start)
    // The digits up to the first character that is none, modulo 2^32.
    ensures forall e :: start <= e <= |s| && DigitsOf(s[start..e], 16) && (e < |s| ==> !IsDigitOf(s[e], 16)) ==>
              ret == Value(16, s[start..e]) % 0x1_0000_0000
  {
    hide Value, IsDigitOf, DigitValue;
    ret := 0;
    var i := start;
    ValueOfNone(s, start);
    while i < |s| && IsDigitOf(s[i], 16)
      invariant start <= i <= |s| && HexEnd(s, i) == HexEnd(s, start)
      invariant ret == Value(16, s[start..i]) % 0x1_0000_0000
    {
      ValueOfNext(s, start, i);
      ShiftModulo(Value(16, s[start..i]), DigitValue(s[i]));
      ret := (ret * 16 + DigitValue(s[i])) % 0x1_0000_0000;
      i := i + 1;
    }
    forall e | start <= e <= |s| && DigitsOf(s[start..e], 16) && (e < |s| ==> !IsDigitOf(s[e], 16))
      ensures e == i
    {
      RunEndsAt(s, start, e);
    }
  }

  lemma ValueOfNone(s: seq<char>, start: nat)
    requires start <= |s|
    ensures Value(16, s[start..start]) == 0
  {
    assert s[start..start] == [];
  }

  lemma ValueOfNext(s: seq<char>, start: nat, i: nat)
    requires start <= i < |s|
    ensures Value(16, s[start..i + 1]) == Value(16, s[start..i]) * 16 + DigitValue(s[i])
  {
    var longer := s[start..i + 1];
    assert longer[..|longer| - 1] == s[start..i] && longer[|longer| - 1] == s[i];
  }

  lemma ShiftModulo(a: nat, d: nat)
    ensures (a % 0x1_0000_0000 * 16 + d) % 0x1_0000_0000 == (a * 16 + d) % 0x1_0000_0000
  {
    var q, r := a / 0x1_0000_0000, a % 0x1_0000_0000;
    assert a * 16 + d == r * 16 + d + 0x1_0000_0000 * (16 * q);
  }

  /** Well-formed texts and no others are accepted; u receives the packed fields, and is untouched otherwise. */
  method UuidParse(s: seq<char>, u: array<byte>) returns (r: int)
    requires u.Length == 16 && NUL !in s
    modifies u
    ensures r == if Form(s) then 0 else -1
    ensures if Form(s) then u[..] == Pack(ParsedFields(s)) else u[..] == old(u[..])
  {
    hide HexAt, Pack;
    if |s| != 36 {
      return -1;
    }
    var i := 0;
    while i <= 36
      invariant 0 <= i <= 37
      invariant forall k :: 0 <= k < i && k < 36 ==> if IsDashPlace(k) then s[k] == '-' else IsDigitOf(s[k], 16)
    {
      var c := At(s, i);
      if i == 8 || i == 13 || i == 18 || i == 23 {
        if c != '-' {
          return -1;
        }
      } else if !(i == 36 && c == NUL) && !IsDigitOf(c, 16) {
        return -1;
      }
      i := i + 1;
    }
    var timeLow := HexUint32(s, 0);
    var timeMid := HexUint32(s, 9);
    var timeHi := HexUint32(s, 14);
    var clockSeq := HexUint32(s, 19);
    var node := ReadNode(s);
    UuidPack(Fields(timeLow, timeMid % 0x1_0000, timeHi % 0x1_0000, clockSeq % 0x1_0000, node), u);
    return 0;
  }

  method ReadNode(s: seq<char>) returns (node: Node)
    requires |s| == 36
    ensures node == [ByteAt(s, 24), ByteAt(s, 26), ByteAt(s, 28), ByteAt(s, 30), ByteAt(s, 32), ByteAt(s, 34)]
  {
    hide HexAt;
    var bytes: seq<byte> := [];
    for i := 0 to 6
      invariant |bytes| == i && forall k :: 0 <= k < i ==> bytes[k] == ByteAt(s, 24 + 2 * k)
    {
      var buf := [s[24 + 2 * i], s[25 + 2 * i]];
      assert buf == s[24 + 2 * i..26 + 2 * i];
      var v := HexUint32(buf, 0);
      bytes := bytes + [v % 0x100];
    }
    assert bytes[0] == ByteAt(s, 24 + 2 * 0) && bytes[1] == ByteAt(s, 24 + 2 * 1) && bytes[2] == ByteAt(s, 24 + 2 * 2);
    assert bytes[3] == ByteAt(s, 24 + 2 * 3) && bytes[4] == ByteAt(s, 24 + 2 * 4) && bytes[5] == ByteAt(s, 24 + 2 * 5);
    node := bytes;
  }

  /** Each number is written from its last byte to its first while it is shifted down. */
  method UuidPack(f: Fields, out: array<byte>)
    requires out.Length == 16
    modifies out
    ensures out[..] == Pack(f)
  {
    var tmp: word := f.timeLow;
    out[3] := tmp % 0x100;
    tmp := tmp / 0x100;
    out[2] := tmp % 0x100;
    tmp := tmp / 0x100;
    out[1] := tmp % 0x100;
    tmp := tmp / 0x100;
    out[0] := tmp % 0x100;
    tmp := f.timeMid;
    out[5] := tmp % 0x100;
    tmp := tmp / 0x100;
    out[4] := tmp % 0x100;
    tmp := f.timeHi;
    out[7] := tmp % 0x100;
    tmp := tmp / 0x100;
    out[6] := tmp % 0x100;
    tmp := f.clockSeq;
    out[9] := tmp % 0x100;
    tmp := tmp / 0x100;
    out[8] := tmp % 0x100;
    forall i | 0 <= i < 6 {
      out[10 + i] := f.node[i];
    }
  }

  /** uuid_unparse_lower and uuid_unparse_upper: the text form and the NUL, through sprintf. */
  method UuidUnparse(u: Bytes, out: array<char>, upper: bool)
    requires 37 <= out.Length
    modifies out
    ensures out[..37] == UnparseText(u, upper) + [NUL] && out[37..] == old(out[37..])
    ensures forall i :: 0 <= i < 36 ==> out[i] == '-' || InCase(out[i], upper)
    ensures forall j :: 0 <= j < 16 ==> out[BytePlace(j)..BytePlace(j) + 2] == Hex(u[j], 2, upper)
  {
    hide FieldText, Render, Unpack, UnparseArgs;
    var f := Unpack(u);
    UnparsePrints(f, upper);
    var n := Sprintf(out, if upper then FMT_UPPER else FMT_LOWER, UnparseArgs(f));
    UnparseCase(u, upper);
    ghost var text := UnparseText(u, upper);
    assert forall i :: 0 <= i < 36 ==> out[i] == out[..37][i] == text[i];
    forall j | 0 <= j < 16
      ensures out[BytePlace(j)..BytePlace(j) + 2] == Hex(u[j], 2, upper)
    {
      UnparseBytes(u, upper, j);
      assert out[BytePlace(j)..BytePlace(j) + 2] == text[BytePlace(j)..BytePlace(j) + 2];
    }
  }
}
