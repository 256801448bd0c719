/** DMX slot information as text: FromString, ToString and Parse. */
module DmxSlotInfo {
  import opened Bits
  import opened HexText
  import opened Printf
  import opened Words

  datatype Slot = Slot(kind: byte, category: half)

  const DEFAULT_SLOT := Slot(0x00, 0xFFFF)

  // ---------- parsing one entry ----------

  datatype Scan = Scan(count: nat, value: nat, end: nat)

  /** A digit loop: up to `limit` hexadecimal digits, ended early by a stop character; None at any other character. */
  function ScanHex(text: seq<char>, b: nat, limit: nat, stop: set<char>, count: nat, tmp: nat): (r: Option<Scan>)
    requires count <= limit
    decreases limit - count
  {
    if count < limit && At(text, b) !in stop then
      if !IsDigitOf(At(text, b), 16) then None
      else ScanHex(text, b + 1, limit, stop, count + 1, (tmp * 16 + DigitValue(At(text, b))) % 0x1_0000)
    else Some(Scan(count, tmp, b))
  }

  /** One entry from position i on: the slot, and where the next entry starts, if the text goes on. The character
      between two type digits and the category is stepped over unseen. */
  function ParseAt(text: seq<char>, i: nat): (r: Option<(Slot, Option<nat>)>) {
    match ScanHex(text, i, 2, {':'}, 0, 0)
    case None => None
    case Some(Scan(_, kind, b)) =>
      match ScanHex(text, b + 1, 4, {',', NUL}, 0, 0)
      case None => None
      case Some(Scan(count, category, e)) =>
        if count != 4 || At(text, e) !in {',', ' ', NUL} then None
        else Some((Slot(kind % 0x100, category % 0x1_0000), if At(text, e) == NUL then None else Some(e + 1)))
  }

  /** The entries from position i on: at most `limit`, up to the first that is malformed or the last. */
  function Entries(text: seq<char>, i: nat, limit: nat): (r: seq<Slot>)
    ensures |r| <= limit
    decreases limit
  {
    if limit == 0 then []
    else
      match ParseAt(text, i)
      case None => []
      case Some((slot, next)) => [slot] + match next case None => [] case Some(j) => Entries(text, j, limit - 1)
  }

  // ---------- printing ----------

  function SlotText(slot: Slot): (r: seq<char>)
    ensures |r| == 7
  {
    Hex(slot.kind, 2, true) + [':'] + Hex(slot.category, 4, true)
  }

  /** The slots that a mask selects, lowest bit first. */
  function Selected(slots: seq<Slot>, mask: word): (r: seq<Slot>)
    ensures |r| <= |slots|
  {
    if slots == [] then []
    else (if mask % 2 == 1 then [slots[0]] else []) + Selected(slots[1..], mask / 2)
  }

  /** A slot whose bit is set is selected, behind as many slots as there are bits set below it. */
  lemma {:induction false} SelectedAt(slots: seq<Slot>, mask: word, i: nat)
    requires i < |slots| && mask / Pow2(i) % 2 == 1
    ensures Ones(mask % Pow2(i)) < |Selected(slots, mask)|
    ensures Selected(slots, mask)[Ones(mask % Pow2(i))] == slots[i]
  {
    if i > 0 {
      OnesBelow(mask, i - 1);
      SelectedAt(slots[1..], mask / 2, i - 1);
    }
  }

  /** And no other slot is: there are as many selected slots as bits set within the table. */
  lemma {:induction false} SelectedCount(slots: seq<Slot>, mask: word)
    ensures |Selected(slots, mask)| == Ones(mask % Pow2(|slots|))
    decreases |slots|
  {
    if slots != [] {
      OnesBelow(mask, |slots| - 1);
      SelectedCount(slots[1..], mask / 2);
    }
  }

  /** Each entry with the comma behind it. */
  function WithCommas(slots: seq<Slot>): (r: seq<char>)
    ensures |r| == 8 * |slots|
  {
    if slots == [] then [] else SlotText(slots[0]) + [','] + WithCommas(slots[1..])
  }

  /** The text form: entries separated by commas. */
  function TextOf(slots: seq<Slot>): (r: seq<char>) {
    if slots == [] then [] else WithCommas(slots)[..8 * |slots| - 1]
  }

  /** A mask has a bit for each of 32 slots; a shift by 32 or more is undefined. */
  const MASK_BITS: nat := 32

  lemma {:induction false} Pow2Fits(k: nat)
    requires k <= MASK_BITS
    ensures Pow2(k) <= 0x1_0000_0000 && (k < MASK_BITS ==> Pow2(k) < 0x1_0000_0000)
    decreases MASK_BITS - k
  {
    if k == MASK_BITS {
      assert Pow2(8) == 0x100 && Pow2(16) == 0x1_0000 && Pow2(24) == 0x100_0000;
    } else {
      Pow2Fits(k + 1);
    }
  }

  /** The mask with the k lowest bits set. */
  function LowOnes(k: nat): (mask: word)
    requires k <= MASK_BITS
  {
    Pow2Fits(k);
    Pow2(k) - 1
  }

  ghost predicate Reads(text: seq<char>, i: nat, s: seq<char>) {
    i + |s| <= |text| && forall k :: 0 <= k < |s| ==> text[i + k] == s[k]
  }

  lemma HexDigits2(v: nat)
    requires v < 0x100
    ensures var d := Hex(v, 2, true);
            && IsDigitOf(d[0], 16) && IsDigitOf(d[1], 16) && DigitValue(d[0]) * 16 + DigitValue(d[1]) == v
  {
    HexTwo(v, true);
    DigitDenotes(v / 16 % 16, true);
    DigitDenotes(v % 16, true);
  }

  lemma HexDigits4(v: nat)
    requires v < 0x1_0000
    ensures var d := Hex(v, 4, true);
            && IsDigitOf(d[0], 16) && IsDigitOf(d[1], 16) && IsDigitOf(d[2], 16) && IsDigitOf(d[3], 16)
            && ((DigitValue(d[0]) * 16 + DigitValue(d[1])) * 16 + DigitValue(d[2])) * 16 + DigitValue(d[3]) == v
  {
    TwoBytesHex(v, true);
    hide Hex;
    HexDigits2(v / 0x100);
    HexDigits2(v % 0x100);
  }

  /** A printed slot is parsed back, when the text ends or a comma follows. */
  lemma ParseReadsSlot(text: seq<char>, i: nat, slot: Slot)
    requires Reads(text, i, SlotText(slot)) && At(text, i + 7) in {',', NUL}
    ensures ParseAt(text, i) == Some((slot, if At(text, i + 7) == NUL then None else Some(i + 8)))
  {
    hide ScanHex, SlotText, IsDigitOf, DigitValue;
    var d0, d1, c0, c1, c2, c3 := SlotDigits(slot);
    var t := SlotText(slot);
    assert text[i] == t[0] && text[i + 1] == t[1] && text[i + 2] == t[2];
    assert text[i + 3] == t[3] && text[i + 4] == t[4] && text[i + 5] == t[5] && text[i + 6] == t[6];
    ScanTwo(text, i, d0, d1);
    ScanFour(text, i + 3, c0, c1, c2, c3);
  }

  /** The characters of a printed slot. */
  lemma SlotDigits(slot: Slot) returns (d0: char, d1: char, c0: char, c1: char, c2: char, c3: char)
    ensures SlotText(slot) == [d0, d1, ':', c0, c1, c2, c3]
    ensures IsDigitOf(d0, 16) && IsDigitOf(d1, 16)
    ensures IsDigitOf(c0, 16) && IsDigitOf(c1, 16) && IsDigitOf(c2, 16) && IsDigitOf(c3, 16)
    ensures DigitValue(d0) * 16 + DigitValue(d1) == slot.kind
    ensures ((DigitValue(c0) * 16 + DigitValue(c1)) * 16 + DigitValue(c2)) * 16 + DigitValue(c3) == slot.category
  {
    hide Hex, IsDigitOf, DigitValue;
    HexDigits2(slot.kind);
    HexDigits4(slot.category);
    var d, c := Hex(slot.kind, 2, true), Hex(slot.category, 4, true);
    d0, d1, c0, c1, c2, c3 := d[0], d[1], c[0], c[1], c[2], c[3];
  }

  lemma ScanStep(text: seq<char>, b: nat, limit: nat, stop: set<char>, count: nat, tmp: nat)
    requires count < limit && At(text, b) !in stop && IsDigitOf(At(text, b), 16) && tmp < 0x1000
    ensures ScanHex(text, b, limit, stop, count, tmp)
         == ScanHex(text, b + 1, limit, stop, count + 1, tmp * 16 + DigitValue(At(text, b)))
  {
    hide IsDigitOf, DigitValue, At;
  }

  lemma ScanEnd(text: seq<char>, b: nat, limit: nat, stop: set<char>, tmp: nat)
    ensures ScanHex(text, b, limit, stop, limit, tmp) == Some(Scan(limit, tmp, b))
  {
  }

  lemma DigitIsNoStop(c: char)
    requires IsDigitOf(c, 16)
    ensures c !in {':'} && c !in {',', NUL}
  {
  }

  lemma ScanTwo(text: seq<char>, i: nat, c0: char, c1: char)
    requires At(text, i) == c0 && At(text, i + 1) == c1 && IsDigitOf(c0, 16) && IsDigitOf(c1, 16)
    ensures ScanHex(text, i, 2, {':'}, 0, 0) == Some(Scan(2, DigitValue(c0) * 16 + DigitValue(c1), i + 2))
  {
    hide ScanHex, IsDigitOf, DigitValue, At;
    DigitIsNoStop(c0);
    DigitIsNoStop(c1);
    var d0 := DigitValue(c0);
    ScanStep(text, i, 2, {':'}, 0, 0);
    ScanStep(text, i + 1, 2, {':'}, 1, d0);
    ScanEnd(text, i + 2, 2, {':'}, d0 * 16 + DigitValue(c1));
  }

  lemma ScanFour(text: seq<char>, i: nat, c0: char, c1: char, c2: char, c3: char)
    requires At(text, i) == c0 && At(text, i + 1) == c1 && At(text, i + 2) == c2 && At(text, i + 3) == c3
    requires IsDigitOf(c0, 16) && IsDigitOf(c1, 16) && IsDigitOf(c2, 16) && IsDigitOf(c3, 16)
    ensures ScanHex(text, i, 4, {',', NUL}, 0, 0)
         == Some(Scan(4, ((DigitValue(c0) * 16 + DigitValue(c1)) * 16 + DigitValue(c2)) * 16 + DigitValue(c3), i + 4))
  {
    hide ScanHex, IsDigitOf, DigitValue, At;
    DigitIsNoStop(c0);
    DigitIsNoStop(c1);
    DigitIsNoStop(c2);
    DigitIsNoStop(c3);
    var v1 := DigitValue(c0);
    var v2 := v1 * 16 + DigitValue(c1);
    var v3 := v2 * 16 + DigitValue(c2);
    ScanStep(text, i, 4, {',', NUL}, 0, 0);
    ScanStep(text, i + 1, 4, {',', NUL}, 1, v1);
    ScanStep(text, i + 2, 4, {',', NUL}, 2, v2);
    ScanStep(text, i + 3, 4, {',', NUL}, 3, v3);
    ScanEnd(text, i + 4, 4, {',', NUL}, v3 * 16 + DigitValue(c3));
  }

  // ---------- what is accepted ----------

  predicate HexAt(text: seq<char>, i: nat) {
    '0' <= At(text, i) <= '9' || 'a' <= At(text, i) <= 'f' || 'A' <= At(text, i) <= 'F'
  }

  /** n hexadecimal digits, then a colon; behind two digits any character at all. */
  predicate TypePart(text: seq<char>, i: nat, n: nat) {
    && n <= 2 && (n > 0 ==> HexAt(text, i)) && (n > 1 ==> HexAt(text, i + 1))
    && (n < 2 ==> At(text, i + n) == ':')
  }

  /** Four hexadecimal digits, then a comma, a space or the end of the text. */
  predicate CategoryPart(text: seq<char>, j: nat) {
    && HexAt(text, j) && HexAt(text, j + 1) && HexAt(text, j + 2) && HexAt(text, j + 3)
    && (At(text, j + 4) == ',' || At(text, j + 4) == ' ' || At(text, j + 4) == NUL)
  }

  function TypeOf(text: seq<char>, i: nat, n: nat): byte {
    if n == 0 then 0
    else if n == 1 then DigitValue(At(text, i))
    else DigitValue(At(text, i)) * 16 + DigitValue(At(text, i + 1))
  }

  function CategoryOf(text: seq<char>, j: nat): half {
    ((DigitValue(At(text, j)) * 16 + DigitValue(At(text, j + 1))) * 16 + DigitValue(At(text, j + 2))) * 16
    + DigitValue(At(text, j + 3))
  }

  lemma ScanType(text: seq<char>, i: nat)
    ensures var r := ScanHex(text, i, 2, {':'}, 0, 0);
            && (forall n {:trigger TypePart(text, i, n)} :: TypePart(text, i, n) ==>
                  r == Some(Scan(n, TypeOf(text, i, n), i + n)))
            && (r.Some? ==> r.value.count <= 2 && TypePart(text, i, r.value.count))
  {
    hide DigitValue;
    var c0, c1 := At(text, i), At(text, i + 1);
    if c0 != ':' && HexAt(text, i) {
      ScanStep(text, i, 2, {':'}, 0, 0);
      if c1 != ':' && HexAt(text, i + 1) {
        ScanStep(text, i + 1, 2, {':'}, 1, DigitValue(c0));
      }
    }
  }

  lemma ScanCategory(text: seq<char>, j: nat)
    ensures var r := ScanHex(text, j, 4, {',', NUL}, 0, 0);
            if HexAt(text, j) && HexAt(text, j + 1) && HexAt(text, j + 2) && HexAt(text, j + 3)
            then r == Some(Scan(4, CategoryOf(text, j), j + 4))
            else r == None || r.value.count != 4
  {
    hide DigitValue;
    var v1 := DigitValue(At(text, j));
    var v2 := v1 * 16 + DigitValue(At(text, j + 1));
    var v3 := v2 * 16 + DigitValue(At(text, j + 2));
    if HexAt(text, j) {
      ScanStep(text, j, 4, {',', NUL}, 0, 0);
      if HexAt(text, j + 1) {
        ScanStep(text, j + 1, 4, {',', NUL}, 1, v1);
        if HexAt(text, j + 2) {
          ScanStep(text, j + 2, 4, {',', NUL}, 2, v2);
          if HexAt(text, j + 3) {
            ScanStep(text, j + 3, 4, {',', NUL}, 3, v3);
          }
        }
      }
    }
  }

  /** Exactly the entries of this form are accepted: up to two type digits, the separator, four category digits and the
      character behind them; the values are those of the digits, and the next entry starts behind that character. */
  lemma ParseAcceptsIff(text: seq<char>, i: nat)
    ensures ParseAt(text, i).Some? <==> exists n: nat :: TypePart(text, i, n) && CategoryPart(text, i + n + 1)
    ensures forall n: nat :: TypePart(text, i, n) && CategoryPart(text, i + n + 1) ==>
              ParseAt(text, i) == Some((Slot(TypeOf(text, i, n), CategoryOf(text, i + n + 1)),
                                        if At(text, i + n + 5) == NUL then None else Some(i + n + 6)))
  {
    hide ScanHex, TypeOf, CategoryOf, HexAt;
    ScanType(text, i);
    ScanCategory(text, i + 1);
    ScanCategory(text, i + 2);
    ScanCategory(text, i + 3);
    var r := ScanHex(text, i, 2, {':'}, 0, 0);
    assert r.Some? ==> TypePart(text, i, r.value.count);
  }

  // ---------- lists of entries ----------

  /** The text of the entries that are still to come, at position i; the last one has no comma. */
  ghost predicate Holds(text: seq<char>, i: nat, slots: seq<Slot>) {
    && |text| == i + 8 * |slots| - 1
    && forall k {:trigger text[k]} :: i <= k < |text| ==> text[k] == WithCommas(slots)[k - i]
  }

  lemma HoldsFirst(text: seq<char>, i: nat, slots: seq<Slot>)
    requires slots != [] && Holds(text, i, slots)
    ensures Reads(text, i, SlotText(slots[0]))
    ensures if |slots| == 1 then At(text, i + 7) == NUL else At(text, i + 7) == ',' && Holds(text, i + 8, slots[1..])
  {
    hide SlotText;
    var first, rest := SlotText(slots[0]), WithCommas(slots[1..]);
    var w := first + [','] + rest;
    assert WithCommas(slots) == w;
    forall k | 0 <= k < 7
      ensures text[i + k] == first[k]
    {
      assert w[k] == first[k] && text[i + k] == w[i + k - i];
    }
    if |slots| > 1 {
      assert w[7] == ',' && text[i + 7] == w[i + 7 - i];
      forall k {:trigger text[k]} | i + 8 <= k < |text|
        ensures text[k] == rest[k - (i + 8)]
      {
        assert w[k - i] == rest[k - i - 8];
      }
    }
  }

  /** Printed entries are read back, all of them and in order. */
  lemma {:induction false} EntriesOfText(text: seq<char>, i: nat, slots: seq<Slot>, limit: nat)
    requires slots != [] && |slots| <= limit && Holds(text, i, slots)
    ensures Entries(text, i, limit) == slots
    decreases |slots|
  {
    hide ParseAt, Holds, Reads, WithCommas, SlotText, At;
    HoldsFirst(text, i, slots);
    ParseReadsSlot(text, i, slots[0]);
    if |slots| == 1 {
      assert slots == [slots[0]];
    } else {
      EntriesOfText(text, i + 8, slots[1..], limit - 1);
      assert [slots[0]] + slots[1..] == slots;
    }
  }

  /** Printed entries, each with its comma, at position i; anything may follow. */
  ghost predicate Begins(text: seq<char>, i: nat, slots: seq<Slot>) {
    && i + 8 * |slots| <= |text|
    && forall k {:trigger text[k]} :: i <= k < i + 8 * |slots| ==> text[k] == WithCommas(slots)[k - i]
  }

  lemma BeginsFirst(text: seq<char>, i: nat, slots: seq<Slot>)
    requires slots != [] && Begins(text, i, slots)
    ensures Reads(text, i, SlotText(slots[0])) && At(text, i + 7) == ',' && Begins(text, i + 8, slots[1..])
  {
    hide SlotText;
    var first, rest := SlotText(slots[0]), WithCommas(slots[1..]);
    var w := first + [','] + rest;
    assert WithCommas(slots) == w;
    forall k | 0 <= k < 7
      ensures text[i + k] == first[k]
    {
      assert w[k] == first[k] && text[i + k] == w[i + k - i];
    }
    assert w[7] == ',' && text[i + 7] == w[i + 7 - i];
    forall k {:trigger text[k]} | i + 8 <= k < i + 8 * |slots|
      ensures text[k] == rest[k - (i + 8)]
    {
      assert w[k - i] == rest[k - i - 8];
    }
  }

  /** The first malformed entry ends the list: those before it are kept, whatever follows it is not looked at. */
  lemma {:induction false} MalformedEnds(text: seq<char>, i: nat, slots: seq<Slot>, limit: nat)
    requires Begins(text, i, slots) && |slots| <= limit && ParseAt(text, i + 8 * |slots|) == None
    ensures Entries(text, i, limit) == slots
    decreases |slots|
  {
    hide ParseAt, Begins, Reads, WithCommas, SlotText;
    if slots != [] {
      BeginsFirst(text, i, slots);
      ParseReadsSlot(text, i, slots[0]);
      MalformedEnds(text, i + 8, slots[1..], limit - 1);
      assert slots == [slots[0]] + slots[1..];
    }
  }

  /** A table as the constructor leaves it. */
  function Fresh(size: nat): (r: seq<Slot>)
    ensures |r| == size && forall i :: 0 <= i < size ==> r[i] == DEFAULT_SLOT
  {
    seq(size, _ => DEFAULT_SLOT)
  }

  /** The entries that a pointer to the text still has to give; none from a null pointer. */
  ghost function Rest(text: seq<char>, raw: Option<nat>, limit: nat): (r: seq<Slot>)
    ensures |r| <= limit
  {
    match raw case None => [] case Some(j) => Entries(text, j, limit)
  }

  lemma RestStep(text: seq<char>, j: nat, limit: nat)
    requires limit > 0
    ensures Rest(text, Some(j), limit)
         == match ParseAt(text, j) case None => [] case Some((slot, next)) => [slot] + Rest(text, next, limit - 1)
  {
    hide ParseAt;
  }

  datatype Loaded = Loaded(slots: seq<Slot>, mask: word)

  /** What FromString makes of a table: the entries at its front, and a low bit of the mask for each. */
  function Load(text: seq<char>, slots: seq<Slot>): (r: Loaded)
    requires |slots| <= MASK_BITS
  {
    var e := Entries(text, 0, |slots|);
    Loaded(e + slots[|e|..], LowOnes(|e|))
  }

  lemma LoadIs(text: seq<char>, slots: seq<Slot>)
    requires |slots| <= MASK_BITS
    ensures var e := Rest(text, Some(0), |slots|); Load(text, slots) == Loaded(e + slots[|e|..], LowOnes(|e|))
    ensures forall limit :: Rest(text, None, limit) == []
    ensures Rest(text, Some(0), 0) == [] && LowOnes(0) == 0
  {
  }

  lemma TextHolds(slots: seq<Slot>)
    requires slots != []
    ensures Holds(TextOf(slots), 0, slots)
  {
    hide SlotText;
  }

  /** Where the entries stand in a text, and the commas between them. */
  lemma {:induction false} WithCommasAt(slots: seq<Slot>, k: nat)
    requires k < |slots|
    ensures WithCommas(slots)[8 * k..8 * k + 7] == SlotText(slots[k]) && WithCommas(slots)[8 * k + 7] == ','
    decreases |slots|
  {
    hide SlotText;
    var rest := WithCommas(slots[1..]);
    var w := SlotText(slots[0]) + [','] + rest;
    assert WithCommas(slots) == w;
    if k == 0 {
      assert w[0..7] == SlotText(slots[0]);
    } else {
      WithCommasAt(slots[1..], k - 1);
      assert w[8..] == rest;
      assert w[8 * k..8 * k + 7] == w[8..][8 * k - 8..8 * k - 1];
    }
  }

  /** A text names the slots whose bits are set, each in its place, with commas between them and nothing else. */
  ghost predicate Lists(text: seq<char>, slots: seq<Slot>, mask: word) {
    var count := Ones(mask % Pow2(|slots|));
    && |text| == (if count == 0 then 0 else 8 * count - 1)
    && (forall k :: 0 <= k < count - 1 ==> text[8 * k + 7] == ',')
    && forall i :: 0 <= i < |slots| && mask / Pow2(i) % 2 == 1 ==>
         var k := Ones(mask % Pow2(i));
         k < count && text[8 * k..8 * k + 7] == SlotText(slots[i])
  }

  lemma TextListsAt(chosen: seq<Slot>, k: nat)
    requires k < |chosen|
    ensures |TextOf(chosen)| == 8 * |chosen| - 1 && TextOf(chosen)[8 * k..8 * k + 7] == SlotText(chosen[k])
    ensures k < |chosen| - 1 ==> TextOf(chosen)[8 * k + 7] == ','
  {
    hide SlotText, WithCommas;
    WithCommasAt(chosen, k);
    assert TextOf(chosen)[8 * k..8 * k + 7] == WithCommas(chosen)[8 * k..8 * k + 7];
  }

  lemma TextLists(slots: seq<Slot>, mask: word)
    ensures Lists(TextOf(Selected(slots, mask)), slots, mask)
  {
    hide SlotText, TextOf, Selected, Ones, Pow2;
    var chosen := Selected(slots, mask);
    SelectedCount(slots, mask);
    NoEntries();
    if chosen != [] {
      TextListsAt(chosen, 0);
    }
    forall k | 0 <= k < |chosen| - 1
      ensures TextOf(chosen)[8 * k + 7] == ','
    {
      TextListsAt(chosen, k);
    }
    forall i | 0 <= i < |slots| && mask / Pow2(i) % 2 == 1
      ensures var k := Ones(mask % Pow2(i));
              k < |chosen| && TextOf(chosen)[8 * k..8 * k + 7] == SlotText(slots[i])
    {
      SelectedAt(slots, mask, i);
      TextListsAt(chosen, Ones(mask % Pow2(i)));
    }
  }

  lemma NoEntries()
    ensures TextOf([]) == []
  {
  }

  function UpperDigit(d: nat): char
    requires d < 16
  {
    "0123456789ABCDEF"[d]
  }

  lemma UpperDigitIs(d: nat)
    requires d < 16
    ensures ToCharUppercase(d) == UpperDigit(d)
  {
    DigitIsFromTable(d, true);
  }

  /** The characters of an entry, from the table of upper-case digits: two for the type, a colon, four for the
      category. */
  lemma SlotTextIs(slot: Slot)
    ensures SlotText(slot) == [UpperDigit(slot.kind / 16), UpperDigit(slot.kind % 16), ':',
                               UpperDigit(slot.category / 0x1000), UpperDigit(slot.category / 0x100 % 16),
                               UpperDigit(slot.category / 16 % 16), UpperDigit(slot.category % 16)]
  {
    hide Hex, DigitChar, SlotText, UpperDigit, ToCharUppercase;
    NibblesOfSlot(slot);
    UpperDigitIs(slot.kind / 16);
    UpperDigitIs(slot.kind % 16);
    UpperDigitIs(slot.category / 0x1000);
    UpperDigitIs(slot.category / 0x100 % 16);
    UpperDigitIs(slot.category / 16 % 16);
    UpperDigitIs(slot.category % 16);
  }

  lemma LoadsSelected(slots: seq<Slot>, mask: word)
    requires |slots| <= MASK_BITS && Selected(slots, mask) != []
    ensures var chosen := Selected(slots, mask);
            Load(TextOf(chosen), Fresh(|slots|)) == Loaded(chosen + Fresh(|slots| - |chosen|), LowOnes(|chosen|))
  {
    hide TextOf, Holds, Entries, Selected, LowOnes;
    var chosen := Selected(slots, mask);
    TextHolds(chosen);
    EntriesOfText(TextOf(chosen), 0, chosen, |slots|);
    assert Fresh(|slots|)[|chosen|..] == Fresh(|slots| - |chosen|);
  }

  /** FromString on ToString in a fresh table of the same size: the selected slots, in order and moved to the front,
      and a mask with as many low bits set as slots were selected. In terms of the bits: every slot whose bit was set
      stands behind as many slots as there were bits set below it, and as many bits are set in the new mask as were
      within the table. */
  lemma RoundTrip(slots: seq<Slot>, mask: word)
    requires |slots| <= MASK_BITS && Selected(slots, mask) != []
    ensures var chosen := Selected(slots, mask);
            Load(TextOf(chosen), Fresh(|slots|)) == Loaded(chosen + Fresh(|slots| - |chosen|), LowOnes(|chosen|))
    ensures var r := Load(TextOf(Selected(slots, mask)), Fresh(|slots|));
            && |r.slots| == |slots| && Ones(r.mask) == Ones(mask % Pow2(|slots|))
            && forall i :: 0 <= i < |slots| && mask / Pow2(i) % 2 == 1 ==>
                 Ones(mask % Pow2(i)) < |slots| && r.slots[Ones(mask % Pow2(i))] == slots[i]
  {
    hide TextOf, Selected, LowOnes, Ones, Load, Pow2;
    LoadsSelected(slots, mask);
    var chosen := Selected(slots, mask);
    SelectedCount(slots, mask);
    OnesOfLowOnes(|chosen|);
    forall i | 0 <= i < |slots| && mask / Pow2(i) % 2 == 1
      ensures Ones(mask % Pow2(i)) < |slots| && (chosen + Fresh(|slots| - |chosen|))[Ones(mask % Pow2(i))] == slots[i]
    {
      SelectedAt(slots, mask, i);
    }
  }

  lemma {:induction false} OnesOfLowOnes(k: nat)
    requires k <= MASK_BITS
    ensures Ones(LowOnes(k)) == k
  {
    if k > 0 {
      OnesOfLowOnes(k - 1);
      OnesStep(1, LowOnes(k - 1));
    }
  }

  lemma {:induction false} LowOnesSelectPrefix(slots: seq<Slot>, k: nat)
    requires k <= |slots| && k <= MASK_BITS
    ensures Selected(slots, LowOnes(k)) == slots[..k]
    decreases |slots|
  {
    if slots == [] {
      assert slots[..k] == [];
    } else if k == 0 {
      LowOnesSelectPrefix(slots[1..], 0);
    } else {
      LowOnesSelectPrefix(slots[1..], k - 1);
      assert LowOnes(k) % 2 == 1 && LowOnes(k) / 2 == LowOnes(k - 1);
      assert slots[..k] == [slots[0]] + slots[1..][..k - 1];
    }
  }

  /** For a mask of low-order ones the round trip is exact: the same slots in the same places, and the same mask. */
  lemma ExactRoundTrip(slots: seq<Slot>, k: nat)
    requires 0 < k <= |slots| <= MASK_BITS
    ensures var r := Load(TextOf(Selected(slots, LowOnes(k))), Fresh(|slots|));
            r.slots == slots[..k] + Fresh(|slots| - k) && r.mask == LowOnes(k)
  {
    hide TextOf, Load, LowOnes, Selected;
    LowOnesSelectPrefix(slots, k);
    LoadsSelected(slots, LowOnes(k));
  }

  // ---------- the class ----------

  /** Setting the next bit of a run of low ones. */
  lemma SetNextBit(k: nat)
    requires k < MASK_BITS
    ensures Or(LowOnes(k), Shl(1, k)) == LowOnes(k + 1)
  {
    hide Or;
    Pow2Fits(k);
    OrCommutes(LowOnes(k), Pow2(k));
    OrIsSum(1, LowOnes(k), k);
  }

  function ToCharUppercase(value: nat): char {
    DigitChar(value % 16, true)
  }

  /** The four category nibbles and the two type nibbles, as ToString takes them out. */
  lemma NibblesOfSlot(slot: Slot)
    ensures SlotText(slot) == [ToCharUppercase(slot.kind / 16), ToCharUppercase(slot.kind % 16), ':']
                              + [ToCharUppercase(slot.category / 0x1000), ToCharUppercase(slot.category / 0x100 % 16)]
                              + [ToCharUppercase(slot.category / 16 % 16), ToCharUppercase(slot.category % 16)]
  {
    hide Hex, DigitChar;
    HexTwo(slot.kind, true);
    TwoBytesHex(slot.category, true);
    HexTwo(slot.category / 0x100, true);
    HexTwo(slot.category % 0x100, true);
    Nibbles(slot.category);
  }

  lemma NothingSelected(slots: seq<Slot>)
    ensures Selected(slots, 0) == []
  {
  }

  class SlotTable {
    const slots: array<Slot>

    constructor (slotInfo: array<Slot>)
      requires slotInfo.Length != 0
      modifies slotInfo
      ensures slots == slotInfo && slots[..] == Fresh(slots.Length)
      ensures forall i :: 0 <= i < slots.Length ==> slots[i].kind == 0x00 && slots[i].category == 0xFFFF
    {
      slots := slotInfo;
      new;
      for i := 0 to slots.Length
        invariant slots == slotInfo && forall k :: 0 <= k < i ==> slots[k] == DEFAULT_SLOT
      {
        slots[i] := DEFAULT_SLOT;
      }
    }

    method ToString(mask0: word) returns (text: seq<char>)
      requires mask0 == 0 || Selected(slots[..], mask0) != []
      ensures text == TextOf(Selected(slots[..], mask0))
      ensures Lists(text, slots[..], mask0)
    {
      hide Hex, SlotText, DigitChar, Lists;
      TextLists(slots[..], mask0);
      if mask0 == 0 {
        NothingSelected(slots[..]);
        return [];
      }
      var mask: word, p := mask0, [];
      ghost var table := slots[..];
      for i := 0 to slots.Length
        invariant p + WithCommas(Selected(table[i..], mask)) == WithCommas(Selected(table, mask0))
      {
        var slot := slots[i];
        assert table[i..][1..] == table[i + 1..] && table[i..][0] == slot;
        ghost var rest := Selected(table[i + 1..], mask / 2);
        assert Selected(table[i..], mask) == if mask % 2 == 1 then [slot] + rest else rest;
        if mask % 2 == 1 {
          var chosen := [ToCharUppercase(slot.kind / 16), ToCharUppercase(slot.kind % 16), ':'];
          chosen := chosen + [ToCharUppercase(slot.category / 0x1000), ToCharUppercase(slot.category / 0x100 % 16)];
          chosen := chosen + [ToCharUppercase(slot.category / 16 % 16), ToCharUppercase(slot.category % 16)];
          NibblesOfSlot(slot);
          TakeSlot(p, slot, rest);
          p := p + chosen + [','];
        }
        mask := mask / 2;
      }
      assert table[slots.Length..] == [];
      assert p == WithCommas(Selected(table, mask0));
      text := p[..|p| - 1];
    }

    method FromString(text: seq<char>) returns (mask: word)
      requires slots.Length <= MASK_BITS
      modifies slots
      ensures Loaded(slots[..], mask) == Load(text, old(slots[..]))
      ensures Ones(mask) <= slots.Length && slots[Ones(mask)..] == old(slots[..])[Ones(mask)..]
    {
      hide ParseAt, Pow2, Or, Shl, Entries, Rest, LowOnes, Ones, Load;
      mask := 0;
      var raw := Some(0);
      ghost var stored := 0;
      ghost var table, all := slots[..], Rest(text, raw, slots.Length);
      var i := 0;
      LoadIs(text, table);
      while i < slots.Length && raw != None
        invariant stored <= slots.Length && (raw != None ==> i == stored) && i <= slots.Length
        invariant all == slots[..stored] + Rest(text, raw, slots.Length - i)
        invariant slots[stored..] == table[stored..] && mask == LowOnes(stored)
      {
        var isSet, slot, next := Parse(text, raw.value);
        RestStep(text, raw.value, slots.Length - i);
        ghost var before := slots[..stored];
        if isSet {
          slots[i] := slot;
          assert slots[..stored + 1] == before + [slot];
          assert slots[stored + 1..] == table[stored..][1..];
          Regroup(before, slot, Rest(text, next, slots.Length - i - 1));
          SetNextBit(stored);
          mask := Or(mask, Shl(1, i));
          stored := stored + 1;
        }
        raw := next;
        i := i + 1;
      }
      assert slots[..] == all + table[|all|..];
      OnesOfLowOnes(stored);
    }

    /** Two digit loops; the test for a missing colon after the first cannot fail and is not repeated here. */
    method Parse(text: seq<char>, s: nat) returns (isValid: bool, slot: Slot, next: Option<nat>)
      ensures isValid == ParseAt(text, s).Some? && (!isValid ==> next == None)
      ensures isValid ==> ParseAt(text, s).value == (slot, next)
    {
      hide IsDigitOf, DigitValue;
      isValid, slot, next := false, DEFAULT_SLOT, None;
      var b: nat, i: nat, tmp: nat := s, 0, 0;
      while i < 2 && At(text, b) != ':'
        invariant i <= 2 && ScanHex(text, s, 2, {':'}, 0, 0) == ScanHex(text, b, 2, {':'}, i, tmp)
      {
        if !IsDigitOf(At(text, b), 16) {
          return;
        }
        tmp := (tmp * 16 + DigitValue(At(text, b))) % 0x1_0000;
        b, i := b + 1, i + 1;
      }
      var kind := tmp % 0x100;
      b, i, tmp := b + 1, 0, 0;
      ghost var start := b;
      while i < 4 && At(text, b) != ',' && At(text, b) != NUL
        invariant i <= 4 && ScanHex(text, start, 4, {',', NUL}, 0, 0) == ScanHex(text, b, 4, {',', NUL}, i, tmp)
      {
        if !IsDigitOf(At(text, b), 16) {
          return;
        }
        tmp := (tmp * 16 + DigitValue(At(text, b))) % 0x1_0000;
        b, i := b + 1, i + 1;
      }
      if i != 4 {
        return;
      }
      if At(text, b) != ',' && At(text, b) != ' ' && At(text, b) != NUL {
        return;
      }
      isValid, slot := true, Slot(kind, tmp % 0x1_0000);
      if At(text, b) != NUL {
        next := Some(b + 1);
      }
    }
  }

  lemma Regroup(before: seq<Slot>, slot: Slot, rest: seq<Slot>)
    ensures before + ([slot] + rest) == (before + [slot]) + rest
  {
  }

  lemma TakeSlot(p: seq<char>, slot: Slot, rest: seq<Slot>)
    ensures p + WithCommas([slot] + rest) == p + SlotText(slot) + [','] + WithCommas(rest)
  {
    hide SlotText;
    assert ([slot] + rest)[1..] == rest;
    var a, b := SlotText(slot) + [','], WithCommas(rest);
    assert p + (a + b) == p + a + b;
    assert p + SlotText(slot) + [','] == p + a;
  }
}
