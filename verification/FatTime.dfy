/** The packed FAT timestamp of get_fattime. */
module FatTime {
  import opened Arithmetic
  import opened Bits
  import opened Calendar
  import opened Words

  /** The packing as it is written in the source: masks, shifts and ors on 32-bit words. A negative field is cast to a
      word first. */
  function PackBits(tm: Tm): nat {
    var year := And(ToWord(tm.year - 80), 0x7F);
    var mon := And(ToWord(tm.mon + 1), 0x0F);
    var day := And(ToWord(tm.mday), 0x1F);
    var hour := And(ToWord(tm.hour), 0x1F);
    var min := And(ToWord(tm.min), 0x3F);
    var sec := And(ToWord(tm.sec / 2), 0x1F);
    Or(Or(Or(Or(Or(Shl(year, 25), Shl(mon, 21)), Shl(day, 16)), Shl(hour, 11)), Shl(min, 5)), sec)
  }

  function ToWord(x: int): word {
    x % 0x1_0000_0000
  }

  /** The packing as a sum of scaled remainders. */
  function Pack(tm: Tm): (p: word) {
    (tm.year - 80) % 0x80 * 0x200_0000 + (tm.mon + 1) % 0x10 * 0x20_0000 + tm.mday % 0x20 * 0x1_0000
    + tm.hour % 0x20 * 0x800 + tm.min % 0x40 * 0x20 + tm.sec / 2 % 0x20
  }

  lemma Powers()
    ensures Pow2(4) == 0x10 && Pow2(5) == 0x20 && Pow2(6) == 0x40 && Pow2(7) == 0x80
    ensures Pow2(11) == 0x800 && Pow2(16) == 0x1_0000 && Pow2(21) == 0x20_0000 && Pow2(25) == 0x200_0000
  {
    assert Pow2(7) == 0x80 && Pow2(12) == 0x1000;
    assert Pow2(17) == 0x2_0000 && Pow2(21) == 0x20_0000;
  }

  /** A field cast to a word and masked is its remainder, whatever its sign. */
  lemma MaskedField(x: int, k: nat, p: nat)
    requires p == Pow2(k) && p in {0x10, 0x20, 0x40, 0x80}
    ensures And(ToWord(x), p - 1) == x % p
  {
    hide And, Pow2, ToWord;
    MaskIsRemainder(ToWord(x), k);
    WordRemainder(x, p, 0x1_0000_0000 / p);
  }

  lemma WordRemainder(x: int, p: nat, c: nat)
    requires p > 0 && p * c == 0x1_0000_0000
    ensures ToWord(x) % p == x % p
  {
    var q, w := x / 0x1_0000_0000, ToWord(x);
    var a, r := w / p, w % p;
    assert w == p * a + r;
    Factored(x, p, c, q, a, r);
    ModUnique(x, p, c * q + a, r);
  }

  lemma Factored(x: int, p: int, c: int, q: int, a: int, r: int)
    requires x == p * c * q + (p * a + r)
    ensures x == p * (c * q + a) + r
  {
  }

  /** Each field is or-ed in below the lowest bit of what is there. */
  lemma OrFields(y: nat, mo: nat, d: nat, h: nat, mi: nat, s: nat)
    requires y < 0x80 && mo < 0x10 && d < 0x20 && h < 0x20 && mi < 0x40 && s < 0x20
    ensures Or(Or(Or(Or(Or(y * 0x200_0000, mo * 0x20_0000), d * 0x1_0000), h * 0x800), mi * 0x20), s)
         == y * 0x200_0000 + mo * 0x20_0000 + d * 0x1_0000 + h * 0x800 + mi * 0x20 + s
  {
    hide Or, Pow2;
    Powers();
    OrIsSum(y, mo * 0x20_0000, 25);
    OrIsSum(y * 0x10 + mo, d * 0x1_0000, 21);
    OrIsSum((y * 0x10 + mo) * 0x20 + d, h * 0x800, 16);
    OrIsSum(((y * 0x10 + mo) * 0x20 + d) * 0x20 + h, mi * 0x20, 11);
    OrIsSum((((y * 0x10 + mo) * 0x20 + d) * 0x20 + h) * 0x40 + mi, s, 5);
  }

  /** The masked fields do not overlap, so the masks, shifts and ors are the sum. */
  lemma PackBitsIsPack(tm: Tm)
    ensures PackBits(tm) == Pack(tm)
  {
    hide And, Or, Pow2, ToWord;
    Powers();
    MaskedField(tm.year - 80, 7, 0x80);
    MaskedField(tm.mon + 1, 4, 0x10);
    MaskedField(tm.mday, 5, 0x20);
    MaskedField(tm.hour, 5, 0x20);
    MaskedField(tm.min, 6, 0x40);
    MaskedField(tm.sec / 2, 5, 0x20);
    OrFields((tm.year - 80) % 0x80, (tm.mon + 1) % 0x10, tm.mday % 0x20, tm.hour % 0x20, tm.min % 0x40,
        tm.sec / 2 % 0x20);
  }

  /** The fields a FAT file system reads back from a timestamp. */
  function Unpack(p: word): (tm: Tm) {
    Tm(p % 0x20 * 2, p / 0x20 % 0x40, p / 0x800 % 0x20, p / 0x1_0000 % 0x20, p / 0x20_0000 % 0x10 - 1,
        p / 0x200_0000 + 80, 0, 0)
  }

  const START_OF_1980: int := 3652 * 86400

  /** For the times a word can hold, the packed year does not leave its seven bits. */
  lemma YearRange(tm: Tm, t: word)
    requires Represents(tm, t)
    ensures tm.year < 207 && (80 <= tm.year <==> START_OF_1980 <= t)
  {
    hide YearStart, Seconds, LeapsUpTo;
    YearStarts();
    YearReached(tm, 1980);
    YearReached(tm, 2107);
  }

  lemma YearStarts()
    ensures YearStart(1979) == 3287 && YearStart(1980) == 3652 && YearStart(2107) == 50038
  {
    hide YearStart;
    YearStartClosed(1979);
    YearStartClosed(1980);
    YearStartClosed(2107);
  }

  lemma UnpackPack(y: nat, mo: nat, d: nat, h: nat, mi: nat, s: nat)
    requires y < 0x80 && mo < 0x10 && d < 0x20 && h < 0x20 && mi < 0x40 && s < 0x20
    ensures var p := y * 0x200_0000 + mo * 0x20_0000 + d * 0x1_0000 + h * 0x800 + mi * 0x20 + s;
            && p % 0x20 == s && p / 0x20 % 0x40 == mi && p / 0x800 % 0x20 == h
            && p / 0x1_0000 % 0x20 == d && p / 0x20_0000 % 0x10 == mo && p / 0x200_0000 == y
  {
    var p := y * 0x200_0000 + mo * 0x20_0000 + d * 0x1_0000 + h * 0x800 + mi * 0x20 + s;
    assert p / 0x20 == y * 0x10_0000 + mo * 0x1_0000 + d * 0x800 + h * 0x40 + mi;
    assert p / 0x800 == y * 0x4000 + mo * 0x400 + d * 0x20 + h;
    assert p / 0x1_0000 == y * 0x200 + mo * 0x20 + d;
    assert p / 0x20_0000 == y * 0x10 + mo;
  }

  /** Reading the bit fields back gives the date and time, seconds rounded down to even, exactly from 1980 on. */
  lemma UnpackRecoversIff(tm: Tm, t: word)
    requires Represents(tm, t)
    ensures SameFields(Unpack(Pack(tm)), tm.(sec := tm.sec / 2 * 2)) <==> START_OF_1980 <= t
  {
    hide Represents, Pack, Unpack, Exists;
    RepresentsMeans(tm, t);
    YearRange(tm, t);
    UnpackFields(tm);
    assert (tm.year - 80) % 0x80 + 80 == tm.year <==> 80 <= tm.year;
  }

  lemma UnpackFields(tm: Tm)
    requires Exists(tm)
    ensures Unpack(Pack(tm)) == Tm(tm.sec / 2 * 2, tm.min, tm.hour, tm.mday, tm.mon, (tm.year - 80) % 0x80 + 80, 0, 0)
  {
    hide Pack, Exists;
    PackRanges(tm);
    UnpackPack((tm.year - 80) % 0x80, tm.mon + 1, tm.mday, tm.hour, tm.min, tm.sec / 2);
  }

  /** From 1980 on the packed value respects time order, and two times share it only in the same two-second slot. */
  lemma PackOrder(a: Tm, t: word, b: Tm, u: word)
    requires Represents(a, t) && Represents(b, u) && START_OF_1980 <= t && START_OF_1980 <= u
    ensures t <= u ==> Pack(a) <= Pack(b)
    ensures Pack(a) == Pack(b) <==> t / 2 == u / 2
  {
    hide Represents, Exists, Seconds, Pack, Before, SameFields;
    RepresentsMeans(a, t);
    RepresentsMeans(b, u);
    YearRange(a, t);
    YearRange(b, u);
    SlotOrder(a, b);
    SlotIsHalfTime(a, t);
    SlotIsHalfTime(b, u);
    SecondsAscend(Slot(a), Slot(b));
  }

  /** The start of a two-second slot. */
  function Slot(tm: Tm): Tm {
    tm.(sec := tm.sec / 2 * 2)
  }

  lemma SlotIsHalfTime(tm: Tm, t: word)
    requires Represents(tm, t)
    ensures Exists(Slot(tm)) && Seconds(Slot(tm)) == t / 2 * 2
  {
    assert DayNumber(Slot(tm)) == DayNumber(tm);
    var m := (DayNumber(tm) * 24 + tm.hour) * 60 + tm.min;
    assert t == 2 * (30 * m) + tm.sec;
  }

  /** The packed values compare like the slots. */
  lemma SlotOrder(a: Tm, b: Tm)
    requires Exists(a) && Exists(b) && 80 <= a.year < 207 && 80 <= b.year < 207
    ensures Pack(a) < Pack(b) <==> Before(Slot(a), Slot(b))
    ensures Pack(a) == Pack(b) <==> SameFields(Slot(a), Slot(b))
  {
    hide Pack, Exists;
    PackRanges(a);
    PackRanges(b);
    DigitsOrder(a.year - 80, a.mon + 1, a.mday, a.hour, a.min, a.sec / 2, b.year - 80, b.mon + 1, b.mday, b.hour,
        b.min, b.sec / 2);
  }

  /** Sums of scaled bit fields compare like the fields, most significant first. */
  lemma DigitsOrder(y: nat, mo: nat, d: nat, h: nat, mi: nat, s: nat, y': nat, mo': nat, d': nat, h': nat, mi': nat,
      s': nat)
    requires mo < 0x10 && d < 0x20 && h < 0x20 && mi < 0x40 && s < 0x20
    requires mo' < 0x10 && d' < 0x20 && h' < 0x20 && mi' < 0x40 && s' < 0x20
    ensures var p := y * 0x200_0000 + mo * 0x20_0000 + d * 0x1_0000 + h * 0x800 + mi * 0x20 + s;
            var p' := y' * 0x200_0000 + mo' * 0x20_0000 + d' * 0x1_0000 + h' * 0x800 + mi' * 0x20 + s';
            var timeLess := h < h' || (h == h' && (mi < mi' || (mi == mi' && s < s')));
            && (p < p' <==> y < y' || (y == y' && (mo < mo' || (mo == mo' && (d < d' || (d == d' && timeLess))))))
            && (p == p' <==> y == y' && mo == mo' && d == d' && h == h' && mi == mi' && s == s')
  {
  }

  lemma PackRanges(a: Tm)
    requires Exists(a)
    ensures Pack(a) == (a.year - 80) % 0x80 * 0x200_0000 + (a.mon + 1) * 0x20_0000 + a.mday * 0x1_0000 + a.hour * 0x800
                       + a.min * 0x20 + a.sec / 2
    ensures 0 <= a.mon < 12 && 1 <= a.mday <= 31 && 0 <= a.hour < 24 && 0 <= a.min < 60 && 0 <= a.sec < 60
    ensures 80 <= a.year < 207 ==> (a.year - 80) % 0x80 == a.year - 80
  {
    hide Exists;
    FieldRanges(a);
  }

  lemma FieldRanges(a: Tm)
    requires Exists(a)
    ensures 0 <= a.mon < 12 && 1 <= a.mday <= 31 && 0 <= a.hour < 24 && 0 <= a.min < 60 && 0 <= a.sec < 60
  {
    hide IsLeapYear;
  }

  /** The second before 1980 packs to a larger value than the first second of 1980. */
  lemma PackOrderFailsBefore1980(a: Tm, b: Tm)
    requires Represents(a, START_OF_1980 - 1) && Represents(b, START_OF_1980)
    ensures Pack(a) > Pack(b)
  {
    var x := Tm(59, 59, 23, 31, 11, 79, 0, 0);
    var y := Tm(0, 0, 0, 1, 0, 80, 0, 0);
    EdgeOf1980(x, y);
    hide Represents, Seconds, Exists, Pack;
    RepresentsMeans(a, START_OF_1980 - 1);
    RepresentsMeans(b, START_OF_1980);
    SecondsAscend(a, x);
    SecondsAscend(b, y);
    PackOfFields(a, x);
    PackOfFields(b, y);
    EdgePacks(x, y);
  }

  lemma PackOfFields(a: Tm, b: Tm)
    requires SameFields(a, b)
    ensures Pack(a) == Pack(b)
  {
  }

  lemma EdgePacks(x: Tm, y: Tm)
    requires x == Tm(59, 59, 23, 31, 11, 79, 0, 0) && y == Tm(0, 0, 0, 1, 0, 80, 0, 0)
    ensures Pack(y) == 0x21_0000 < Pack(x)
  {
  }

  lemma EdgeOf1980(x: Tm, y: Tm)
    requires x == Tm(59, 59, 23, 31, 11, 79, 0, 0) && y == Tm(0, 0, 0, 1, 0, 80, 0, 0)
    ensures Exists(x) && Seconds(x) == START_OF_1980 - 1 && Exists(y) && Seconds(y) == START_OF_1980
  {
    hide YearStart;
    YearStarts();
    TwelveMonthsAreAYear(1979);
    assert DayNumber(y) == 3652 && DayNumber(x) == 3651;
  }

  /** Seven bits year since 1980, four bits month, five bits day; five bits hour, six bits minute, five bits of two
      seconds. Years before 1980 wrap to 2098 and later. */
  ghost predicate InPlace(p: word, tm: Tm, t: word) {
    && p / 0x200_0000 == (if t >= 315532800 then tm.year - 80 else tm.year + 48)
    && p / 0x20_0000 % 0x10 == tm.mon + 1 && p / 0x1_0000 % 0x20 == tm.mday
    && p / 0x800 % 0x20 == tm.hour && p / 0x20 % 0x40 == tm.min && p % 0x20 == tm.sec / 2
  }

  lemma FieldsInPlace(tm: Tm, t: word)
    requires Represents(tm, t)
    ensures InPlace(Pack(tm), tm, t)
  {
    hide Represents, Pack, Exists, Seconds, YearStart;
    RepresentsMeans(tm, t);
    YearRange(tm, t);
    YearReached(tm, 1970);
    PackRanges(tm);
    assert YearStart(1970) == 0 by {
      YearStartClosed(1970);
    }
    UnpackPack((tm.year - 80) % 0x80, tm.mon + 1, tm.mday, tm.hour, tm.min, tm.sec / 2);
  }

  /** get_fattime packs what gmtime makes of the current time. */
  method GetFattime(clock: Clock, now: word) returns (packed: word)
    modifies clock
    ensures Represents(clock.tm, now) && packed == Pack(clock.tm)
    ensures InPlace(packed, clock.tm, now)
  {
    hide PackBits, Pack, Represents;
    var ok := clock.Gmtime(now);
    var bits := PackBits(clock.tm);
    PackBitsIsPack(clock.tm);
    FieldsInPlace(clock.tm, now);
    packed := bits;
  }
}
