/** The number and string formatters of printf, and the character sink behind them. */
module Printf {
  import opened Words

  const BUFFER_SIZE: nat := 64

  /** The directive being formatted: its flags, width and precision. */
  datatype Spec = Spec(zeroPadded: bool, leftJustified: bool, width: nat, hasPrecision: bool, prec: nat, upper: bool,
      negative: bool)

  // ---------- numerals ----------

  function DigitChar(d: nat, upper: bool): (c: char)
    requires d < 16
  {
    if d < 10 then '0' + d as char else (if upper then 'A' else 'a') + (d - 10) as char
  }

  /** The digits of n, most significant first. */
  function Numeral(base: nat, n: nat, upper: bool): (r: seq<char>)
    requires base in {10, 16}
    ensures |r| >= 1
    decreases n
  {
    if n < base then [DigitChar(n, upper)] else Numeral(base, n / base, upper) + [DigitChar(n % base, upper)]
  }

  function DigitValue(c: char): (d: nat)
    ensures d < 16
  {
    if '0' <= c <= '9' then c as int - '0' as int
    else if 'a' <= c <= 'f' then c as int - 'a' as int + 10
    else if 'A' <= c <= 'F' then c as int - 'A' as int + 10
    else 0
  }

  predicate IsDigitOf(c: char, base: nat) {
    '0' <= c <= '9' || (base == 16 && ('a' <= c <= 'f' || 'A' <= c <= 'F'))
  }

  /** The number that a string of digits denotes. */
  function Value(base: nat, s: seq<char>): nat {
    if s == [] then 0 else Value(base, s[..|s| - 1]) * base + DigitValue(s[|s| - 1])
  }

  /** A numeral denotes its argument. */
  lemma {:induction false} NumeralDenotes(base: nat, n: nat, upper: bool)
    requires base in {10, 16}
    ensures Value(base, Numeral(base, n, upper)) == n
    decreases n
  {
    var r := Numeral(base, n, upper);
    DigitDenotes(n % base, upper);
    if n < base {
      assert r[..0] == [];
    } else {
      NumeralDenotes(base, n / base, upper);
      assert r[..|r| - 1] == Numeral(base, n / base, upper);
    }
  }

  lemma DigitDenotes(d: nat, upper: bool)
    requires d < 16
    ensures DigitValue(DigitChar(d, upper)) == d
  {
  }

  const LOWER_DIGITS: string := "0123456789abcdef"
  const UPPER_DIGITS: string := "0123456789ABCDEF"

  lemma DigitIsFromTable(d: nat, upper: bool)
    requires d < 16
    ensures DigitChar(d, upper) == if upper then UPPER_DIGITS[d] else LOWER_DIGITS[d]
  {
  }

  /** A digit in the letter case asked for. */
  predicate InCase(c: char, upper: bool) {
    '0' <= c <= '9' || if upper then 'A' <= c <= 'F' else 'a' <= c <= 'f'
  }

  /** Numerals have no letter of the other case. */
  lemma {:induction false} NumeralCase(base: nat, n: nat, upper: bool)
    requires base in {10, 16}
    ensures forall i :: 0 <= i < |Numeral(base, n, upper)| ==> InCase(Numeral(base, n, upper)[i], upper)
    decreases n
  {
    if n >= base {
      NumeralCase(base, n / base, upper);
    }
  }

  predicate DigitsOf(s: seq<char>, base: nat) {
    forall i :: 0 <= i < |s| ==> IsDigitOf(s[i], base)
  }

  /** It consists of digits of its base, without a leading zero unless it is zero. */
  lemma {:induction false} NumeralDigits(base: nat, n: nat, upper: bool)
    requires base in {10, 16}
    ensures DigitsOf(Numeral(base, n, upper), base) && (n > 0 ==> Numeral(base, n, upper)[0] != '0')
    decreases n
  {
    if n >= base {
      NumeralDigits(base, n / base, upper);
    }
  }

  function Power(base: nat, k: nat): nat {
    if k == 0 then 1 else base * Power(base, k - 1)
  }

  lemma {:induction false} NumeralLength(base: nat, n: nat, upper: bool, k: nat)
    requires base in {10, 16} && n < Power(base, k) && 0 < k
    ensures |Numeral(base, n, upper)| <= k
    decreases k
  {
    if n >= base {
      assert k > 1;
      assert n / base < Power(base, k - 1);
      NumeralLength(base, n / base, upper, k - 1);
    }
  }

  /** A 32-bit number has at most ten digits. */
  lemma WordNumeralLength(base: nat, n: word, upper: bool)
    requires base in {10, 16}
    ensures |Numeral(base, n, upper)| <= 10
  {
    if base == 10 {
      assert Power(10, 5) == 100_000 && Power(10, 10) == 10_000_000_000;
    } else {
      assert Power(16, 5) == 0x10_0000 && Power(16, 10) == 0x100_0000_0000;
    }
    NumeralLength(base, n, upper, 10);
  }

  // ---------- what is printed ----------

  function PadLeft(s: seq<char>, c: char, n: nat): (r: seq<char>)
    ensures |r| == if |s| < n then n else |s|
  {
    if |s| < n then Repeat(c, n - |s|) + s else s
  }

  function Min(a: nat, b: nat): nat {
    if a < b then a else b
  }

  /** The text of a number. Padding to the left stops one short of the buffer size; what is missing to the width
      then follows as spaces. */
  function NumberText(spec: Spec, digits: seq<char>): (r: seq<char>) {
    var b := ZeroExtended(spec, digits);
    var c := if spec.negative then ['-'] + b else b;
    var d := if spec.leftJustified then c else PadLeft(c, ' ', Min(spec.width, BUFFER_SIZE - 1));
    Widened(d, spec.width)
  }

  /** The digits with the zeros that the precision and the zero flag ask for. */
  function ZeroExtended(spec: Spec, digits: seq<char>): (r: seq<char>)
    ensures |digits| < BUFFER_SIZE ==> |r| < BUFFER_SIZE
  {
    var a := if spec.hasPrecision then PadLeft(digits, '0', Min(spec.prec, BUFFER_SIZE - 1)) else digits;
    if spec.zeroPadded then PadLeft(a, '0', Min(spec.width, BUFFER_SIZE - 1)) else a
  }

  /** Spaces added behind, up to the width. */
  function Widened(s: seq<char>, width: nat): (r: seq<char>)
    ensures |r| == if |s| < width then width else |s|
  {
    s + Repeat(' ', if |s| < width then width - |s| else 0)
  }

  /** The text of a string: the precision-limited prefix, padded to the width on the side the flag says. */
  function StringText(spec: Spec, s: seq<char>): (r: seq<char>) {
    var body := if spec.hasPrecision && spec.prec < |s| then s[..spec.prec] else s;
    var pad := Repeat(' ', if |body| < spec.width then spec.width - |body| else 0);
    if spec.leftJustified then body + pad else pad + body
  }

  function Missing(width: nat, n: nat): nat {
    if n < width then width - n else 0
  }

  function SignText(negative: bool): seq<char> {
    if negative then ['-'] else []
  }

  /** Spaces, sign, zeros, digits, spaces. */
  function Field(before: nat, negative: bool, zeros: nat, digits: seq<char>, after: nat): seq<char> {
    Repeat(' ', before) + (SignText(negative) + (Repeat('0', zeros) + digits)) + Repeat(' ', after)
  }

  /** How many digits are printed, leading zeros included, for a numeral of n digits. */
  function DigitCount(spec: Spec, n: nat): (r: nat)
    ensures r >= n
  {
    var a := if spec.hasPrecision then n + Missing(Min(spec.prec, BUFFER_SIZE - 1), n) else n;
    if spec.zeroPadded then a + Missing(Min(spec.width, BUFFER_SIZE - 1), a) else a
  }

  /** The exact shape of a printed number, for every width and precision: as many zeros as precision and zero flag ask
      for, up to 63 digits in all; the sign in front of them; then spaces up to the width, on the left only up to 63
      characters, and what is still missing on the right. */
  lemma NumberTextShape(spec: Spec, digits: seq<char>)
    ensures var count := DigitCount(spec, |digits|);
            var signed := |SignText(spec.negative)| + count;
            var before := if spec.leftJustified then 0 else Missing(Min(spec.width, BUFFER_SIZE - 1), signed);
            NumberText(spec, digits)
              == Field(before, spec.negative, count - |digits|, digits, Missing(spec.width, before + signed))
  {
    hide PadLeft, Repeat, Widened, ZeroExtended, DigitCount, SignText, Missing;
    var b := ZeroExtended(spec, digits);
    ZerosThenDigits(spec, digits);
    var c := SignText(spec.negative) + b;
    SignPrefix(spec.negative, b);
    Framed(spec.leftJustified, c, Min(spec.width, BUFFER_SIZE - 1), spec.width);
  }

  lemma SignPrefix(negative: bool, b: seq<char>)
    ensures SignText(negative) + b == if negative then ['-'] + b else b
  {
    assert [] + b == b;
  }

  /** A hexadecimal number is printed with spaces, digits and letters of the case asked for only. */
  lemma HexTextCase(spec: Spec, arg: word)
    requires !spec.negative
    ensures var text := NumberText(spec, Numeral(16, arg, spec.upper));
            forall i :: 0 <= i < |text| ==> text[i] == ' ' || InCase(text[i], spec.upper)
  {
    hide Numeral, NumberText;
    NumberTextShape(spec, Numeral(16, arg, spec.upper));
    NumeralCase(16, arg, spec.upper);
  }

  /** Its length is the larger of the width and the signed digits, except that a zero-padded negative number gets
      its sign on top of the full width. */
  lemma NumberTextLength(spec: Spec, digits: seq<char>)
    requires 1 <= |digits| <= 10 && spec.width < BUFFER_SIZE && spec.prec < BUFFER_SIZE
    ensures var sign := if spec.negative then 1 else 0;
            var body := if spec.hasPrecision && |digits| < spec.prec then spec.prec else |digits|;
            |NumberText(spec, digits)| ==
              if spec.zeroPadded && spec.negative && body <= spec.width then spec.width + 1
              else if spec.width < sign + body then sign + body else spec.width
  {
    hide PadLeft, Repeat, Widened;
  }

  lemma Framed(left: bool, c: seq<char>, room: nat, width: nat)
    requires room <= width
    ensures var before := if left then 0 else Missing(room, |c|);
            Widened(if left then c else PadLeft(c, ' ', room), width)
              == Repeat(' ', before) + c + Repeat(' ', Missing(width, before + |c|))
  {
    assert Repeat(' ', 0) + c == c;
  }

  lemma ZerosThenDigits(spec: Spec, digits: seq<char>)
    ensures var count := DigitCount(spec, |digits|);
            ZeroExtended(spec, digits) == Repeat('0', count - |digits|) + digits
  {
    var a := if spec.hasPrecision then PadLeft(digits, '0', Min(spec.prec, BUFFER_SIZE - 1)) else digits;
    assert a == Repeat('0', |a| - |digits|) + digits;
  }

  // ---------- the sink ----------

  /** How many of total characters a buffer of the given capacity stores. */
  function Stored(total: nat, capacity: int): (n: nat) {
    if total < capacity then total else if capacity <= 0 then 0 else capacity - 1
  }

  class Printer {
    const out: array<char>
    ghost const initial: seq<char>
    const capacity: int
    var outptr: nat
    var total: nat
    ghost var emitted: seq<char>

    ghost predicate Valid()
      reads this, out
    {
      && total == |emitted| && outptr == Stored(total, capacity)
      && outptr <= out.Length == |initial|
      && out[..outptr] == emitted[..outptr] && out[outptr..] == initial[outptr..]
    }

    /** The caller's buffer has room for n more characters and the terminating NUL. */
    ghost predicate Room(n: nat)
      reads this
    {
      Stored(|emitted| + n, capacity) < out.Length
    }

    constructor (out: array<char>, capacity: int)
      ensures Valid() && emitted == [] && this.out == out && this.capacity == capacity && initial == out[..]
    {
      initial := out[..];
      this.out, this.capacity, outptr, total, emitted := out, capacity, 0, 0, [];
    }

    method PutChar(c: char)
      requires Valid() && Room(1)
      modifies this, out
      ensures Valid() && emitted == old(emitted) + [c]
    {
      total := total + 1;
      emitted := emitted + [c];
      if total < capacity {
        out[outptr] := c;
        outptr := outptr + 1;
      }
    }

    method PutSpaces(n: nat)
      requires Valid() && Room(n)
      modifies this, out
      ensures Valid() && emitted == old(emitted) + Repeat(' ', n)
    {
      for i := 0 to n
        invariant Valid() && Room(n - i) && emitted == old(emitted) + Repeat(' ', i)
      {
        PutChar(' ');
      }
    }

    /** The tail that FormatHex and FormatInt share: the text in the buffer, then spaces up to the width. */
    method PutBuffer(buffer: array<char>, p: int, width: nat, ghost text: seq<char>)
      requires Valid() && Holds(buffer, p, text) && buffer != out && Room(|Widened(text, width)|)
      modifies this, out
      ensures Valid() && emitted == old(emitted) + Widened(text, width)
    {
      hide Repeat, Printer.Valid;
      var spaces := if BUFFER_SIZE - 1 - p < width then width - (BUFFER_SIZE - 1 - p) else 0;
      Concatenated(emitted, text, Repeat(' ', spaces));
      var i := p + 1;
      ghost var done := 0;
      while i < BUFFER_SIZE
        invariant 0 <= done <= |text| && i == p + 1 + done && Valid() && Room(|text| - done + spaces)
        invariant emitted == old(emitted) + text[..done]
        invariant Holds(buffer, p, text)
      {
        HoldsAt(buffer, p, text, done);
        assert text[..done] + [text[done]] == text[..done + 1];
        PutChar(buffer[i]);
        i, done := i + 1, done + 1;
      }
      assert text[..done] == text;
      PutSpaces(spaces);
    }

    method FormatHex(spec: Spec, arg: word)
      requires Valid() && !spec.negative && Room(|NumberText(spec, Numeral(16, arg, spec.upper))|)
      modifies this, out
      ensures Valid() && emitted == old(emitted) + NumberText(spec, Numeral(16, arg, spec.upper))
      ensures forall i :: old(|emitted|) <= i < |emitted| ==> emitted[i] == ' ' || InCase(emitted[i], spec.upper)
    {
      HexTextCase(spec, arg);
      hide InCase, NumberText, Numeral, PadLeft, Repeat, Holds, Widened, ZeroExtended;
      var buffer := new char[BUFFER_SIZE];
      var p := FillDigits(buffer, 16, arg, spec.upper);
      ghost var text;
      p, text := ExtendZeros(buffer, p, spec, Numeral(16, arg, spec.upper));
      if !spec.leftJustified {
        p, text := PadBuffer(buffer, p, spec.width, ' ', text);
      }
      PutBuffer(buffer, p, spec.width, text);
    }

    method FormatInt(spec: Spec, arg: word)
      requires Valid() && Room(|NumberText(spec, Numeral(10, arg, false))|)
      modifies this, out
      ensures Valid() && emitted == old(emitted) + NumberText(spec, Numeral(10, arg, false))
    {
      hide Numeral, PadLeft, Repeat, Holds, Widened, ZeroExtended;
      var buffer := new char[BUFFER_SIZE];
      var p := FillDigits(buffer, 10, arg, false);
      ghost var text;
      p, text := ExtendZeros(buffer, p, spec, Numeral(10, arg, false));
      if spec.negative {
        p, text := PutSign(buffer, p, text);
      }
      if !spec.leftJustified {
        p, text := PadBuffer(buffer, p, spec.width, ' ', text);
      }
      PutBuffer(buffer, p, spec.width, text);
    }

    /** The copy loop of FormatString: it stops at the end of the string or when the precision is used up. */
    method PutPrefix(spec: Spec, s: seq<char>, ghost j: nat)
      requires Valid() && j == (if spec.hasPrecision && spec.prec < |s| then spec.prec else |s|) && Room(j)
      modifies this, out
      ensures Valid() && emitted == old(emitted) + s[..j]
    {
      hide Valid;
      var i := 0;
      var prec: int := spec.prec;
      while (!spec.hasPrecision || prec != 0) && i < |s|
        invariant 0 <= i <= j && prec == spec.prec - i
        invariant Valid() && Room(j - i) && emitted == old(emitted) + s[..i]
      {
        assert s[..i] + [s[i]] == s[..i + 1];
        PutChar(s[i]);
        i := i + 1;
        prec := prec - 1;
      }
    }

    method FormatString(spec: Spec, s: seq<char>)
      requires Valid() && Room(|StringText(spec, s)|)
      modifies this, out
      ensures Valid() && emitted == old(emitted) + StringText(spec, s)
    {
      hide Repeat, StringText, Printer.Valid;
      StringTextParts(spec, s);
      var j := |s|;
      if spec.hasPrecision && spec.prec < j {
        j := spec.prec;
      }
      var pad := if j < spec.width then spec.width - j else 0;
      Concatenated(emitted, s[..j], Repeat(' ', pad));
      if !spec.leftJustified {
        PutSpaces(pad);
      }
      PutPrefix(spec, s, j);
      if spec.leftJustified {
        PutSpaces(pad);
      }
    }
  }

  lemma StringTextParts(spec: Spec, s: seq<char>)
    ensures var j := if spec.hasPrecision && spec.prec < |s| then spec.prec else |s|;
            var pad := Repeat(' ', if j < spec.width then spec.width - j else 0);
            StringText(spec, s) == if spec.leftJustified then s[..j] + pad else pad + s[..j]
  {
    assert s[..|s|] == s;
  }

  lemma Concatenated(a: seq<char>, b: seq<char>, c: seq<char>)
    ensures a + b + c == a + (b + c) && a + c + b == a + (c + b)
  {
  }

  lemma NumeralStep(base: nat, n: nat, upper: bool)
    requires base in {10, 16}
    ensures Numeral(base, n, upper)
         == (if n / base == 0 then [] else Numeral(base, n / base, upper)) + [DigitChar(n % base, upper)]
  {
  }

  /** The text stands at the end of the buffer, and p is the next free place to its left. */
  ghost predicate Holds(buffer: array<char>, p: int, text: seq<char>)
    reads buffer
  {
    buffer.Length == BUFFER_SIZE && |text| <= BUFFER_SIZE && p == BUFFER_SIZE - 1 - |text| && buffer[p + 1..] == text
  }

  lemma HoldsAt(buffer: array<char>, p: int, text: seq<char>, k: nat)
    requires Holds(buffer, p, text) && k < |text|
    ensures 0 <= p + 1 + k < buffer.Length && buffer[p + 1 + k] == text[k]
  {
    assert buffer[p + 1..][k] == text[k];
  }

  method PutLeft(buffer: array<char>, p: int, c: char, ghost text: seq<char>)
    requires Holds(buffer, p, text) && 0 <= p
    modifies buffer
    ensures Holds(buffer, p - 1, [c] + text)
  {
    buffer[p] := c;
  }

  /** The digit loops: least significant digit at the end of the buffer, then leftwards. */
  method FillDigits(buffer: array<char>, base: nat, n: word, upper: bool) returns (p: int)
    requires buffer.Length == BUFFER_SIZE && base in {10, 16}
    modifies buffer
    ensures Holds(buffer, p, Numeral(base, n, upper)) && p == BUFFER_SIZE - 1 - |Numeral(base, n, upper)|
            && 53 <= p < 63
  {
    hide Numeral, DigitChar, Holds;
    HoldsNothing(buffer);
    WordNumeralLength(base, n, upper);
    p := BUFFER_SIZE - 1;
    ghost var tail: seq<char> := [];
    if n == 0 {
      ZeroNumeral(base, upper);
      assert ['0'] + tail == ['0'];
      PutLeft(buffer, p, '0', tail);
      p := p - 1;
      return;
    }
    var arg := n;
    assert Numeral(base, n, upper) + tail == Numeral(base, n, upper);
    while arg != 0 && p > 0
      invariant p == BUFFER_SIZE - 1 - |tail|
      invariant 0 <= arg && Holds(buffer, p, tail) && (arg == 0 ==> |tail| > 0)
      invariant Numeral(base, n, upper) == (if arg == 0 then [] else Numeral(base, arg, upper)) + tail
      decreases arg
    {
      NextDigit(base, n, arg, upper, tail);
      var c := DigitChar(arg % base, upper);
      PutLeft(buffer, p, c, tail);
      p := p - 1;
      tail := [c] + tail;
      arg := arg / base;
    }
    assert arg == 0 && [] + tail == tail;
  }

  /** Moving the last digit of what is left to the front of those written. */
  lemma NextDigit(base: nat, n: nat, arg: nat, upper: bool, tail: seq<char>)
    requires base in {10, 16} && 0 < arg && Numeral(base, n, upper) == Numeral(base, arg, upper) + tail
    ensures arg / base < arg && arg % base < 16
    ensures Numeral(base, n, upper)
         == (if arg / base == 0 then [] else Numeral(base, arg / base, upper)) + ([DigitChar(arg % base, upper)] + tail)
  {
    hide Numeral, DigitChar;
    NumeralStep(base, arg, upper);
  }

  lemma ZeroNumeral(base: nat, upper: bool)
    requires base in {10, 16}
    ensures Numeral(base, 0, upper) == ['0']
  {
  }

  method PutSign(buffer: array<char>, start: int, ghost text: seq<char>) returns (p: int, ghost text': seq<char>)
    requires Holds(buffer, start, text) && 0 <= start
    modifies buffer
    ensures text' == ['-'] + text && Holds(buffer, p, text')
  {
    PutLeft(buffer, start, '-', text);
    p, text' := start - 1, ['-'] + text;
  }

  /** A padding loop: fill leftwards until the target length is reached or the first place of the buffer is next. */
  method PadBuffer(buffer: array<char>, start: int, target: nat, c: char, ghost text: seq<char>)
    returns (p: int, ghost text': seq<char>)
    requires Holds(buffer, start, text)
    modifies buffer
    ensures text' == PadLeft(text, c, Min(target, BUFFER_SIZE - 1)) && Holds(buffer, p, text')
    ensures p == BUFFER_SIZE - 1 - |text'|
  {
    hide Repeat, Holds;
    HeldLength(buffer, start, text);
    p, text' := start, text;
    ghost var pad: seq<char> := [];
    while BUFFER_SIZE - 1 - p < target && p > 0
      invariant Holds(buffer, p, text') && text' == pad + text && p == BUFFER_SIZE - 1 - |text'|
      invariant forall i :: 0 <= i < |pad| ==> pad[i] == c
      invariant pad == [] || |text'| <= Min(target, BUFFER_SIZE - 1)
      decreases p
    {
      PutLeft(buffer, p, c, text');
      assert [c] + (pad + text) == ([c] + pad) + text;
      p, pad, text' := p - 1, [c] + pad, [c] + text';
    }
    assert pad == Repeat(c, |pad|);
  }

  /** The zeros of FormatHex and FormatInt: up to the precision, then up to the width if that is zero-padded. */
  method ExtendZeros(buffer: array<char>, start: int, spec: Spec, ghost text: seq<char>)
    returns (p: int, ghost text': seq<char>)
    requires Holds(buffer, start, text) && |text| < BUFFER_SIZE
    modifies buffer
    ensures text' == ZeroExtended(spec, text) && Holds(buffer, p, text') && 0 <= p
  {
    hide PadLeft, Holds;
    HeldLength(buffer, start, text);
    p, text' := start, text;
    if spec.hasPrecision {
      p, text' := PadBuffer(buffer, p, spec.prec, '0', text');
    }
    if spec.zeroPadded {
      p, text' := PadBuffer(buffer, p, spec.width, '0', text');
    }
  }

  lemma HoldsNothing(buffer: array<char>)
    requires buffer.Length == BUFFER_SIZE
    ensures Holds(buffer, BUFFER_SIZE - 1, [])
  {
  }

  lemma HeldLength(buffer: array<char>, p: int, text: seq<char>)
    requires Holds(buffer, p, text)
    ensures p == BUFFER_SIZE - 1 - |text| && |text| <= BUFFER_SIZE
  {
  }
}
