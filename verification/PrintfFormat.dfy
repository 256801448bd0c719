/** Format strings: what Vprintf makes of them, and the bounded and unbounded printing functions. */
module PrintfFormat {
  import opened Printf
  import opened Words

  /** An argument as the callee fetches it: a 32-bit number, read as signed or unsigned, or a string. */
  datatype Arg = Number(v: word) | Text(s: seq<char>)

  predicate IsDigit(c: char) {
    '0' <= c <= '9'
  }

  /** A run of decimal digits from position i on: its value, added to acc, and where it ends. */
  function ScanNumber(fmt: seq<char>, i: nat, acc: nat): (r: (nat, nat))
    requires i <= |fmt|
    ensures i <= r.1 <= |fmt|
    decreases |fmt| - i
  {
    if IsDigit(At(fmt, i)) then ScanNumber(fmt, i + 1, acc * 10 + DigitValue(fmt[i])) else (acc, i)
  }

  /** A directive behind its percent sign: flags, width, precision, where the conversion character is, and the
      arguments left. */
  datatype Parsed = Parsed(spec: Spec, end: nat, args: seq<Arg>)

  function Magnitude(v: word): (m: word)
    ensures v < 0x8000_0000 ==> m == v
  {
    if v < 0x8000_0000 then v else 0x1_0000_0000 - v
  }

  function ParseDirective(fmt: seq<char>, start: nat, args: seq<Arg>): (r: Option<Parsed>)
    requires start <= |fmt|
    ensures r.Some? ==> start <= r.value.end <= |fmt|
  {
    var zero := At(fmt, start) == '0';
    var left := At(fmt, start) == '-';
    var (width, i) := ScanNumber(fmt, if zero || left then start + 1 else start, 0);
    if At(fmt, i) != '.' then
      Some(Parsed(Spec(zero, left, width, false, 0, false, false), if At(fmt, i) == 'l' then i + 1 else i, args))
    else if At(fmt, i + 1) == '*' then
      if args == [] || args[0].Text? then None
      else
        var j := i + 2;
        Some(Parsed(Spec(zero, left, width, true, Magnitude(args[0].v), false, false),
                    if At(fmt, j) == 'l' then j + 1 else j, args[1..]))
    else
      var (prec, j) := ScanNumber(fmt, i + 1, 0);
      Some(Parsed(Spec(zero, left, width, true, prec, false, false), if At(fmt, j) == 'l' then j + 1 else j, args))
  }

  const CONVERSIONS: seq<char> := ['c', 'd', 'i', 'u', 'x', 'X', 's', 'p']

  const ADDRESS_SPEC := Spec(true, false, 8, false, 0, false, false)

  /** The text of one conversion; None when the argument it fetches is missing or of the other kind. */
  function Convert(spec: Spec, conv: char, arg: Arg): (r: Option<seq<char>>) {
    match arg
    case Text(s) => if conv == 's' then Some(StringText(spec, s)) else None
    case Number(v) =>
      if conv == 'c' then Some([(v % 0x100) as char])
      else if conv == 'd' || conv == 'i' then Some(NumberText(spec.(negative := v >= 0x8000_0000),
          Numeral(10, Magnitude(v), false)))
      else if conv == 'u' then Some(NumberText(spec, Numeral(10, v, false)))
      else if conv == 'x' then Some(NumberText(spec, Numeral(16, v, false)))
      else if conv == 'X' then Some(NumberText(spec.(upper := true), Numeral(16, v, true)))
      else if conv == 'p' then Some(['0', 'x'] + NumberText(ADDRESS_SPEC, Numeral(16, v, false)))
      else None
  }

  /** Everything Vprintf prints for the format from position i on; None when the arguments do not fit the format. */
  function Render(fmt: seq<char>, i: nat, args: seq<Arg>): (r: Option<seq<char>>)
    requires i <= |fmt|
    decreases |fmt| - i
  {
    if i == |fmt| then Some([])
    else if fmt[i] != '%' then Prepend([fmt[i]], Render(fmt, i + 1, args))
    else
      match ParseDirective(fmt, i + 1, args)
      case None => None
      case Some(d) =>
        var conv := At(fmt, d.end);
        if conv !in CONVERSIONS then Prepend([conv], Render(fmt, d.end, d.args))
        else if d.args == [] then None
        else
          match Convert(d.spec, conv, d.args[0])
          case None => None
          case Some(text) => Prepend(text, Render(fmt, d.end + 1, d.args[1..]))
  }

  function Prepend(s: seq<char>, r: Option<seq<char>>): Option<seq<char>> {
    match r
    case None => None
    case Some(t) => Some(s + t)
  }

  // ---------- the printing functions ----------

  /** The digit loops of the format parser. */
  method ReadNumber(fmt: seq<char>, start: nat) returns (n: nat, i: nat)
    requires start <= |fmt|
    ensures (n, i) == ScanNumber(fmt, start, 0) && i <= |fmt|
  {
    n, i := 0, start;
    while IsDigit(At(fmt, i))
      invariant start <= i <= |fmt| && ScanNumber(fmt, i, n) == ScanNumber(fmt, start, 0)
      decreases |fmt| - i
    {
      n := n * 10 + DigitValue(fmt[i]);
      i := i + 1;
    }
  }

  method ReadDirective(fmt: seq<char>, start: nat, args: seq<Arg>) returns (spec: Spec, i: nat, args': seq<Arg>)
    requires start <= |fmt| && ParseDirective(fmt, start, args).Some?
    ensures ParseDirective(fmt, start, args) == Some(Parsed(spec, i, args'))
  {
    hide ScanNumber;
    i, args' := start, args;
    var zero, left, width, prec := false, false, 0, 0;
    if At(fmt, i) == '0' {
      zero := true;
      i := i + 1;
    } else if At(fmt, i) == '-' {
      left := true;
      i := i + 1;
    }
    width, i := ReadNumber(fmt, i);
    var hasPrecision := At(fmt, i) == '.';
    if hasPrecision {
      i := i + 1;
      if At(fmt, i) == '*' {
        i := i + 1;
        prec, args' := Magnitude(args[0].v), args[1..];
      } else {
        prec, i := ReadNumber(fmt, i);
      }
    }
    if At(fmt, i) == 'l' {
      i := i + 1;
    }
    spec := Spec(zero, left, width, hasPrecision, prec, false, false);
  }

  method PrintConversion(pr: Printer, spec: Spec, conv: char, arg: Arg)
    requires pr.Valid() && conv in CONVERSIONS && !spec.negative && !spec.upper
    requires Convert(spec, conv, arg).Some? && pr.Room(|Convert(spec, conv, arg).value|)
    modifies pr, pr.out
    ensures pr.Valid() && pr.emitted == old(pr.emitted) + Convert(spec, conv, arg).value
  {
    hide NumberText, StringText, Numeral;
    if conv == 'c' {
      pr.PutChar((arg.v % 0x100) as char);
    } else if conv == 'd' || conv == 'i' {
      pr.FormatInt(spec.(negative := arg.v >= 0x8000_0000), Magnitude(arg.v));
    } else if conv == 'p' {
      assert old(pr.emitted) + ['0'] + ['x'] + NumberText(ADDRESS_SPEC, Numeral(16, arg.v, false))
          == old(pr.emitted) + (['0', 'x'] + NumberText(ADDRESS_SPEC, Numeral(16, arg.v, false)));
      pr.PutChar('0');
      pr.PutChar('x');
      pr.FormatHex(ADDRESS_SPEC, arg.v);
    } else if conv == 's' {
      pr.FormatString(spec, arg.s);
    } else if conv == 'u' {
      pr.FormatInt(spec, arg.v);
    } else if conv == 'X' {
      pr.FormatHex(spec.(upper := true), arg.v);
    } else {
      pr.FormatHex(spec, arg.v);
    }
  }

  lemma ParsedPlain(fmt: seq<char>, start: nat, args: seq<Arg>)
    requires start <= |fmt| && ParseDirective(fmt, start, args).Some?
    ensures !ParseDirective(fmt, start, args).value.spec.negative && !ParseDirective(fmt, start, args).value.spec.upper
  {
    hide ScanNumber;
  }

  method Vprintf(pr: Printer, fmt: seq<char>, args: seq<Arg>) returns (total: nat)
    requires pr.Valid() && pr.emitted == [] && Render(fmt, 0, args).Some? && pr.Room(|Render(fmt, 0, args).value|)
    modifies pr, pr.out
    ensures pr.Valid() && pr.emitted == Render(fmt, 0, args).value && total == |pr.emitted|
  {
    hide ParseDirective, Convert;
    ghost var full := Render(fmt, 0, args).value;
    var i, rest := 0, args;
    while i < |fmt|
      invariant i <= |fmt| && pr.Valid() && Stored(|full|, pr.capacity) < pr.out.Length
      invariant Render(fmt, i, rest).Some? && pr.emitted + Render(fmt, i, rest).value == full
      decreases |fmt| - i
    {
      ghost var before := pr.emitted;
      if fmt[i] != '%' {
        assert before + ([fmt[i]] + Render(fmt, i + 1, rest).value)
            == before + [fmt[i]] + Render(fmt, i + 1, rest).value;
        pr.PutChar(fmt[i]);
        i := i + 1;
      } else {
        ParsedPlain(fmt, i + 1, rest);
        var spec, end, args' := ReadDirective(fmt, i + 1, rest);
        var conv := At(fmt, end);
        if conv in CONVERSIONS {
          ghost var text := Convert(spec, conv, args'[0]).value;
          assert before + (text + Render(fmt, end + 1, args'[1..]).value)
              == before + text + Render(fmt, end + 1, args'[1..]).value;
          PrintConversion(pr, spec, conv, args'[0]);
          i, rest := end + 1, args'[1..];
        } else {
          assert before + ([conv] + Render(fmt, end, args').value) == before + [conv] + Render(fmt, end, args').value;
          pr.PutChar(conv);
          i, rest := end, args';
        }
      }
    }
    total := pr.total;
  }

  /** The size as the int that Vprintf takes it for. */
  function AsInt(size: word): int {
    if size < 0x8000_0000 then size else size - 0x1_0000_0000
  }

  /** Of the unbounded output, exactly the first `Stored` characters are stored, then a NUL, and nothing behind it
      changes; the result is the unbounded length. */
  method Vsnprintf(str: array<char>, size: word, fmt: seq<char>, args: seq<Arg>) returns (n: nat)
    requires 1 <= size <= str.Length && Render(fmt, 0, args).Some?
    modifies str
    ensures var text := Render(fmt, 0, args).value;
            var k := Stored(|text|, AsInt(size));
            n == |text| && k < size && str[..] == text[..k] + [NUL] + old(str[..])[k + 1..]
    // For a size that an int holds, that is the whole text, or as much of it as leaves room for the NUL.
    ensures size <= 0x7FFF_FFFF ==>
              var text := Render(fmt, 0, args).value;
              str[..] == if |text| < size then text + [NUL] + old(str[..])[|text| + 1..]
                         else text[..size - 1] + [NUL] + old(str[..])[size..]
    // For a larger size nothing but the NUL is stored.
    ensures size >= 0x8000_0000 ==> str[..] == [NUL] + old(str[..])[1..]
  {
    hide Render;
    ghost var before := str[..];
    var pr := new Printer(str, AsInt(size));
    n := Vprintf(pr, fmt, args);
    str[pr.outptr] := NUL;
    assert before[pr.outptr..][1..] == before[pr.outptr + 1..];
    StoredPart(Render(fmt, 0, args).value, size, before, str[..]);
  }

  lemma StoredPart(text: seq<char>, size: word, before: seq<char>, after: seq<char>)
    requires 1 <= size <= |before|
    requires var k := Stored(|text|, AsInt(size)); after == text[..k] + [NUL] + before[k + 1..]
    ensures size <= 0x7FFF_FFFF ==>
              after == if |text| < size then text + [NUL] + before[|text| + 1..]
                       else text[..size - 1] + [NUL] + before[size..]
    ensures size >= 0x8000_0000 ==> after == [NUL] + before[1..]
  {
    if |text| < size <= 0x7FFF_FFFF {
      assert text[..|text|] == text;
    }
    assert text[..0] + [NUL] == [NUL];
  }

  const INT_MAX: int := 0x7FFF_FFFF

  method Sprintf(str: array<char>, fmt: seq<char>, args: seq<Arg>) returns (n: nat)
    requires Render(fmt, 0, args).Some? && Stored(|Render(fmt, 0, args).value|, INT_MAX) < str.Length
    modifies str
    ensures var text := Render(fmt, 0, args).value;
            var k := Stored(|text|, INT_MAX);
            n == |text| && str[..] == text[..k] + [NUL] + old(str[..])[k + 1..]
    // A text shorter than the largest int is stored whole, a longer one up to there.
    ensures var text := Render(fmt, 0, args).value;
            str[..] == if |text| < 0x7FFF_FFFF then text + [NUL] + old(str[..])[|text| + 1..]
                       else text[..0x7FFF_FFFE] + [NUL] + old(str[..])[0x7FFF_FFFF..]
  {
    hide Render;
    ghost var before := str[..];
    var pr := new Printer(str, INT_MAX);
    n := Vprintf(pr, fmt, args);
    str[pr.outptr] := NUL;
    assert before[pr.outptr..][1..] == before[pr.outptr + 1..];
    WholeText(Render(fmt, 0, args).value);
  }

  lemma WholeText(text: seq<char>)
    ensures Stored(|text|, INT_MAX) == if |text| < 0x7FFF_FFFF then |text| else 0x7FFF_FFFE
    ensures text[..|text|] == text
  {
  }

  /** The stored count is the promised min(total, size - 1) exactly for the sizes that an int holds, or when there
      is nothing to store. */
  lemma StoredIsPromisedIff(total: nat, size: word)
    requires 1 <= size
    ensures Stored(total, AsInt(size)) == Min(total, size - 1) <==> size < 0x8000_0000 || total == 0
  {
  }

  // ---------- formats written out of pieces ----------

  datatype Flag = NoFlag | Zero | Minus

  datatype Precision = NoPrecision | Fixed(n: nat) | Star

  datatype Piece = Literal(c: char) | Directive(flag: Flag, width: nat, prec: Precision, long: bool, conv: char)

  predicate Proper(p: Piece) {
    match p
    case Literal(c) => c != '%'
    case Directive(_, _, _, _, conv) => conv in CONVERSIONS
  }

  function FlagText(flag: Flag): seq<char> {
    match flag
    case NoFlag => []
    case Zero => ['0']
    case Minus => ['-']
  }

  function WidthText(width: nat): seq<char> {
    if width == 0 then [] else Numeral(10, width, false)
  }

  function PrecisionText(prec: Precision): seq<char> {
    match prec
    case NoPrecision => []
    case Fixed(n) => ['.'] + Numeral(10, n, false)
    case Star => ['.', '*']
  }

  function PieceText(p: Piece): seq<char> {
    match p
    case Literal(c) => [c]
    case Directive(flag, width, prec, long, conv) =>
      ['%'] + (FlagText(flag) + (WidthText(width) + (PrecisionText(prec) + (LongText(long) + [conv]))))
  }

  function FormatOf(ps: seq<Piece>): seq<char> {
    if ps == [] then [] else PieceText(ps[0]) + FormatOf(ps[1..])
  }

  /** What the pieces print: each literal itself, each directive the conversion of the next argument. */
  function Meaning(ps: seq<Piece>, args: seq<Arg>): (r: Option<seq<char>>) {
    if ps == [] then Some([])
    else
      match ps[0]
      case Literal(c) => Prepend([c], Meaning(ps[1..], args))
      case Directive(flag, width, prec, _, conv) =>
        if prec.Star? && (args == [] || args[0].Text?) then None
        else
          var args' := if prec.Star? then args[1..] else args;
          var n := match prec case NoPrecision => 0 case Fixed(n) => n case Star => Magnitude(args[0].v);
          var spec := Spec(flag == Zero, flag == Minus, width, prec != NoPrecision, n, false, false);
          if args' == [] then None
          else
            match Convert(spec, conv, args'[0])
            case None => None
            case Some(text) => Prepend(text, Meaning(ps[1..], args'[1..]))
  }

  ghost predicate Reads(fmt: seq<char>, i: nat, s: seq<char>) {
    i + |s| <= |fmt| && fmt[i..i + |s|] == s
  }

  lemma ReadsSplit(fmt: seq<char>, i: nat, s: seq<char>, t: seq<char>)
    requires Reads(fmt, i, s + t)
    ensures Reads(fmt, i, s) && Reads(fmt, i + |s|, t)
  {
    assert fmt[i..i + |s|] == (s + t)[..|s|];
    assert fmt[i + |s|..i + |s| + |t|] == (s + t)[|s|..];
  }

  lemma ReadsOne(fmt: seq<char>, i: nat, c: char)
    requires Reads(fmt, i, [c])
    ensures i < |fmt| && fmt[i] == c
  {
    assert fmt[i..i + 1][0] == fmt[i];
  }

  lemma {:induction false} ScanDigits(fmt: seq<char>, i: nat, s: seq<char>)
    requires Reads(fmt, i, s) && DigitsOf(s, 10)
    ensures ScanNumber(fmt, i, 0) == ScanNumber(fmt, i + |s|, Value(10, s))
    decreases |s|
  {
    if s != [] {
      var m := |s| - 1;
      ReadsSplit(fmt, i, s[..m], s[m..]);
      assert s == s[..m] + s[m..];
      ScanDigits(fmt, i, s[..m]);
      assert fmt[i + m] == s[m];
    }
  }

  /** A numeral is read back as its number when no digit follows. */
  lemma ScanNumeral(fmt: seq<char>, i: nat, n: nat)
    requires Reads(fmt, i, Numeral(10, n, false)) && !IsDigit(At(fmt, i + |Numeral(10, n, false)|))
    ensures ScanNumber(fmt, i, 0) == (n, i + |Numeral(10, n, false)|)
  {
    hide Numeral;
    NumeralDigits(10, n, false);
    NumeralDenotes(10, n, false);
    ScanDigits(fmt, i, Numeral(10, n, false));
  }

  lemma ScanWidth(fmt: seq<char>, i: nat, width: nat)
    requires Reads(fmt, i, WidthText(width)) && !IsDigit(At(fmt, i + |WidthText(width)|))
    ensures ScanNumber(fmt, i, 0) == (width, i + |WidthText(width)|)
  {
    if width > 0 {
      ScanNumeral(fmt, i, width);
    }
  }

  /** The specification and remaining arguments that the parser must find for a directive. */
  function Expected(p: Piece, end: nat, args: seq<Arg>): Option<Parsed>
    requires p.Directive?
  {
    var spec := Spec(p.flag == Zero, p.flag == Minus, p.width, p.prec != NoPrecision, 0, false, false);
    match p.prec
    case NoPrecision => Some(Parsed(spec, end, args))
    case Fixed(n) => Some(Parsed(spec.(prec := n), end, args))
    case Star =>
      if args == [] || args[0].Text? then None
      else Some(Parsed(spec.(prec := Magnitude(args[0].v)), end, args[1..]))
  }

  function LongText(long: bool): seq<char> {
    if long then ['l'] else []
  }

  /** What stands where in the text of a directive at position i: flag, width, precision, l, conversion. */
  ghost predicate LaidOut(fmt: seq<char>, p: Piece, flagAt: nat, widthAt: nat, precAt: nat, longAt: nat, end: nat)
    requires p.Directive?
  {
    && Reads(fmt, flagAt, FlagText(p.flag)) && widthAt == flagAt + |FlagText(p.flag)|
    && Reads(fmt, widthAt, WidthText(p.width)) && precAt == widthAt + |WidthText(p.width)|
    && Reads(fmt, precAt, PrecisionText(p.prec)) && longAt == precAt + |PrecisionText(p.prec)|
    && Reads(fmt, longAt, LongText(p.long)) && end == longAt + |LongText(p.long)|
    && end < |fmt| && fmt[end] == p.conv
  }

  lemma LayOut(fmt: seq<char>, i: nat, p: Piece)
    returns (widthAt: nat, precAt: nat, longAt: nat, end: nat)
    requires p.Directive? && Reads(fmt, i, PieceText(p))
    ensures i < |fmt| && fmt[i] == '%' && end == i + |PieceText(p)| - 1
    ensures LaidOut(fmt, p, i + 1, widthAt, precAt, longAt, end)
  {
    hide FlagText, WidthText, PrecisionText, LongText, Reads;
    var last := LongText(p.long) + [p.conv];
    var behindWidth := PrecisionText(p.prec) + last;
    var behindFlag := WidthText(p.width) + behindWidth;
    PieceTextParts(p);
    ReadsSplit(fmt, i, ['%'], FlagText(p.flag) + behindFlag);
    ReadsOne(fmt, i, '%');
    ReadsSplit(fmt, i + 1, FlagText(p.flag), behindFlag);
    widthAt := i + 1 + |FlagText(p.flag)|;
    ReadsSplit(fmt, widthAt, WidthText(p.width), behindWidth);
    precAt := widthAt + |WidthText(p.width)|;
    ReadsSplit(fmt, precAt, PrecisionText(p.prec), last);
    longAt := precAt + |PrecisionText(p.prec)|;
    ReadsSplit(fmt, longAt, LongText(p.long), [p.conv]);
    end := longAt + |LongText(p.long)|;
    ReadsOne(fmt, end, p.conv);
  }

  lemma PieceTextParts(p: Piece)
    requires p.Directive?
    ensures PieceText(p) == ['%'] + (FlagText(p.flag)
            + (WidthText(p.width) + (PrecisionText(p.prec) + (LongText(p.long) + [p.conv]))))
  {
  }

  lemma ReadsFirst(fmt: seq<char>, i: nat, s: seq<char>)
    requires Reads(fmt, i, s) && s != []
    ensures At(fmt, i) == s[0]
  {
    assert fmt[i..i + |s|][0] == fmt[i];
  }

  /** Characters that neither continue a number nor are taken for a flag. */
  predicate EndsNumber(c: char) {
    !IsDigit(c) && c != '-'
  }

  lemma LongCharacter(fmt: seq<char>, p: Piece, longAt: nat, end: nat)
    requires p.Directive? && Proper(p) && Reads(fmt, longAt, LongText(p.long)) && end == longAt + |LongText(p.long)|
    requires end < |fmt| && fmt[end] == p.conv
    ensures At(fmt, longAt) == (if p.long then 'l' else p.conv)
    ensures EndsNumber(At(fmt, longAt)) && At(fmt, longAt) != '.' && p.conv != 'l'
  {
    if p.long {
      ReadsFirst(fmt, longAt, ['l']);
    }
  }

  lemma PrecisionCharacter(fmt: seq<char>, p: Piece, precAt: nat, longAt: nat)
    requires p.Directive? && Reads(fmt, precAt, PrecisionText(p.prec)) && longAt == precAt + |PrecisionText(p.prec)|
    requires EndsNumber(At(fmt, longAt)) && At(fmt, longAt) != '.'
    ensures EndsNumber(At(fmt, precAt)) && (At(fmt, precAt) == '.' <==> p.prec != NoPrecision)
    ensures p.prec == NoPrecision ==> longAt == precAt
    ensures p.prec.Star? ==> precAt + 1 < |fmt| && At(fmt, precAt + 1) == '*' && longAt == precAt + 2
    ensures p.prec.Fixed? ==>
              precAt < |fmt| && At(fmt, precAt + 1) != '*' && ScanNumber(fmt, precAt + 1, 0) == (p.prec.n, longAt)
  {
    hide Numeral, ScanNumber, DigitsOf;
    match p.prec
    case NoPrecision =>
    case Star =>
      ReadsSplit(fmt, precAt, ['.'], ['*']);
      ReadsFirst(fmt, precAt, ['.']);
      ReadsFirst(fmt, precAt + 1, ['*']);
    case Fixed(n) =>
      ReadsSplit(fmt, precAt, ['.'], Numeral(10, n, false));
      ReadsFirst(fmt, precAt, ['.']);
      ReadsFirst(fmt, precAt + 1, Numeral(10, n, false));
      NumeralStarts(n);
      ScanNumeral(fmt, precAt + 1, n);
  }

  lemma NumeralStarts(n: nat)
    ensures IsDigit(Numeral(10, n, false)[0]) && Numeral(10, n, false)[0] != '*'
  {
    NumeralDigits(10, n, false);
  }

  lemma WidthCharacter(fmt: seq<char>, p: Piece, widthAt: nat, precAt: nat)
    requires p.Directive? && Reads(fmt, widthAt, WidthText(p.width)) && precAt == widthAt + |WidthText(p.width)|
    requires EndsNumber(At(fmt, precAt))
    ensures At(fmt, widthAt) != '0' && At(fmt, widthAt) != '-'
    ensures ScanNumber(fmt, widthAt, 0) == (p.width, precAt)
  {
    hide Numeral, ScanNumber;
    ScanWidth(fmt, widthAt, p.width);
    if p.width > 0 {
      NumeralDigits(10, p.width, false);
      ReadsFirst(fmt, widthAt, Numeral(10, p.width, false));
    }
  }

  lemma FlagCharacter(fmt: seq<char>, p: Piece, flagAt: nat, widthAt: nat)
    requires p.Directive? && Reads(fmt, flagAt, FlagText(p.flag)) && widthAt == flagAt + |FlagText(p.flag)|
    requires At(fmt, widthAt) != '0' && At(fmt, widthAt) != '-'
    ensures At(fmt, flagAt) == '0' <==> p.flag == Zero
    ensures At(fmt, flagAt) == '-' <==> p.flag == Minus
    ensures widthAt == if p.flag == NoFlag then flagAt else flagAt + 1
  {
    if p.flag != NoFlag {
      ReadsFirst(fmt, flagAt, FlagText(p.flag));
    }
  }

  /** The parser reads a directive back from its text. */
  lemma ParseReadsPiece(fmt: seq<char>, i: nat, p: Piece, args: seq<Arg>)
    requires p.Directive? && Proper(p) && Reads(fmt, i, PieceText(p))
    ensures i < |fmt| && fmt[i] == '%'
    ensures var end := i + |PieceText(p)| - 1;
            i + 1 <= end < |fmt| && fmt[end] == p.conv && ParseDirective(fmt, i + 1, args) == Expected(p, end, args)
  {
    hide Numeral, ScanNumber, Reads, PieceText, PrecisionText, WidthText, FlagText;
    var widthAt, precAt, longAt, end := LayOut(fmt, i, p);
    LongCharacter(fmt, p, longAt, end);
    PrecisionCharacter(fmt, p, precAt, longAt);
    WidthCharacter(fmt, p, widthAt, precAt);
    FlagCharacter(fmt, p, i + 1, widthAt);
  }

  /** Vprintf reads a format written out of pieces back piece by piece, and prints the pieces in order. */
  lemma {:induction false} RenderMeansPieces(pre: seq<char>, ps: seq<Piece>, args: seq<Arg>)
    requires forall k :: 0 <= k < |ps| ==> Proper(ps[k])
    ensures Render(pre + FormatOf(ps), |pre|, args) == Meaning(ps, args)
    decreases |ps|
  {
    hide ParseDirective, Convert, PieceText, Render, Meaning;
    var fmt := pre + FormatOf(ps);
    if ps == [] {
      RenderEnd(fmt, |pre|, args);
      MeaningEnd(args);
    } else {
      var p, i := ps[0], |pre|;
      var pre' := pre + PieceText(p);
      assert pre' + FormatOf(ps[1..]) == fmt;
      assert Reads(fmt, i, PieceText(p));
      if p.Literal? {
        RenderMeansPieces(pre', ps[1..], args);
        RenderLiteral(fmt, i, ps, args);
      } else {
        ParseReadsPiece(fmt, i, p, args);
        var e := Expected(p, i + |PieceText(p)| - 1, args);
        if e.Some? && e.value.args != [] {
          RenderMeansPieces(pre', ps[1..], e.value.args[1..]);
        }
        RenderDirective(fmt, i, ps, args);
      }
    }
  }

  lemma RenderEnd(fmt: seq<char>, i: nat, args: seq<Arg>)
    requires i == |fmt|
    ensures Render(fmt, i, args) == Some([])
  {
  }

  lemma MeaningEnd(args: seq<Arg>)
    ensures Meaning([], args) == Some([])
  {
  }

  lemma RenderLiteral(fmt: seq<char>, i: nat, ps: seq<Piece>, args: seq<Arg>)
    requires ps != [] && ps[0].Literal? && Proper(ps[0]) && Reads(fmt, i, PieceText(ps[0]))
    requires Render(fmt, i + |PieceText(ps[0])|, args) == Meaning(ps[1..], args)
    ensures Render(fmt, i, args) == Meaning(ps, args)
  {
    ReadsFirst(fmt, i, [ps[0].c]);
  }

  lemma RenderDirective(fmt: seq<char>, i: nat, ps: seq<Piece>, args: seq<Arg>)
    requires ps != [] && ps[0].Directive? && Proper(ps[0])
    requires var p := ps[0];
             var end := i + |PieceText(p)| - 1;
             && i < |fmt| && fmt[i] == '%' && i + 1 <= end < |fmt| && fmt[end] == p.conv
             && ParseDirective(fmt, i + 1, args) == Expected(p, end, args)
             && var e := Expected(p, end, args);
                e.Some? && e.value.args != [] ==>
                  Render(fmt, end + 1, e.value.args[1..]) == Meaning(ps[1..], e.value.args[1..])
    ensures Render(fmt, i, args) == Meaning(ps, args)
  {
    hide ParseDirective, Convert, PieceText;
  }
}
