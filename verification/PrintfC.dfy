/** What section 7.21.6.1 of C11 prescribes for the modelled directives, and when the code prints that. */
module PrintfC {
  import opened HexText
  import opened Printf
  import opened PrintfFormat
  import opened Words

  // ---------- the standard ----------

  /** The value of an int argument. */
  function Signed(v: word): int {
    if v < 0x8000_0000 then v else v - 0x1_0000_0000
  }

  function Abs(x: int): nat {
    if x < 0 then -x else x
  }

  /** The precision as it is written or fetched, if there is one. */
  function Given(prec: Precision, args: seq<Arg>): Option<int>
    requires prec.Star? ==> args != [] && args[0].Number?
  {
    match prec
    case NoPrecision => None
    case Fixed(n) => Some(n)
    case Star => Some(Signed(args[0].v))
  }

  /** A negative precision is taken as if it were omitted. */
  function InForce(given: Option<int>): Option<nat> {
    if given.None? || given.value < 0 then None else Some(given.value)
  }

  /** The letters abcdef for x and ABCDEF for X. */
  function CDigit(d: nat, upper: bool): char
    requires d < 16
  {
    (if upper then "0123456789ABCDEF" else "0123456789abcdef")[d]
  }

  /** Numbers in decimal or hexadecimal digits. */
  function CNumeral(base: nat, n: nat, upper: bool): seq<char>
    requires 2 <= base <= 16
  {
    (if n < base then [] else CNumeral(base, n / base, upper)) + [CDigit(n % base, upper)]
  }

  /** Zero with the precision zero has no digits. */
  function CDigits(base: nat, n: nat, upper: bool, precision: Option<nat>): seq<char>
    requires base in {10, 16}
  {
    if n == 0 && precision == Some(0) then [] else CNumeral(base, n, upper)
  }

  /** An integer: the precision is the least number of digits; the width is made up with spaces, on the right for the
      flag -, or for the flag 0 without a precision with zeros behind the sign. */
  function CInteger(flag: Flag, width: nat, precision: Option<nat>, negative: bool, digits: seq<char>): seq<char> {
    var body := Repeat('0', if precision.Some? then Missing(precision.value, |digits|) else 0) + digits;
    var signed := SignText(negative) + body;
    var missing := Missing(width, |signed|);
    match flag
    case Minus => signed + Repeat(' ', missing)
    case NoFlag => Repeat(' ', missing) + signed
    case Zero =>
      if precision.Some? then Repeat(' ', missing) + signed
      else SignText(negative) + (Repeat('0', missing) + body)
  }

  /** No more of a string than the precision allows. */
  function Limited(s: seq<char>, precision: Option<nat>): seq<char> {
    if precision.Some? && precision.value < |s| then s[..precision.value] else s
  }

  function Justified(left: bool, width: nat, s: seq<char>): (r: seq<char>)
    ensures |r| == |s| + Missing(width, |s|)
  {
    if left then s + Repeat(' ', Missing(width, |s|)) else Repeat(' ', Missing(width, |s|)) + s
  }

  /** The text of one directive; None where the standard leaves it undefined or to the implementation. */
  function CText(p: Piece, given: Option<int>, arg: Arg): (r: Option<seq<char>>)
    requires p.Directive?
  {
    var precision := InForce(given);
    match arg
    case Number(v) =>
      if p.conv == 'd' || p.conv == 'i' then
        var digits := CDigits(10, Abs(Signed(v)), false, precision);
        Some(CInteger(p.flag, p.width, precision, Signed(v) < 0, digits))
      else if p.conv == 'u' then Some(CInteger(p.flag, p.width, precision, false, CDigits(10, v, false, precision)))
      else if p.conv == 'x' || p.conv == 'X' then
        Some(CInteger(p.flag, p.width, precision, false, CDigits(16, v, p.conv == 'X', precision)))
      else if p.conv == 'c' && p.flag != Zero && precision == None && !p.long then
        Some(Justified(p.flag == Minus, p.width, [(v % 0x100) as char]))
      else None
    case Text(s) =>
      if p.conv == 's' && p.flag != Zero && !p.long then
        Some(Justified(p.flag == Minus, p.width, Limited(s, precision)))
      else None
  }

  /** The text of a format written out of pieces. */
  function CMeaning(ps: seq<Piece>, args: seq<Arg>): (r: Option<seq<char>>) {
    if ps == [] then Some([])
    else
      var p := ps[0];
      if p.Literal? then Prepend([p.c], CMeaning(ps[1..], args))
      else if p.prec.Star? && (args == [] || args[0].Text?) then None
      else
        var args' := if p.prec.Star? then args[1..] else args;
        if args' == [] || CText(p, Given(p.prec, args), args'[0]) == None then None
        else Prepend(CText(p, Given(p.prec, args), args'[0]).value, CMeaning(ps[1..], args'[1..]))
  }

  /** The directives that have a standard text: the integers always, c and s without what is undefined for them. */
  lemma StandardTextIff(p: Piece, given: Option<int>, arg: Arg)
    requires p.Directive?
    ensures CText(p, given, arg).Some? <==>
            match arg
            case Number(_) =>
              || p.conv in "diuxX"
              || (p.conv == 'c' && p.flag != Zero && !p.long && (given.Some? ==> given.value < 0))
            case Text(_) => p.conv == 's' && p.flag != Zero && !p.long
  {
  }

  /** One directive has one exactly when its arguments are there: for an asterisk a number in front of the value. */
  lemma OneStandardTextIff(p: Piece, args: seq<Arg>)
    requires p.Directive?
    ensures CMeaning([p], args).Some? <==>
            match p.prec
            case NoPrecision => |args| >= 1 && CText(p, None, args[0]).Some?
            case Fixed(n) => |args| >= 1 && CText(p, Some(n), args[0]).Some?
            case Star => |args| >= 2 && args[0].Number? && CText(p, Some(Signed(args[0].v)), args[1]).Some?
  {
    hide CText;
    NoMore(args);
  }

  // ---------- when the code agrees ----------

  /** An integer directive, for a numeral of n digits. A precision has to leave room in the buffer, and the value zero
      needs one other than zero; the flag 0 has no effect in the standard beside a precision, but does in the code;
      without a precision the code puts the sign in front of a full width of digits; more than 63 characters are not
      padded on the left; and a negative precision is not dropped but negated. */
  predicate IntegerConforms(flag: Flag, width: nat, given: Option<int>, negative: bool, n: nat, zero: bool) {
    match InForce(given)
    case Some(p) =>
      var full := width == 64 && negative && p == 63;
      p <= 63 && !(zero && p == 0) &&
      (match flag
       case Minus => true
       case NoFlag => width <= 63 || full
       case Zero => width <= n || width <= p || full)
    case None =>
      var m := if given.Some? then Abs(given.value) else 0;
      match flag
      case Minus => m <= n
      case NoFlag => m <= n && width <= 63
      case Zero =>
        if negative then width == 64 || (width <= n && m <= n)
        else width <= 63 && (m <= n || m <= width || width == 63)
  }

  predicate Blank(s: seq<char>) {
    forall i :: 0 <= i < |s| ==> s[i] == ' '
  }

  /** A string directive: only a negative precision is treated differently, and shows unless it leaves the string whole
      or what it cuts off is blank anyway. */
  predicate StringConforms(flag: Flag, width: nat, given: Option<int>, s: seq<char>) {
    given.Some? && given.value < 0 && -given.value < |s| ==>
      |s| <= width && if flag == Minus then Blank(s[-given.value..]) else Blank(s)
  }

  /** Whether the code prints a directive as the standard says: a condition on flag, width, precision and argument. */
  predicate Conforms(p: Piece, given: Option<int>, arg: Arg)
    requires p.Directive?
  {
    match arg
    case Text(s) => StringConforms(p.flag, p.width, given, s)
    case Number(v) =>
      if p.conv == 'c' then p.width <= 1
      else if p.conv == 'd' || p.conv == 'i' then
        IntegerConforms(p.flag, p.width, given, Signed(v) < 0, |Numeral(10, Abs(Signed(v)), false)|, v == 0)
      else if p.conv == 'u' then IntegerConforms(p.flag, p.width, given, false, |Numeral(10, v, false)|, v == 0)
      else IntegerConforms(p.flag, p.width, given, false, |Numeral(16, v, p.conv == 'X')|, v == 0)
  }

  /** The specification that the code works from. */
  function CodeSpec(flag: Flag, width: nat, given: Option<int>, upper: bool, negative: bool): Spec {
    Spec(flag == Zero, flag == Minus, width, given.Some?, if given.Some? then Abs(given.value) else 0, upper, negative)
  }

  // ---------- integers ----------

  /** A field determines its parts. */
  lemma FieldUnique(b: nat, z: nat, a: nat, b': nat, z': nat, a': nat, negative: bool, digits: seq<char>)
    requires digits != [] && (forall i :: 0 <= i < |digits| ==> digits[i] != ' ')
    requires Field(b, negative, z, digits, a) == Field(b', negative, z', digits, a')
    ensures b == b' && z == z' && a == a'
  {
    hide Repeat;
    FieldEnds(b, z, a, negative, digits);
    FieldEnds(b', z', a', negative, digits);
    var f, f' := Field(b, negative, z, digits, a), Field(b', negative, z', digits, a');
    assert f[|f| - a - 1] != ' ' && f'[|f'| - a' - 1] != ' ';
  }

  /** Where the spaces of a field end and begin. */
  lemma FieldEnds(b: nat, z: nat, a: nat, negative: bool, digits: seq<char>)
    requires digits != [] && (forall i :: 0 <= i < |digits| ==> digits[i] != ' ')
    ensures var f := Field(b, negative, z, digits, a);
            && |f| == b + |SignText(negative)| + z + |digits| + a
            && (forall i :: 0 <= i < b ==> f[i] == ' ') && f[b] != ' '
            && (forall i :: |f| - a <= i < |f| ==> f[i] == ' ') && f[|f| - a - 1] != ' '
  {
    var body := SignText(negative) + (Repeat('0', z) + digits);
    assert body[0] != ' ';
    assert body[|body| - 1] == digits[|digits| - 1];
    var f := Repeat(' ', b) + body + Repeat(' ', a);
    assert f[b] == body[0] && f[b + |body| - 1] == body[|body| - 1];
  }

  /** The digits that the standard prints, leading zeros included. */
  function CDigitCount(flag: Flag, width: nat, precision: Option<nat>, negative: bool, n: nat): nat {
    if precision.Some? then n + Missing(precision.value, n)
    else if flag == Zero then n + Missing(width, |SignText(negative)| + n)
    else n
  }

  lemma CIntegerShape(flag: Flag, width: nat, precision: Option<nat>, negative: bool, digits: seq<char>)
    ensures var count := CDigitCount(flag, width, precision, negative, |digits|);
            var missing := Missing(width, |SignText(negative)| + count);
            && count >= |digits|
            && CInteger(flag, width, precision, negative, digits)
               == Field(if flag == Minus then 0 else missing, negative, count - |digits|, digits,
                        if flag == Minus then missing else 0)
  {
    match flag
    case Minus => LeftShape(width, precision, negative, digits);
    case NoFlag => RightShape(NoFlag, width, precision, negative, digits);
    case Zero =>
      if precision.Some? {
        RightShape(Zero, width, precision, negative, digits);
      } else {
        ZeroShape(width, negative, digits);
      }
  }

  lemma LeftShape(width: nat, precision: Option<nat>, negative: bool, digits: seq<char>)
    ensures var count := CDigitCount(Minus, width, precision, negative, |digits|);
            CInteger(Minus, width, precision, negative, digits)
              == Field(0, negative, count - |digits|, digits, Missing(width, |SignText(negative)| + count))
  {
    hide SignText;
    var z := if precision.Some? then Missing(precision.value, |digits|) else 0;
    NoSpaces();
    WithNone(SignText(negative) + (Repeat('0', z) + digits), Repeat(' ', 0));
  }

  lemma RightShape(flag: Flag, width: nat, precision: Option<nat>, negative: bool, digits: seq<char>)
    requires flag == NoFlag || (flag == Zero && precision.Some?)
    ensures var count := CDigitCount(flag, width, precision, negative, |digits|);
            CInteger(flag, width, precision, negative, digits)
              == Field(Missing(width, |SignText(negative)| + count), negative, count - |digits|, digits, 0)
  {
    hide SignText;
    var z := if precision.Some? then Missing(precision.value, |digits|) else 0;
    var signed := SignText(negative) + (Repeat('0', z) + digits);
    NoSpaces();
    WithNone(Repeat(' ', Missing(width, |signed|)) + signed, Repeat(' ', 0));
  }

  lemma ZeroShape(width: nat, negative: bool, digits: seq<char>)
    ensures var count := CDigitCount(Zero, width, None, negative, |digits|);
            CInteger(Zero, width, None, negative, digits) == Field(0, negative, count - |digits|, digits, 0)
  {
    hide SignText;
    var z := Missing(width, |SignText(negative)| + |digits|);
    var text := SignText(negative) + (Repeat('0', z) + digits);
    NoSpaces();
    WithNone(digits, Repeat('0', 0));
    WithNone(text, Repeat(' ', 0));
  }

  lemma NoSpaces()
    ensures Repeat(' ', 0) == [] && Repeat('0', 0) == []
  {
  }

  lemma WithNone(s: seq<char>, none: seq<char>)
    requires none == []
    ensures none + s == s && s + none == s
  {
  }

  /** The two counts and the two paddings agree exactly under the condition. */
  lemma CountsAgreeIff(flag: Flag, width: nat, given: Option<int>, upper: bool, negative: bool, n: nat)
    requires 1 <= n <= 10
    ensures var sign := |SignText(negative)|;
            var count := DigitCount(CodeSpec(flag, width, given, upper, negative), n);
            var count' := CDigitCount(flag, width, InForce(given), negative, n);
            var before := if flag == Minus then 0 else Missing(Min(width, BUFFER_SIZE - 1), sign + count);
            var missing := Missing(width, sign + count');
            (&& count == count' && before == (if flag == Minus then 0 else missing)
             && Missing(width, before + (sign + count)) == if flag == Minus then missing else 0)
            <==> IntegerConforms(flag, width, given, negative, n, false)
  {
  }

  /** Two fields of the same digits are equal exactly when their parts are. */
  lemma IntegerFieldsIff(flag: Flag, width: nat, given: Option<int>, upper: bool, negative: bool, digits: seq<char>)
    requires 1 <= |digits| <= 10 && forall i :: 0 <= i < |digits| ==> digits[i] != ' '
    ensures NumberText(CodeSpec(flag, width, given, upper, negative), digits)
              == CInteger(flag, width, InForce(given), negative, digits)
            <==> IntegerConforms(flag, width, given, negative, |digits|, false)
  {
    hide NumberText, CInteger, Field, DigitCount, CDigitCount, IntegerConforms, SignText, Missing, InForce;
    var spec := CodeSpec(flag, width, given, upper, negative);
    NumberTextShape(spec, digits);
    CIntegerShape(flag, width, InForce(given), negative, digits);
    CountsAgreeIff(flag, width, given, upper, negative, |digits|);
    var sign := |SignText(negative)|;
    var count, count' := DigitCount(spec, |digits|), CDigitCount(flag, width, InForce(given), negative, |digits|);
    var before := if flag == Minus then 0 else Missing(Min(width, BUFFER_SIZE - 1), sign + count);
    var missing := Missing(width, sign + count');
    var z, a := count - |digits|, Missing(width, before + (sign + count));
    var b', z', a' := if flag == Minus then 0 else missing, count' - |digits|, if flag == Minus then missing else 0;
    if Field(before, negative, z, digits, a) == Field(b', negative, z', digits, a') {
      FieldUnique(before, z, a, b', z', a', negative, digits);
    }
  }

  lemma NumeralHasNoSpace(base: nat, n: nat, upper: bool)
    requires base in {10, 16}
    ensures forall i :: 0 <= i < |Numeral(base, n, upper)| ==> Numeral(base, n, upper)[i] != ' '
  {
    hide Numeral;
    NumeralDigits(base, n, upper);
  }

  /** The code prints a digit for zero at any precision, the standard only spaces at precision zero. */
  lemma ZeroDiffers(flag: Flag, width: nat, given: Option<int>, upper: bool)
    requires InForce(given) == Some(0)
    ensures NumberText(CodeSpec(flag, width, given, upper, false), ['0']) != CInteger(flag, width, Some(0), false, [])
  {
    hide NumberText;
    var spec := CodeSpec(flag, width, given, upper, false);
    NumberTextShape(spec, ['0']);
    var signed := DigitCount(spec, 1);
    var before := if flag == Minus then 0 else Missing(Min(width, BUFFER_SIZE - 1), signed);
    FieldEnds(before, signed - 1, Missing(width, before + signed), false, ['0']);
    assert NumberText(spec, ['0'])[before] != ' ';
    assert Blank(CInteger(flag, width, Some(0), false, []));
  }

  lemma DigitIsC(d: nat, upper: bool)
    requires d < 16
    ensures DigitChar(d, upper) == CDigit(d, upper)
  {
    hide DigitChar;
    DigitIsFromTable(d, upper);
  }

  /** The code's digits are those of the standard. */
  lemma {:induction false} NumeralIsC(base: nat, n: nat, upper: bool)
    requires base in {10, 16}
    ensures Numeral(base, n, upper) == CNumeral(base, n, upper)
    decreases n
  {
    hide DigitChar, CDigit;
    DigitIsC(n % base, upper);
    if n >= base {
      NumeralIsC(base, n / base, upper);
    }
  }

  /** One integer conversion prints what the standard says exactly under the condition. */
  lemma IntegerMeetsCIff(flag: Flag, width: nat, given: Option<int>, upper: bool, negative: bool, base: nat, v: word)
    requires base in {10, 16} && (negative ==> v > 0)
    ensures NumberText(CodeSpec(flag, width, given, upper, negative), Numeral(base, v, upper))
              == CInteger(flag, width, InForce(given), negative, CDigits(base, v, upper, InForce(given)))
            <==> IntegerConforms(flag, width, given, negative, |Numeral(base, v, upper)|, v == 0)
  {
    hide Numeral, CNumeral, NumberText, CInteger;
    NumeralIsC(base, v, upper);
    WordNumeralLength(base, v, upper);
    NumeralHasNoSpace(base, v, upper);
    if v == 0 && InForce(given) == Some(0) {
      ZeroNumeral(base, upper);
      ZeroDiffers(flag, width, given, upper);
    } else {
      IntegerFieldsIff(flag, width, given, upper, negative, Numeral(base, v, upper));
    }
  }

  // ---------- strings and characters ----------

  /** A string cut to a prefix prints as the whole string exactly when it is wide enough and blank where it matters. */
  lemma CutMattersIff(left: bool, width: nat, s: seq<char>, m: nat)
    requires m < |s|
    ensures Justified(left, width, s[..m]) == Justified(left, width, s)
       <==> |s| <= width && if left then Blank(s[m..]) else Blank(s)
  {
    var cut, whole := Justified(left, width, s[..m]), Justified(left, width, s);
    if |s| <= width {
      if left {
        assert forall i :: m <= i < |s| ==> s[i] == whole[i] && cut[i] == ' ' && s[i] == s[m..][i - m];
        if Blank(s[m..]) {
          assert cut == whole;
        }
      } else {
        if cut == whole {
          BlankFromFront(width, s, m, |s|);
        }
        if Blank(s) {
          assert cut == whole;
        }
      }
    }
  }

  /** Equal at the right end after a shift: every character is a space, from the front on. */
  lemma {:induction false} BlankFromFront(width: nat, s: seq<char>, m: nat, k: nat)
    requires m < |s| <= width && k <= |s|
    requires Justified(false, width, s[..m]) == Justified(false, width, s)
    ensures Blank(s[..k])
  {
    if k > 0 {
      BlankFromFront(width, s, m, k - 1);
      var cut, whole := Justified(false, width, s[..m]), Justified(false, width, s);
      var at, shift := width - |s| + (k - 1), |s| - m;
      assert whole[at] == s[k - 1];
      if k - 1 < shift {
        assert cut[at] == ' ';
      } else {
        assert cut[at] == s[..m][k - 1 - shift] == s[..k - 1][k - 1 - shift];
      }
    }
  }

  /** One string conversion prints what the standard says exactly under the condition. */
  lemma StringMeetsCIff(flag: Flag, width: nat, given: Option<int>, s: seq<char>)
    requires flag != Zero
    ensures var precision := InForce(given);
            StringText(CodeSpec(flag, width, given, false, false), s)
              == Justified(flag == Minus, width, Limited(s, precision))
            <==> StringConforms(flag, width, given, s)
  {
    hide Blank;
    if given.Some? && given.value < 0 && -given.value < |s| {
      CutMattersIff(flag == Minus, width, s, -given.value);
    }
  }

  lemma CharMeetsCIff(left: bool, width: nat, c: char)
    ensures [c] == Justified(left, width, [c]) <==> width <= 1
  {
    assert [c] + Repeat(' ', 0) == [c] && Repeat(' ', 0) + [c] == [c];
  }

  // ---------- directives and formats ----------

  /** One directive prints what the standard says exactly under the condition. */
  lemma DirectiveMeetsCIff(p: Piece, given: Option<int>, arg: Arg)
    requires p.Directive? && CText(p, given, arg).Some?
    ensures Convert(CodeSpec(p.flag, p.width, given, false, false), p.conv, arg) == CText(p, given, arg)
       <==> Conforms(p, given, arg)
  {
    hide Numeral, NumberText, StringText, CInteger, CDigits, IntegerConforms, StringConforms;
    match arg
    case Text(s) => StringMeetsCIff(p.flag, p.width, given, s);
    case Number(v) =>
      if p.conv == 'd' || p.conv == 'i' {
        IntegerMeetsCIff(p.flag, p.width, given, false, Signed(v) < 0, 10, Abs(Signed(v)));
      } else if p.conv == 'u' {
        IntegerMeetsCIff(p.flag, p.width, given, false, false, 10, v);
      } else if p.conv == 'x' || p.conv == 'X' {
        IntegerMeetsCIff(p.flag, p.width, given, p.conv == 'X', false, 16, v);
      } else {
        CharMeetsCIff(p.flag == Minus, p.width, (v % 0x100) as char);
      }
  }

  /** Every directive of a format meets its condition, with the arguments it gets. */
  predicate AllConform(ps: seq<Piece>, args: seq<Arg>)
    requires CMeaning(ps, args).Some?
  {
    ps == [] ||
    if ps[0].Literal? then AllConform(ps[1..], args)
    else
      var args' := if ps[0].prec.Star? then args[1..] else args;
      Conforms(ps[0], Given(ps[0].prec, args), args'[0]) && AllConform(ps[1..], args'[1..])
  }

  lemma {:induction false} PiecesMeetC(ps: seq<Piece>, args: seq<Arg>)
    requires CMeaning(ps, args).Some? && AllConform(ps, args)
    ensures Meaning(ps, args) == CMeaning(ps, args)
    decreases |ps|
  {
    hide Convert, CText, Conforms;
    if ps != [] {
      if ps[0].Literal? {
        PiecesMeetC(ps[1..], args);
      } else {
        var args' := if ps[0].prec.Star? then args[1..] else args;
        PiecesMeetC(ps[1..], args'[1..]);
        DirectiveMeetsCIff(ps[0], Given(ps[0].prec, args), args'[0]);
      }
    }
  }

  /** A format whose directives all meet their conditions is printed as the standard says. */
  lemma FormatMeetsC(ps: seq<Piece>, args: seq<Arg>)
    requires forall k :: 0 <= k < |ps| ==> Proper(ps[k])
    requires CMeaning(ps, args).Some? && AllConform(ps, args)
    ensures Render(FormatOf(ps), 0, args) == CMeaning(ps, args)
  {
    RenderMeansPieces([], ps, args);
    PiecesMeetC(ps, args);
    assert [] + FormatOf(ps) == FormatOf(ps);
  }

  lemma OneMeaning(p: Piece, args: seq<Arg>)
    requires p.Directive? && CMeaning([p], args).Some?
    ensures !(p.prec.Star? && (args == [] || args[0].Text?))
    ensures var args' := if p.prec.Star? then args[1..] else args;
            && args' != []
            && Meaning([p], args) == Convert(CodeSpec(p.flag, p.width, Given(p.prec, args), false, false), p.conv,
               args'[0])
            && CMeaning([p], args) == CText(p, Given(p.prec, args), args'[0])
            && AllConform([p], args) == Conforms(p, Given(p.prec, args), args'[0])
  {
    hide Convert, CText, Conforms;
    NoMore(args);
    forall t: seq<char>
      ensures Prepend(t, Some([])) == Some(t)
    {
      assert t + [] == t;
    }
  }

  lemma NoMore(args: seq<Arg>)
    ensures forall a :: Meaning([], a) == Some([]) && CMeaning([], a) == Some([])
  {
  }

  /** A format of one directive is printed as the standard says exactly when it meets its condition. */
  lemma OneDirectiveMeetsCIff(p: Piece, args: seq<Arg>)
    requires p.Directive? && Proper(p) && CMeaning([p], args).Some?
    ensures Render(PieceText(p), 0, args) == CMeaning([p], args) <==> AllConform([p], args)
  {
    hide Convert, CText, Conforms, PieceText, Render, Meaning, CMeaning;
    RenderMeansPieces([], [p], args);
    OneMeaning(p, args);
    assert FormatOf([p]) == PieceText(p) by {
      assert PieceText(p) + [] == PieceText(p);
    }
    assert [] + FormatOf([p]) == FormatOf([p]);
    var args' := if p.prec.Star? then args[1..] else args;
    DirectiveMeetsCIff(p, Given(p.prec, args), args'[0]);
  }

  /** Minus 42 in a zero-padded field of five: one character too many. */
  lemma ZeroPaddedNegative()
    ensures Render("%05d", 0, [Number(0xFFFF_FFD6)]) == Some("-00042")
    ensures CMeaning([Directive(Zero, 5, NoPrecision, false, 'd')], [Number(0xFFFF_FFD6)]) == Some("-0042")
  {
    hide Render, CMeaning, Meaning, NumberText, CInteger, Field, Numeral, PieceText;
    var p := Directive(Zero, 5, NoPrecision, false, 'd');
    var args := [Number(0xFFFF_FFD6)];
    FortyTwo(p);
    NumeralIsC(10, 42, false);
    RenderMeansPieces([], [p], args);
    assert [] + FormatOf([p]) == PieceText(p) == "%05d";
    DefinedHere(p, args);
    OneMeaning(p, args);
    NumberTextShape(CodeSpec(Zero, 5, None, false, true), "42");
    CIntegerShape(Zero, 5, None, true, "42");
    FieldsOf42();
  }

  lemma FieldsOf42()
    ensures Field(0, true, 3, "42", 0) == "-00042" && Field(0, true, 2, "42", 0) == "-0042"
  {
    assert Repeat(' ', 0) == [] && Repeat('0', 3) == "000" && Repeat('0', 2) == "00";
  }

  lemma DefinedHere(p: Piece, args: seq<Arg>)
    requires p == Directive(Zero, 5, NoPrecision, false, 'd') && args == [Number(0xFFFF_FFD6)]
    ensures CMeaning([p], args).Some?
  {
    NoMore(args[1..]);
  }

  lemma FortyTwo(p: Piece)
    requires p == Directive(Zero, 5, NoPrecision, false, 'd')
    ensures Numeral(10, 42, false) == "42" && PieceText(p) == "%05d" && FormatOf([p]) == "%05d"
  {
    assert Numeral(10, 42, false) == Numeral(10, 4, false) + ['2'];
    assert PieceText(p) + [] == PieceText(p);
  }

  // ---------- what the standard leaves open ----------

  /** A pointer is printed as 0x and eight hexadecimal digits in lower case, whatever flags, width and precision. */
  lemma PointerText(spec: Spec, v: word)
    ensures Convert(spec, 'p', Number(v)) == Some("0x" + Hex(v, 8, false))
  {
    hide Numeral, Hex, NumberText;
    EightDigits(v);
    NumeralIsHex(v, 8, false);
    NumberTextShape(ADDRESS_SPEC, Numeral(16, v, false));
    PaddedPointer(Numeral(16, v, false));
  }

  lemma EightDigits(v: word)
    ensures v < Power(16, 8)
  {
    assert Power(16, 4) == 0x1_0000 && Power(16, 6) == 0x100 * Power(16, 4);
  }

  lemma PaddedPointer(digits: seq<char>)
    requires |digits| <= 8
    ensures Field(0, false, 8 - |digits|, digits, 0) == PadLeft(digits, '0', 8)
  {
    assert Repeat(' ', 0) == [] && Repeat('0', 0) + digits == digits;
  }

  /** A character that is no conversion is printed and not stepped over: %q prints q twice, the second time as text, and
      the second percent sign of %% starts a directive with what follows. */
  lemma UnknownConversion(fmt: seq<char>, i: nat, args: seq<Arg>)
    requires i + 1 < |fmt| && fmt[i] == '%'
    requires fmt[i + 1] !in "0123456789-.lcdiuxXsp" && fmt[i + 1] != NUL
    ensures var q := fmt[i + 1];
            Render(fmt, i, args)
              == if q == '%' then Prepend("%", Render(fmt, i + 1, args)) else Prepend([q, q], Render(fmt, i + 2, args))
  {
    hide Convert, Render;
    var q := fmt[i + 1];
    NoDigit(q);
    assert ParseDirective(fmt, i + 1, args) == Some(Parsed(Spec(false, false, 0, false, 0, false, false), i + 1, args));
    RenderUnknown(fmt, i, args);
    if q != '%' {
      RenderText(fmt, i + 1, args);
      PrependTwice(q, Render(fmt, i + 2, args));
    }
  }

  lemma NoDigit(q: char)
    requires q !in "0123456789-.lcdiuxXsp"
    ensures !IsDigit(q) && q != '0' && q != '-' && q != '.' && q != 'l' && q !in CONVERSIONS
  {
    var none := "0123456789-.lcdiuxXsp";
    assert none[0] == '0' && none[1] == '1' && none[2] == '2' && none[3] == '3' && none[4] == '4';
    assert none[5] == '5' && none[6] == '6' && none[7] == '7' && none[8] == '8' && none[9] == '9';
    assert none[10] == '-' && none[11] == '.' && none[12] == 'l' && none[13] == 'c';
    assert none[14] == 'd' && none[15] == 'i';
    assert none[16] == 'u' && none[17] == 'x' && none[18] == 'X' && none[19] == 's' && none[20] == 'p';
  }

  lemma RenderUnknown(fmt: seq<char>, i: nat, args: seq<Arg>)
    requires i + 1 < |fmt| && fmt[i] == '%' && fmt[i + 1] !in CONVERSIONS
    requires ParseDirective(fmt, i + 1, args)
             == Some(Parsed(Spec(false, false, 0, false, 0, false, false), i + 1, args))
    ensures Render(fmt, i, args) == Prepend([fmt[i + 1]], Render(fmt, i + 1, args))
  {
    hide ParseDirective, Convert;
  }

  lemma RenderText(fmt: seq<char>, i: nat, args: seq<Arg>)
    requires i < |fmt| && fmt[i] != '%'
    ensures Render(fmt, i, args) == Prepend([fmt[i]], Render(fmt, i + 1, args))
  {
    hide ParseDirective, Convert;
  }

  lemma PrependTwice(q: char, r: Option<seq<char>>)
    ensures Prepend([q], Prepend([q], r)) == Prepend([q, q], r)
  {
    if r.Some? {
      assert [q] + ([q] + r.value) == [q, q] + r.value;
    }
  }
}
