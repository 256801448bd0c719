/** Numbers in a fixed number of hexadecimal digits. */
module HexText {
  import opened Printf
  import opened Words

  /** v in exactly k hexadecimal digits. */
  function Hex(v: nat, k: nat, upper: bool): (r: seq<char>)
    ensures |r| == k
  {
    if k == 0 then [] else Hex(v / 16, k - 1, upper) + [DigitChar(v % 16, upper)]
  }

  function Lower(c: char): char {
    if 'A' <= c <= 'F' then 'a' + (c - 'A') else c
  }

  function LowerCase(s: seq<char>): (r: seq<char>)
    ensures |r| == |s| && forall i :: 0 <= i < |s| ==> r[i] == Lower(s[i])
  {
    seq(|s|, i requires 0 <= i < |s| => Lower(s[i]))
  }

  lemma {:induction false} HexDenotes(v: nat, k: nat, upper: bool)
    requires v < Power(16, k)
    ensures Value(16, Hex(v, k, upper)) == v && DigitsOf(Hex(v, k, upper), 16)
  {
    var r := Hex(v, k, upper);
    if k > 0 {
      HexDenotes(v / 16, k - 1, upper);
      DigitDenotes(v % 16, upper);
      assert r[..k - 1] == Hex(v / 16, k - 1, upper);
    }
  }

  /** Fixed-width numbers have no letter of the other case. */
  lemma {:induction false} HexCase(v: nat, k: nat, upper: bool)
    ensures forall i :: 0 <= i < k ==> InCase(Hex(v, k, upper)[i], upper)
  {
    if k > 0 {
      HexCase(v / 16, k - 1, upper);
    }
  }

  /** Reading k digits and writing them again gives them in lower case. */
  lemma {:induction false} HexOfValue(s: seq<char>)
    requires DigitsOf(s, 16)
    ensures Value(16, s) < Power(16, |s|) && Hex(Value(16, s), |s|, false) == LowerCase(s)
    decreases |s|
  {
    if s != [] {
      var m := |s| - 1;
      HexOfValue(s[..m]);
      DigitBack(Value(16, s[..m]), s[m]);
      assert LowerCase(s) == LowerCase(s[..m]) + [Lower(s[m])];
    }
  }

  lemma DigitBack(v: nat, c: char)
    requires IsDigitOf(c, 16)
    ensures var w := v * 16 + DigitValue(c);
            w / 16 == v && DigitChar(w % 16, false) == Lower(c)
  {
  }

  lemma {:induction false} NumeralIsHex(v: nat, k: nat, upper: bool)
    requires 0 < k && v < Power(16, k)
    ensures |Numeral(16, v, upper)| <= k && PadLeft(Numeral(16, v, upper), '0', k) == Hex(v, k, upper)
    decreases k
  {
    if k == 1 {
      assert Hex(v / 16, 0, upper) == [];
    } else if v >= 16 {
      NumeralIsHex(v / 16, k - 1, upper);
    } else {
      ZeroHex(k - 1, upper);
    }
  }

  lemma {:induction false} ZeroHex(k: nat, upper: bool)
    ensures Hex(0, k, upper) == Repeat('0', k)
  {
    if k > 0 {
      ZeroHex(k - 1, upper);
    }
  }

  lemma TwoBytesHex(v: nat, upper: bool)
    ensures Hex(v / 0x100, 2, upper) + Hex(v % 0x100, 2, upper) == Hex(v, 4, upper)
  {
    hide DigitChar;
    Nibbles(v);
    HexTwo(v % 0x100, upper);
    assert Hex(v / 16, 3, upper) == Hex(v / 16 / 16, 2, upper) + [DigitChar(v / 16 % 16, upper)];
    assert Hex(v, 4, upper) == Hex(v / 16, 3, upper) + [DigitChar(v % 16, upper)];
  }

  lemma HexTwo(v: nat, upper: bool)
    ensures Hex(v, 2, upper) == [DigitChar(v / 16 % 16, upper)] + [DigitChar(v % 16, upper)]
  {
    hide DigitChar;
    assert Hex(v / 16, 1, upper) == Hex(v / 16 / 16, 0, upper) + [DigitChar(v / 16 % 16, upper)];
  }

  lemma Nibbles(v: nat)
    ensures v / 16 / 16 == v / 0x100 && v % 0x100 / 16 % 16 == v / 16 % 16 && v % 0x100 % 16 == v % 16
  {
    assert v == 0x100 * (v / 0x100) + v % 0x100;
    assert v / 16 == 16 * (v / 0x100) + v % 0x100 / 16;
  }
  /** A number that ends in a byte: the digits of the rest, and two for the byte. */
  lemma ByteBehind(hi: nat, lo: byte, k: nat, upper: bool)
    ensures Hex(hi * 0x100 + lo, k + 2, upper) == Hex(hi, k, upper) + Hex(lo, 2, upper)
  {
    hide DigitChar;
    var v := hi * 0x100 + lo;
    HexTwo(lo, upper);
    Nibbles(v);
    assert v / 0x100 == hi && v % 0x100 == lo;
    assert Hex(v / 16, k + 1, upper) == Hex(v / 16 / 16, k, upper) + [DigitChar(v / 16 % 16, upper)];
    assert Hex(v, k + 2, upper) == Hex(v / 16, k + 1, upper) + [DigitChar(v % 16, upper)];
  }
}
