/**
  * Text helpers shared by the model: decimal digits, fixed-width zero
  * padding, the ordering JavaScript uses for `<` / `>` on strings, and
  * joining with a separator.
  */
module Strings {

  predicate IsDigit(c: char) { '0' <= c <= '9' }

  predicate AllDigits(s: string) { forall i :: 0 <= i < |s| ==> IsDigit(s[i]) }

  function DigitValue(c: char): (n: int)
    requires IsDigit(c)
    ensures 0 <= n < 10
  {
    c as int - '0' as int
  }

  function DigitChar(n: int): (c: char)
    requires 0 <= n < 10
    ensures IsDigit(c) && DigitValue(c) == n
  {
    ('0' as int + n) as char
  }

  function Pow10(w: nat): (p: nat)
    ensures p >= 1
  {
    if w == 0 then 1 else 10 * Pow10(w - 1)
  }

  /** The value `Number(s)` gives for a non-empty run of ASCII digits. */
  function DigitsValue(s: string): (n: nat)
    requires AllDigits(s)
    ensures n < Pow10(|s|)
  {
    if s == [] then 0 else DigitsValue(s[..|s| - 1]) * 10 + DigitValue(s[|s| - 1])
  }

  /** `n` written with exactly `w` decimal digits, zero padded on the left. */
  function PadDigits(n: nat, w: nat): (s: string)
    requires n < Pow10(w)
    ensures |s| == w && AllDigits(s)
  {
    if w == 0 then [] else PadDigits(n / 10, w - 1) + [DigitChar(n % 10)]
  }

  /** Reading a padded number back gives the number. */
  lemma {:induction false} PadDigitsValue(n: nat, w: nat)
    requires n < Pow10(w)
    ensures DigitsValue(PadDigits(n, w)) == n
  {
    if w > 0 {
      var s := PadDigits(n, w);
      assert s[..w - 1] == PadDigits(n / 10, w - 1);
      PadDigitsValue(n / 10, w - 1);
    }
  }

  /** Padding the value of a digit run to its own width gives the run back. */
  lemma {:induction false} DigitsValuePad(s: string)
    requires AllDigits(s)
    ensures PadDigits(DigitsValue(s), |s|) == s
  {
    if s != [] {
      var init := s[..|s| - 1];
      DigitsValuePad(init);
      DivMod10(DigitsValue(init), DigitValue(s[|s| - 1]));
      assert s == init + [s[|s| - 1]];
    }
  }

  lemma DivMod10(q: nat, r: nat)
    requires r < 10
    ensures (q * 10 + r) / 10 == q && (q * 10 + r) % 10 == r
  {
  }

  /** `String(n)` for a non-negative integer: shortest decimal form. */
  function NatToString(n: nat): (s: string)
    ensures |s| >= 1 && AllDigits(s)
    ensures DigitsValue(s) == n
  {
    if n < 10 then [DigitChar(n)]
    else
      var s := NatToString(n / 10) + [DigitChar(n % 10)];
      assert s[..|s| - 1] == NatToString(n / 10);
      s
  }

  /** `String(n)` for an integer, with a leading minus sign when negative. */
  function IntToString(n: int): (s: string)
    ensures |s| >= 1
    ensures n >= 0 ==> AllDigits(s) && DigitsValue(s) == n
    ensures n < 0 ==> s[0] == '-' && AllDigits(s[1..]) && DigitsValue(s[1..]) == -n
  {
    if n >= 0 then NatToString(n) else "-" + NatToString(-n)
  }

  /** `String(n)` writes no leading zero: the first digit is nonzero unless the number is 0. */
  lemma {:induction false} NatToStringShortest(n: nat)
    ensures |NatToString(n)| == 1 || NatToString(n)[0] != '0'
  {
    if n >= 10 {
      NatToStringShortest(n / 10);
      assert NatToString(n)[0] == NatToString(n / 10)[0];
    }
  }

  /** `String(n)` of an integer has no leading zero after the optional minus sign. */
  lemma IntToStringShortest(n: int)
    ensures n >= 0 ==> |IntToString(n)| == 1 || IntToString(n)[0] != '0'
    ensures n < 0 ==> |IntToString(n)| == 2 || IntToString(n)[1] != '0'
  {
    if n >= 0 {
      NatToStringShortest(n);
    } else {
      NatToStringShortest(-n);
    }
  }

  /** A number with exactly `w` digits prints as its `w`-digit padding. */
  lemma {:induction false} NatToStringWidth(n: nat, w: nat)
    requires 1 <= w && Pow10(w - 1) <= n < Pow10(w)
    ensures NatToString(n) == PadDigits(n, w)
  {
    if w > 1 {
      NatToStringWidth(n / 10, w - 1);
    }
  }

  /** `s.padStart(w, '0')`. */
  function PadStart(s: string, w: nat, fill: char): (r: string)
    ensures |r| == if |s| < w then w else |s|
    ensures r[|r| - |s|..] == s
    ensures forall i :: 0 <= i < |r| - |s| ==> r[i] == fill
  {
    if |s| < w then seq(w - |s|, _ => fill) + s else s
  }

  /** `String(n).padStart(2, '0')` is the two-digit padding of a number below 100. */
  lemma PadStartTwoDigits(n: nat)
    requires n < 100
    ensures PadStart(NatToString(n), 2, '0') == PadDigits(n, 2)
  {
    if n < 10 {
      assert PadDigits(n, 2) == PadDigits(0, 1) + [DigitChar(n)];
    } else {
      NatToStringWidth(n, 2);
    }
  }

  /**
    * The place of a character in UTF-16 code-unit order: characters below
    * U+D800 first, then the supplementary characters (whose first code
    * unit is a high surrogate, U+D800-U+DBFF), then U+E000-U+FFFF.
    */
  function CodeUnitRank(c: char): int
  {
    var n := c as int;
    if n < 0xD800 then n
    else if n < 0x10000 then n + 0x100000
    else n - 0x10000 + 0xD800
  }

  /**
    * Strict string order as JavaScript's `<` and the default
    * `Array.prototype.sort` compute it: the first differing character
    * decides, by its UTF-16 code units, and a proper prefix is smaller.
    * `CodeUnitOrder` proves this is the order of the code-unit sequences.
    */
  predicate LexLess(a: string, b: string)
  {
    if a == [] then b != []
    else if b == [] then false
    else if a[0] != b[0] then CodeUnitRank(a[0]) < CodeUnitRank(b[0])
    else LexLess(a[1..], b[1..])
  }

  predicate LexLessEq(a: string, b: string) { a == b || LexLess(a, b) }

  lemma {:induction false} LexLessIrreflexive(a: string)
    ensures !LexLess(a, a)
  {
    if a != [] { LexLessIrreflexive(a[1..]); }
  }

  lemma {:induction false} LexLessAsymmetric(a: string, b: string)
    requires LexLess(a, b)
    ensures !LexLess(b, a)
  {
    if a != [] && b != [] && a[0] == b[0] { LexLessAsymmetric(a[1..], b[1..]); }
  }

  lemma {:induction false} LexLessTransitive(a: string, b: string, c: string)
    requires LexLess(a, b) && LexLess(b, c)
    ensures LexLess(a, c)
  {
    if a != [] && a[0] == b[0] && b[0] == c[0] {
      LexLessTransitive(a[1..], b[1..], c[1..]);
    }
  }

  lemma {:induction false} LexLessTotal(a: string, b: string)
    ensures a == b || LexLess(a, b) || LexLess(b, a)
  {
    if a != [] && b != [] && a[0] == b[0] {
      LexLessTotal(a[1..], b[1..]);
      if a[1..] == b[1..] { assert a == [a[0]] + a[1..] && b == [b[0]] + b[1..]; }
    }
  }

  /** `!(a < b)` is `b <= a`: the order is total. */
  lemma NotLessIsLessEq(a: string, b: string)
    ensures !LexLess(a, b) <==> LexLessEq(b, a)
  {
    LexLessTotal(a, b);
    if LexLess(b, a) { LexLessAsymmetric(b, a); }
    if a == b { LexLessIrreflexive(a); }
  }

  /** Comparing two concatenations whose first parts have equal length. */
  lemma {:induction false} LexLessConcat(a1: string, a2: string, b1: string, b2: string)
    requires |a1| == |b1|
    ensures LexLess(a1 + a2, b1 + b2) <==> LexLess(a1, b1) || (a1 == b1 && LexLess(a2, b2))
  {
    if a1 != [] {
      assert (a1 + a2)[0] == a1[0] && (b1 + b2)[0] == b1[0];
      assert (a1 + a2)[1..] == a1[1..] + a2 && (b1 + b2)[1..] == b1[1..] + b2;
      LexLessConcat(a1[1..], a2, b1[1..], b2);
      if a1[0] == b1[0] && a1[1..] == b1[1..] { assert a1 == b1; }
    } else {
      assert a1 + a2 == a2 && b1 + b2 == b2;
    }
  }

  /** The UTF-16 encoding of a character: one code unit below U+10000, a surrogate pair above. */
  function CodeUnits(c: char): (u: seq<int>)
    ensures 1 <= |u| <= 2
  {
    var n := c as int;
    if n < 0x10000 then [n] else [0xD800 + (n - 0x10000) / 0x400, 0xDC00 + (n - 0x10000) % 0x400]
  }

  /** The code units of a string, as JavaScript stores it. */
  function Utf16(s: string): (u: seq<int>)
    ensures |u| >= |s|
  {
    if s == [] then [] else CodeUnits(s[0]) + Utf16(s[1..])
  }

  /**
    * The order ECMAScript's IsLessThan gives two strings: the first
    * differing code unit decides, and a proper prefix is smaller.
    */
  predicate UnitsLess(a: seq<int>, b: seq<int>)
  {
    if a == [] then b != []
    else if b == [] then false
    else if a[0] != b[0] then a[0] < b[0]
    else UnitsLess(a[1..], b[1..])
  }

  lemma {:induction false} UnitsLessSamePrefix(p: seq<int>, x: seq<int>, y: seq<int>)
    ensures UnitsLess(p + x, p + y) <==> UnitsLess(x, y)
  {
    if p != [] {
      assert (p + x)[0] == p[0] && (p + y)[0] == p[0];
      assert (p + x)[1..] == p[1..] + x && (p + y)[1..] == p[1..] + y;
      UnitsLessSamePrefix(p[1..], x, y);
    } else {
      assert p + x == x && p + y == y;
    }
  }

  /** The encodings of two different characters differ before either ends, in the order of their ranks. */
  lemma CharUnitsOrder(c: char, d: char, x: seq<int>, y: seq<int>)
    requires c != d
    ensures UnitsLess(CodeUnits(c) + x, CodeUnits(d) + y) <==> CodeUnitRank(c) < CodeUnitRank(d)
  {
    var u, v := CodeUnits(c) + x, CodeUnits(d) + y;
    assert u[0] == CodeUnits(c)[0] && v[0] == CodeUnits(d)[0];
    if u[0] == v[0] {
      assert |CodeUnits(c)| == 2 && |CodeUnits(d)| == 2;
      assert u[1..][0] == CodeUnits(c)[1] && v[1..][0] == CodeUnits(d)[1];
    }
  }

  /** `LexLess` is exactly the code-unit order of the UTF-16 encodings. */
  lemma {:induction false} CodeUnitOrder(a: string, b: string)
    ensures LexLess(a, b) <==> UnitsLess(Utf16(a), Utf16(b))
  {
    if a == [] || b == [] {
    } else if a[0] == b[0] {
      CodeUnitOrder(a[1..], b[1..]);
      UnitsLessSamePrefix(CodeUnits(a[0]), Utf16(a[1..]), Utf16(b[1..]));
    } else {
      CharUnitsOrder(a[0], b[0], Utf16(a[1..]), Utf16(b[1..]));
    }
  }

  /**
    * A supplementary character sorts before U+E000-U+FFFF, as JavaScript
    * sorts U+1F600 before U+FF01, though its code point is larger.
    */
  lemma SurrogateOrderExample()
    ensures LexLess("\U{1F600}", "\U{FF01}") && !LexLess("\U{FF01}", "\U{1F600}")
    ensures Utf16("\U{1F600}") == [0xD83D, 0xDE00] && Utf16("\U{FF01}") == [0xFF01]
  {
  }

  /** Zero padding to a common width turns numeric order into string order. */
  lemma {:induction false} PadDigitsOrder(x: nat, y: nat, w: nat)
    requires x < Pow10(w) && y < Pow10(w)
    ensures LexLess(PadDigits(x, w), PadDigits(y, w)) <==> x < y
  {
    if w == 0 {
      LexLessIrreflexive([]);
    } else {
      var px, py := PadDigits(x / 10, w - 1), PadDigits(y / 10, w - 1);
      var dx, dy := [DigitChar(x % 10)], [DigitChar(y % 10)];
      LexLessConcat(px, dx, py, dy);
      PadDigitsOrder(x / 10, y / 10, w - 1);
      if px == py {
        PadDigitsValue(x / 10, w - 1);
        PadDigitsValue(y / 10, w - 1);
      }
      DigitOrder(x % 10, y % 10);
      DecimalOrder(x, y);
    }
  }

  /** One-digit strings compare as their digits. */
  lemma DigitOrder(a: nat, b: nat)
    requires a < 10 && b < 10
    ensures LexLess([DigitChar(a)], [DigitChar(b)]) <==> a < b
  {
    assert [DigitChar(a)][1..] == [] && [DigitChar(b)][1..] == [];
  }

  /** Numbers compare by their leading digits first, then by their last digit. */
  lemma DecimalOrder(x: nat, y: nat)
    ensures x < y <==> x / 10 < y / 10 || (x / 10 == y / 10 && x % 10 < y % 10)
  {
  }

  /** The parts joined with `sep` between consecutive parts (`Array.join`). */
  function Join(sep: string, parts: seq<string>): (r: string)
    ensures |parts| == 1 ==> r == parts[0]
  {
    if parts == [] then []
    else if |parts| == 1 then parts[0]
    else parts[0] + sep + Join(sep, parts[1..])
  }

  predicate IsPrefix(p: string, s: string) { |p| <= |s| && s[..|p|] == p }

  predicate Contains(s: string, part: string)
  {
    exists i :: 0 <= i <= |s| && IsPrefix(part, s[i..])
  }
}
