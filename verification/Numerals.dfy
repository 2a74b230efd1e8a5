/** Numbers as text: what simple_strtoul of lib_generic/vsprintf.c makes of the digits of a base,
    whatever their case and however many zeros lead. */
module Numerals {
  import opened Arithmetic
  import opened CText

  const LOWER: string := "0123456789abcdef"
  const UPPER: string := "0123456789ABCDEF"

  predicate DigitIs(c: char, d: nat) { d < 16 && (c == LOWER[d] || c == UPPER[d]) }

  type Base = b: int | 2 <= b <= 16 witness 10

  predicate DigitOf(c: char, base: Base) { exists d :: 0 <= d < base && DigitIs(c, d) }

  /** s is n written in a base, in either case, perhaps with leading zeros. */
  predicate Numeral(s: string, base: Base, n: nat)
    decreases |s|
  {
    && s != "" && DigitIs(s[|s| - 1], n % base)
    && if |s| == 1 then n < base else Numeral(s[..|s| - 1], base, n / base)
  }

  /** What follows does not continue a number. */
  predicate Stops(t: string, base: Base) { t == "" || !DigitOf(t[0], base) }

  function NumeralText(n: nat, base: Base): string {
    if n < base then [LOWER[n]] else NumeralText(n / base, base) + [LOWER[n % base]]
  }

  lemma {:induction false} NumeralMore(s: string, base: Base, q: nat, c: char, d: nat)
    requires Numeral(s, base, q) && DigitIs(c, d) && d < base
    ensures Numeral(s + [c], base, base * q + d)
  {
    hide DigitIs;
    DivIs(base * q + d, base, q, d);
    assert (s + [c])[..|s|] == s && s != "";
  }

  lemma {:induction false} NumeralOne(c: char, base: Base, d: nat)
    requires DigitIs(c, d) && d < base
    ensures Numeral([c], base, d)
  {
    hide DigitIs;
    DivIs(d, base, 0, d);
  }

  lemma {:induction false} TextIsNumeral(n: nat, base: Base)
    ensures Numeral(NumeralText(n, base), base, n)
  {
    hide Numeral;
    if n < base {
      NumeralOne(LOWER[n], base, n);
    } else {
      TextIsNumeral(n / base, base);
      DivMod(n, base);
      NumeralMore(NumeralText(n / base, base), base, n / base, LOWER[n % base], n % base);
    }
  }

  // ---------- the digit loop ----------

  lemma DigitValueIs(c: char, d: nat)
    ensures DigitIs(c, d) <==> IsXDigit(c) && DigitValue(c) == d
  {
  }

  lemma WrapNext(q: nat, base: Base, d: nat)
    ensures (q % TWO32 * base + d) % TWO32 == (q * base + d) % TWO32
  {
    var k, r := q / TWO32, q % TWO32;
    assert q * base + d == r * base + d + TWO32 * (k * base) by {
      assert q == TWO32 * k + r;
      assert (TWO32 * k) * base == TWO32 * (k * base);
    }
    ModAdds(r * base + d, TWO32, k * base);
  }

  lemma {:induction false} DigitRead(c: char, d: nat, t: string, base: Base, acc: u32)
    requires DigitIs(c, d) && d < base
    ensures Digits([c] + t, base, acc) == Digits(t, base, (acc * base + d) % TWO32)
  {
    hide DigitIs, IsXDigit, DigitValue;
    DigitValueIs(c, d);
    var s := [c] + t;
    assert s[0] == c && s[1..] == t;
    assert Digits(s, base, acc) == Digits(s[1..], base, (acc * base + d) % TWO32);
  }

  lemma {:induction false} NumeralUnfolds(s: string, n: nat, base: Base)
    requires Numeral(s, base, n)
    ensures s != "" && DigitIs(s[|s| - 1], n % base)
    ensures if |s| == 1 then n < base else Numeral(s[..|s| - 1], base, n / base)
  {
    hide DigitIs;
  }

  /** The last digit of a numeral, and what stands before it. */
  lemma {:induction false} NumeralSplit(s: string, n: nat, base: Base) returns (c: char, q: nat, d: nat)
    requires Numeral(s, base, n)
    ensures s != "" && c == s[|s| - 1] && d < base && DigitIs(c, d) && n == q * base + d
    ensures if |s| == 1 then q == 0 else Numeral(s[..|s| - 1], base, q)
  {
    hide DigitIs, Numeral;
    NumeralUnfolds(s, n, base);
    DivMod(n, base);
    if |s| == 1 {
      DivIs(n, base, 0, n);
    }
    c, q, d := s[|s| - 1], n / base, n % base;
    assert base * q == q * base;
  }

  lemma {:induction false} DigitsOfNumeral(s: string, n: nat, t: string, base: Base)
    requires Numeral(s, base, n)
    ensures Digits(s + t, base, 0) == Digits(t, base, n % TWO32)
    decreases |s|
  {
    hide DigitIs, Digits, Numeral;
    var c, q, d := NumeralSplit(s, n, base);
    WrapNext(q, base, d);
    if |s| == 1 {
      assert s == [c];
      DigitRead(c, d, t, base, 0);
    } else {
      DigitsOfNumeral(s[..|s| - 1], q, [c] + t, base);
      assert s + t == s[..|s| - 1] + ([c] + t);
      DigitRead(c, d, t, base, q % TWO32);
    }
  }

  lemma {:induction false} DigitsStop(t: string, base: Base, acc: u32)
    requires Stops(t, base)
    ensures Digits(t, base, acc) == (acc, t)
  {
    if t != "" && IsXDigit(t[0]) {
      DigitValueIs(t[0], DigitValue(t[0]));
    }
  }

  lemma NoX(c: char, d: nat)
    requires DigitIs(c, d)
    ensures c != 'x' && (c == '0' <==> d == 0)
  {
  }

  lemma {:induction false} FirstDigit(s: string, n: nat, base: Base)
    requires Numeral(s, base, n)
    ensures s != "" && DigitOf(s[0], base)
    ensures 'x' !in s
    decreases |s|
  {
    hide DigitIs;
    NoX(s[|s| - 1], n % base);
    if |s| > 1 {
      FirstDigit(s[..|s| - 1], n / base, base);
      assert s == s[..|s| - 1] + [s[|s| - 1]];
    } else {
      assert DigitIs(s[0], n % base);
    }
  }

  lemma {:induction false} ZeroRead(r: string, base: Base)
    ensures Digits(['0'] + r, base, 0) == Digits(r, base, 0)
  {
    hide Digits;
    assert DigitIs('0', 0);
    DigitRead('0', 0, r, base, 0);
  }

  // ---------- simple_strtoul ----------

  /** A number in the base that is asked for, modulo 2^32; it ends where the digits do. */
  lemma {:induction false} StrtoulOfNumeral(s: string, n: nat, t: string, base: Base)
    requires Numeral(s, base, n) && Stops(t, base) && (s == "0" ==> t == "" || t[0] != 'x')
    ensures Strtoul(s + t, base) == (n % TWO32, t)
  {
    hide Numeral, DigitIs, Digits, Stops;
    DigitsOfNumeral(s, n, t, base);
    DigitsStop(t, base, n % TWO32);
    FirstDigit(s, n, base);
    var u := s + t;
    if s[0] == '0' {
      assert u == ['0'] + u[1..];
      ZeroRead(u[1..], base);
      assert |s| > 1 ==> u[1] == s[1] && s[1] in s;
      assert |s| == 1 ==> s == "0" && (t != "" ==> u[1] == t[0]);
    }
  }

  /** "0x" makes any number hexadecimal. */
  lemma {:induction false} StrtoulOfHex(s: string, n: nat, t: string, base: nat)
    requires Numeral(s, 16, n) && Stops(t, 16)
    ensures Strtoul("0x" + s + t, base) == (n % TWO32, t)
  {
    hide Numeral, DigitIs, Digits, Stops;
    DigitsOfNumeral(s, n, t, 16);
    DigitsStop(t, 16, n % TWO32);
    FirstDigit(s, n, 16);
    var d :| 0 <= d < 16 && DigitIs(s[0], d);
    DigitValueIs(s[0], d);
    var u := "0x" + s + t;
    assert u[2..] == s + t && u[2] == s[0];
  }

  /** Where no base is given, "0" makes a number octal. */
  lemma {:induction false} StrtoulOfOctal(s: string, n: nat, t: string)
    requires Numeral(s, 8, n) && Stops(t, 8)
    ensures Strtoul("0" + s + t, 0) == (n % TWO32, t)
  {
    hide Numeral, DigitIs, Digits, Stops;
    DigitsOfNumeral(s, n, t, 8);
    DigitsStop(t, 8, n % TWO32);
    FirstDigit(s, n, 8);
    var u := "0" + s + t;
    assert u[1..] == s + t && u[1] == s[0] && s[0] in s;
  }

  /** Any other number is decimal. */
  lemma {:induction false} StrtoulOfDigits(s: string, n: nat, t: string)
    requires Numeral(s, 10, n) && Stops(t, 10) && s[0] != '0'
    ensures Strtoul(s + t, 0) == (n % TWO32, t)
  {
    hide Numeral, DigitIs, Digits, Stops;
    DigitsOfNumeral(s, n, t, 10);
    DigitsStop(t, 10, n % TWO32);
    FirstDigit(s, n, 10);
  }

  // ---------- what a whole argument means ----------

  predicate AllDigits(s: string, base: Base) { forall i :: 0 <= i < |s| ==> DigitOf(s[i], base) }

  lemma DigitTaken(s: string, base: Base)
    requires s != "" && IsXDigit(s[0]) && DigitValue(s[0]) < base
    ensures DigitOf(s[0], base)
  {
    hide DigitIs, IsXDigit, DigitValue;
    DigitValueIs(s[0], DigitValue(s[0]));
  }

  lemma {:induction false} DigitsTaken(s: string, base: Base, acc: u32)
    requires Digits(s, base, acc).1 == ""
    ensures AllDigits(s, base)
    decreases |s|
  {
    hide DigitOf, IsXDigit, DigitValue;
    if s != "" {
      DigitTaken(s, base);
      DigitsTaken(s[1..], base, (acc * base + DigitValue(s[0])) % TWO32);
      assert forall i :: 1 <= i < |s| ==> s[i] == s[1..][i - 1];
    }
  }

  lemma {:induction false} NumeralOf(s: string, base: Base) returns (n: nat)
    requires s != "" && AllDigits(s, base)
    ensures Numeral(s, base, n)
    decreases |s|
  {
    hide DigitIs;
    var last := |s| - 1;
    assert DigitOf(s[last], base);
    var d :| 0 <= d < base && DigitIs(s[last], d);
    if last == 0 {
      n := d;
      assert s == [s[0]];
      NumeralOne(s[0], base, d);
    } else {
      assert AllDigits(s[..last], base) by {
        hide DigitOf;
      }
      var q := NumeralOf(s[..last], base);
      n := base * q + d;
      NumeralMore(s[..last], base, q, s[last], d);
      assert s == s[..last] + [s[last]];
    }
  }

  /** A hexadecimal number, with or without "0x". */
  predicate Hexadecimal(s: string, n: nat) { Numeral(s, 16, n) || ("0x" <= s && Numeral(s[2..], 16, n)) }

  /** s is the text of a hexadecimal number that is v modulo 2^32. */
  ghost predicate Means(s: string, v: u32) { exists n: nat :: Hexadecimal(s, n) && v == n % TWO32 }

  lemma {:induction false} HexadecimalRead(s: string, n: nat)
    requires Hexadecimal(s, n)
    ensures s != "" && Strtoul(s, 16) == (n % TWO32, "")
  {
    hide Numeral, Strtoul;
    if Numeral(s, 16, n) {
      StrtoulOfNumeral(s, n, "", 16);
      FirstDigit(s, n, 16);
      assert s + "" == s;
    } else {
      StrtoulOfHex(s[2..], n, "", 16);
      assert "0x" + s[2..] + "" == s;
    }
  }

  /** A whole argument is read to its end exactly if it is a hexadecimal number, and as that number. */
  lemma {:induction false} WholeArgument(s: string, v: u32)
    ensures s != "" && Strtoul(s, 16) == (v, "") <==> Means(s, v)
  {
    hide Numeral, Digits;
    if Means(s, v) {
      var n: nat :| Hexadecimal(s, n) && v == n % TWO32;
      HexadecimalRead(s, n);
    } else if s != "" && Strtoul(s, 16).1 == "" {
      var n: nat;
      if s[0] == '0' && |s| > 2 && s[1] == 'x' && IsXDigit(s[2]) {
        DigitsTaken(s[2..], 16, 0);
        n := NumeralOf(s[2..], 16);
        assert "0x" <= s;
      } else {
        if s[0] == '0' {
          ZeroRead(s[1..], 16);
          assert s == ['0'] + s[1..];
        }
        DigitsTaken(s, 16, 0);
        n := NumeralOf(s, 16);
      }
      assert Hexadecimal(s, n);
      HexadecimalRead(s, n);
    }
  }
}
