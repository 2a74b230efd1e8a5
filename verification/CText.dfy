/** The C values every other module speaks about: 32-bit unsigned words, and
    NUL-terminated text read through a pointer.  A pointer into a text is the
    suffix it points at, so reading the terminating NUL is reading "". */
module CText {

  const TWO32: int := 0x1_0000_0000

  type u32 = x: int | 0 <= x < 0x1_0000_0000

  type byte = x: int | 0 <= x < 256

  datatype Option<+T> = None | Some(value: T)

  function Add32(a: u32, b: u32): u32 { (a + b) % TWO32 }

  function Sub32(a: u32, b: u32): u32 { (a - b) % TWO32 }

  function Without<T>(s: seq<T>, k: nat): seq<T>
    requires k < |s|
  {
    s[..k] + s[k + 1..]
  }

  predicate StartsWith(s: string, prefix: string) { prefix <= s }

  /** strchr: the index of the first `c` in `s`. */
  function IndexOf(s: string, c: char): (r: Option<nat>)
    ensures r.Some? ==> r.value < |s| && s[r.value] == c && c !in s[..r.value]
    ensures r.None? ==> c !in s
  {
    if s == "" then None
    else if s[0] == c then Some(0)
    else match IndexOf(s[1..], c)
      case None => None
      case Some(i) => assert s[..i + 1] == [s[0]] + s[1..][..i]; Some(i + 1)
  }

  lemma {:induction false} IndexOfPast(s: string, c: char, t: string)
    requires c !in s
    ensures IndexOf(s + [c] + t, c) == Some(|s|)
    ensures (s + [c] + t)[..|s|] == s && (s + [c] + t)[|s| + 1..] == t
  {
    if s != "" {
      IndexOfPast(s[1..], c, t);
      assert (s + [c] + t)[1..] == s[1..] + [c] + t;
    }
  }

  // ---------- numbers as text ----------

  predicate IsDigit(c: char) { '0' <= c <= '9' }

  predicate IsXDigit(c: char) { IsDigit(c) || 'a' <= c <= 'f' || 'A' <= c <= 'F' }

  function DigitValue(c: char): nat
    requires IsXDigit(c)
  {
    if IsDigit(c) then c as int - '0' as int
    else if 'a' <= c <= 'f' then c as int - 'a' as int + 10
    else c as int - 'A' as int + 10
  }

  /** The digit loop of simple_strtoul, in 32-bit arithmetic. */
  function Digits(s: string, base: nat, acc: u32): (r: (u32, string))
    ensures |r.1| <= |s|
    ensures r.0 != acc ==> |r.1| < |s|
  {
    if s != "" && IsXDigit(s[0]) && DigitValue(s[0]) < base
    then Digits(s[1..], base, (acc * base + DigitValue(s[0])) % TWO32)
    else (acc, s)
  }

  /** simple_strtoul: base 0 means octal after "0", hexadecimal after "0x", else decimal. */
  function Strtoul(s: string, base: nat): (r: (u32, string))
    ensures |r.1| <= |s|
    ensures r.0 != 0 ==> |r.1| < |s|
  {
    if s != "" && s[0] == '0' then
      if |s| > 2 && s[1] == 'x' && IsXDigit(s[2]) then Digits(s[2..], 16, 0)
      else Digits(s[1..], if base == 0 then 8 else base, 0)
    else Digits(s, if base == 0 then 10 else base, 0)
  }

  function DigitChar(d: nat): char
    requires d < 10
  {
    (d + '0' as int) as char
  }

  /** "%lu" */
  function Decimal(n: nat): string {
    if n < 10 then [DigitChar(n)] else Decimal(n / 10) + [DigitChar(n % 10)]
  }

  lemma DigitOf(d: nat)
    requires d < 10
    ensures IsXDigit(DigitChar(d)) && DigitValue(DigitChar(d)) == d
  {
  }

  /** One decimal digit read: what the digit loop does with DigitChar. */
  lemma {:induction false} DigitsStep(d: nat, t: string, acc: u32)
    requires d < 10 && acc * 10 + d < TWO32
    ensures Digits([DigitChar(d)] + t, 10, acc) == Digits(t, 10, acc * 10 + d)
  {
    hide IsXDigit, DigitValue, DigitChar;
    DigitOf(d);
    var s := [DigitChar(d)] + t;
    assert s[0] == DigitChar(d) && s[1..] == t;
    assert Digits(s, 10, acc) == Digits(s[1..], 10, (acc * 10 + d) % TWO32);
  }

  lemma {:induction false} DigitsOfDecimal(n: nat, t: string)
    requires n < TWO32
    ensures Digits(Decimal(n) + t, 10, 0) == Digits(t, 10, n)
  {
    hide Digits, DigitChar;
    if n < 10 {
      DigitsStep(n, t, 0);
    } else {
      var u := [DigitChar(n % 10)] + t;
      DigitsOfDecimal(n / 10, u);
      assert Decimal(n) + t == Decimal(n / 10) + u;
      DigitsStep(n % 10, t, n / 10);
    }
  }

  lemma {:induction false} DecimalHead(n: nat)
    ensures Decimal(n) != "" && IsDigit(Decimal(n)[0])
    ensures Decimal(n)[0] == '0' <==> n == 0
  {
    if n >= 10 { DecimalHead(n / 10); }
  }

  /** Reading back a printed number, when what follows cannot continue it. */
  lemma {:induction false} StrtoulOfDecimal(n: u32, t: string)
    requires t == "" || (!IsXDigit(t[0]) && t[0] != 'x')
    ensures Strtoul(Decimal(n) + t, 0) == (n, t)
  {
    DecimalHead(n);
    DigitsOfDecimal(n, t);
    if n == 0 {
      assert (Decimal(0) + t)[1..] == t;
    }
  }

  // ---------- bytes ----------

  function Sum(s: seq<byte>): nat { if s == [] then 0 else s[0] + Sum(s[1..]) }

  lemma {:induction false} SumConcat(a: seq<byte>, b: seq<byte>)
    ensures Sum(a + b) == Sum(a) + Sum(b)
  {
    if a == [] {
      assert a + b == b;
    } else {
      SumConcat(a[1..], b);
      assert (a + b)[1..] == a[1..] + b;
    }
  }

  /** A word, most significant byte first. */
  function WordBytes(n: u32): (r: seq<byte>)
    ensures |r| == 4
  {
    [n / 0x100_0000, n / 0x1_0000 % 256, n / 256 % 256, n % 256]
  }
}
