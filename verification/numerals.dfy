/** Positional numerals as JavaScript writes and reads them: `Number.prototype.toString(radix)`
    for non-negative integers (lower-case digits, no leading zeros) and `parseInt(s, 16)`. */
module Numerals {
  import opened Wrappers

  /** The radixes the pages use: decimal for addresses and timestamps, hex for block numbers. */
  predicate ValidBase(base: nat) {
    base == 10 || base == 16
  }

  /** Value of a digit character in radix `base`; letters are accepted in either case. */
  function DigitValue(c: char, base: nat): (r: Option<nat>)
    requires ValidBase(base)
    ensures r.Some? ==> r.value < base
  {
    var v: int :=
      if '0' <= c <= '9' then c as int - '0' as int
      else if 'a' <= c <= 'z' then c as int - 'a' as int + 10
      else if 'A' <= c <= 'Z' then c as int - 'A' as int + 10
      else base;
    if v < base then Some(v) else None
  }

  predicate IsDigit(c: char, base: nat)
    requires ValidBase(base)
  {
    DigitValue(c, base).Some?
  }

  predicate AllDigits(s: string, base: nat)
    requires ValidBase(base)
  {
    forall i | 0 <= i < |s| :: IsDigit(s[i], base)
  }

  /** The lower-case character of digit `d`. */
  function DigitChar(d: nat, base: nat): (c: char)
    requires ValidBase(base) && d < base
    ensures DigitValue(c, base) == Some(d)
    ensures c != 'x' && c != 'X'
    ensures !('A' <= c <= 'Z')
  {
    if d < 10 then ('0' as int + d) as char else ('a' as int + d - 10) as char
  }

  /** `n.toString(base)`: the shortest numeral of `n`, lower-case, with no leading zero. */
  function ToRadix(n: nat, base: nat): (s: string)
    requires ValidBase(base)
    ensures |s| >= 1
    ensures AllDigits(s, base)
    decreases n
  {
    if n < base then [DigitChar(n, base)]
    else ToRadix(n / base, base) + [DigitChar(n % base, base)]
  }

  /** Like `toString`, `ToRadix` writes no leading zero: the numeral starts with `0` only
      for zero itself. */
  lemma {:induction false} ToRadixNoLeadingZero(n: nat, base: nat)
    requires ValidBase(base)
    ensures ToRadix(n, base)[0] == '0' <==> n == 0
    decreases n
  {
    if n >= base {
      DivMod(n, base);
      ToRadixNoLeadingZero(n / base, base);
      assert ToRadix(n, base)[0] == ToRadix(n / base, base)[0];
    }
  }

  /** The value of a string of digits, most significant first. */
  function FromDigits(s: string, base: nat): nat
    requires ValidBase(base)
    requires AllDigits(s, base)
    decreases |s|
  {
    if |s| == 0 then 0
    else FromDigits(s[..|s| - 1], base) * base + DigitValue(s[|s| - 1], base).value
  }

  /** The form `toString` writes: at least one digit, no leading zero unless the numeral is
      `0` itself, and no upper-case letter. */
  predicate Canonical(s: string) {
    |s| > 0 && (s[0] == '0' ==> |s| == 1) && NoUpperCase(s)
  }

  /** `ToRadix` writes canonical numerals. */
  lemma ToRadixCanonical(n: nat, base: nat)
    requires ValidBase(base)
    ensures Canonical(ToRadix(n, base))
  {
    ToRadixNoLeadingZero(n, base);
    ToRadixLowerCase(n, base);
  }

  /** A lower-case digit is the character `DigitChar` writes for its value. */
  lemma DigitCharOfValue(c: char, base: nat)
    requires ValidBase(base) && IsDigit(c, base) && !('A' <= c <= 'Z')
    ensures DigitChar(DigitValue(c, base).value, base) == c
  {
  }

  /** Appending digit `d` to the numeral of a positive `q` writes `q * base + d`. */
  lemma ToRadixSnoc(q: nat, d: nat, base: nat)
    requires ValidBase(base) && 0 < q && d < base
    ensures ToRadix(q * base + d, base) == ToRadix(q, base) + [DigitChar(d, base)]
  {
    DivModOf(q, d, base);
  }

  /** Quotient and remainder of `q * base + d` by the radix are `q` and `d`, and the number
      is at least the radix when `q` is positive. */
  lemma DivModOf(q: nat, d: nat, base: nat)
    requires ValidBase(base) && d < base
    ensures (q * base + d) / base == q && (q * base + d) % base == d
    ensures q > 0 ==> q * base + d >= base
  {
  }

  /** Dropping the last digit of a canonical numeral of two or more digits leaves a
      canonical numeral. */
  lemma CanonicalInit(s: string, base: nat)
    requires ValidBase(base) && AllDigits(s, base) && Canonical(s) && |s| >= 2
    ensures AllDigits(s[..|s| - 1], base) && Canonical(s[..|s| - 1]) && s[..|s| - 1][0] != '0'
  {
    assert s[..|s| - 1][0] == s[0];
  }

  /** A canonical numeral is the one `ToRadix` writes for its value, so canonical numerals
      and numbers correspond one to one. */
  lemma {:induction false} CanonicalToRadix(s: string, base: nat)
    requires ValidBase(base) && AllDigits(s, base) && Canonical(s)
    ensures ToRadix(FromDigits(s, base), base) == s
    decreases |s|
  {
    var init, c := s[..|s| - 1], s[|s| - 1];
    assert s == init + [c];
    DigitCharOfValue(c, base);
    var d := DigitValue(c, base).value;
    assert FromDigits(s, base) == FromDigits(init, base) * base + d;
    if |s| > 1 {
      CanonicalInit(s, base);
      CanonicalToRadix(init, base);
      ToRadixNoLeadingZero(FromDigits(init, base), base);
      ToRadixSnoc(FromDigits(init, base), d, base);
    }
  }

  /** Reading back what `ToRadix` wrote gives the number it started from. */
  lemma {:induction false} FromToRadix(n: nat, base: nat)
    requires ValidBase(base)
    ensures FromDigits(ToRadix(n, base), base) == n
    decreases n
  {
    if n < base {
      assert [DigitChar(n, base)][..0] == [];
    } else {
      DivMod(n, base);
      var q, d := n / base, n % base;
      var init := ToRadix(q, base);
      FromToRadix(q, base);
      assert ToRadix(n, base) == init + [DigitChar(d, base)];
      FromDigitsSnoc(init, DigitChar(d, base), base);
    }
  }

  /** Appending one digit multiplies by the radix and adds the digit. */
  lemma FromDigitsSnoc(s: string, c: char, base: nat)
    requires ValidBase(base) && AllDigits(s, base) && IsDigit(c, base)
    ensures AllDigits(s + [c], base)
    ensures FromDigits(s + [c], base) == FromDigits(s, base) * base + DigitValue(c, base).value
  {
  }

  lemma DivMod(n: nat, base: nat)
    requires ValidBase(base)
    ensures n == (n / base) * base + n % base
    ensures 0 <= n % base < base
    ensures n >= base ==> n / base < n
  {
  }

  /** Distinct numbers have distinct numerals. */
  lemma ToRadixInjective(m: nat, n: nat, base: nat)
    requires ValidBase(base)
    requires ToRadix(m, base) == ToRadix(n, base)
    ensures m == n
  {
    FromToRadix(m, base);
    FromToRadix(n, base);
  }

  /** Length of the longest prefix of `s` made of radix-`base` digits. */
  function DigitRun(s: string, base: nat): (k: nat)
    requires ValidBase(base)
    ensures k <= |s|
    ensures AllDigits(s[..k], base)
    ensures k < |s| ==> !IsDigit(s[k], base)
    decreases |s|
  {
    if |s| == 0 || !IsDigit(s[0], base) then 0
    else
      var k := 1 + DigitRun(s[1..], base);
      assert forall i | 1 <= i < k :: s[..k][i] == s[1..][..k - 1][i - 1];
      k
  }

  /** `parseInt` with radix 16 skips one leading `0x` or `0X`. */
  function StripHexPrefix(s: string): (body: string)
    ensures |s| >= 2 && s[0] == '0' && s[1] in "xX" ==> body == s[2..]
    ensures !(|s| >= 2 && s[0] == '0' && s[1] in "xX") ==> body == s
  {
    if |s| >= 2 && s[0] == '0' && (s[1] == 'x' || s[1] == 'X') then s[2..] else s
  }

  /** `parseInt(s, 16)` for a string without leading white space or sign: the value of the
      longest run of hex digits after an optional `0x`, or `None` (JavaScript's `NaN`)
      when that run is empty. */
  function ParseHex(s: string): (r: Option<nat>)
    ensures r.None? <==> |StripHexPrefix(s)| == 0 || !IsDigit(StripHexPrefix(s)[0], 16)
    ensures |StripHexPrefix(s)| > 0 && AllDigits(StripHexPrefix(s), 16) ==>
      r == Some(FromDigits(StripHexPrefix(s), 16))
  {
    var body := StripHexPrefix(s);
    var k := DigitRun(body, 16);
    assert body[..|body|] == body;
    if k == 0 then None else Some(FromDigits(body[..k], 16))
  }

  /** No upper-case Latin letter occurs in `s`. */
  predicate NoUpperCase(s: string) {
    forall i | 0 <= i < |s| :: !('A' <= s[i] <= 'Z')
  }

  /** `toString` writes its digits in lower case. */
  lemma {:induction false} ToRadixLowerCase(n: nat, base: nat)
    requires ValidBase(base)
    ensures NoUpperCase(ToRadix(n, base))
    decreases n
  {
    if n >= base {
      DivMod(n, base);
      ToRadixLowerCase(n / base, base);
    }
  }

  /** `"0x" + n.toString(16)`, the JSON-RPC quantity encoding. */
  function HexQuantity(n: nat): (s: string)
    ensures |s| >= 3 && s[..2] == "0x"
    ensures AllDigits(s[2..], 16) && Canonical(s[2..])
    ensures s[2] == '0' ==> n == 0
    ensures NoUpperCase(s)
  {
    ToRadixLowerCase(n, 16);
    ToRadixCanonical(n, 16);
    var s := "0x" + ToRadix(n, 16);
    assert s[2..] == ToRadix(n, 16);
    s
  }

  /** A run of digits followed by a non-digit (or nothing) has exactly that run as its prefix. */
  lemma {:induction false} DigitRunOfDigits(d: string, rest: string, base: nat)
    requires ValidBase(base)
    requires AllDigits(d, base)
    requires |rest| == 0 || !IsDigit(rest[0], base)
    ensures DigitRun(d + rest, base) == |d|
    decreases |d|
  {
    if |d| > 0 {
      assert (d + rest)[1..] == d[1..] + rest;
      DigitRunOfDigits(d[1..], rest, base);
    }
  }

  /** Round trip: `parseInt(HexQuantity(n) + rest, 16)` recovers `n` whenever what follows the
      numeral does not start with a hex digit (in particular when nothing follows). */
  lemma HexQuantityRoundTrip(n: nat, rest: string)
    requires |rest| == 0 || !IsDigit(rest[0], 16)
    ensures ParseHex(HexQuantity(n) + rest) == Some(n)
  {
    var digits := ToRadix(n, 16);
    var s := HexQuantity(n) + rest;
    assert s == "0x" + (digits + rest);
    assert StripHexPrefix(s) == digits + rest;
    DigitRunOfDigits(digits, rest, 16);
    assert (digits + rest)[..|digits|] == digits;
    FromToRadix(n, 16);
  }

  /** A string of hex digits has no `0x` prefix to skip. */
  lemma StripHexPrefixOfDigits(d: string)
    requires AllDigits(d, 16)
    ensures StripHexPrefix(d) == d
  {
  }

  /** `parseInt` reads a hex numeral without the `0x` prefix too. */
  lemma BareHexRoundTrip(n: nat)
    ensures ParseHex(ToRadix(n, 16)) == Some(n)
  {
    StripHexPrefixOfDigits(ToRadix(n, 16));
    FromToRadix(n, 16);
  }
}
