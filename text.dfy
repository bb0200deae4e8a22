/** Text primitives the process table relies on: Python's `str.lower()`,
    the `in` operator on strings, Python's ordering of strings, and the
    decimal and hexadecimal renderings that end up in the table. */
module Text {

  /** `str.lower()` on one character; only the ASCII letters are mapped. */
  function LowerChar(c: char): char
  {
    if 'A' <= c <= 'Z' then (c as int + 32) as char else c
  }

  /** `s.lower()`, character by character. */
  function Lower(s: string): string
  {
    seq(|s|, i requires 0 <= i < |s| => LowerChar(s[i]))
  }

  /** `q` occurs in `s` starting at position `i`. */
  ghost predicate OccursAt(q: string, s: string, i: nat)
  {
    i + |q| <= |s| && s[i..i + |q|] == q
  }

  /** Python's `q in s` for two strings, as a search from the left. */
  predicate Contains(s: string, q: string)
    decreases |s|
  {
    q <= s || (|s| > 0 && Contains(s[1..], q))
  }

  /** The search really decides substring occurrence, in both directions. */
  lemma {:induction false} ContainsIffOccurs(s: string, q: string)
    ensures Contains(s, q) <==> exists i: nat :: OccursAt(q, s, i)
    decreases |s|
  {
    if q <= s {
      assert OccursAt(q, s, 0);
    } else if |s| > 0 {
      ContainsIffOccurs(s[1..], q);
      forall i: nat | OccursAt(q, s[1..], i)
        ensures OccursAt(q, s, i + 1)
      {
        assert s[1..][i..i + |q|] == s[i + 1..i + 1 + |q|];
      }
      forall i: nat | OccursAt(q, s, i)
        ensures i >= 1 && OccursAt(q, s[1..], i - 1)
      {
        assert s[1..][i - 1..i - 1 + |q|] == s[i..i + |q|];
      }
    }
  }

  /** `"" in s` holds for every string `s`. */
  lemma EmptyIsContained(s: string)
    ensures Contains(s, "")
  {
  }

  /** Python's `a < b` on strings: code point by code point, a proper
      prefix before any of its extensions. */
  predicate StrLess(a: string, b: string)
    decreases |a|
  {
    if |a| == 0 then |b| > 0
    else if |b| == 0 then false
    else if a[0] != b[0] then a[0] < b[0]
    else StrLess(a[1..], b[1..])
  }

  lemma {:induction false} StrLessIrreflexive(a: string)
    ensures !StrLess(a, a)
    decreases |a|
  {
    if |a| > 0 {
      StrLessIrreflexive(a[1..]);
    }
  }

  lemma {:induction false} StrLessTransitive(a: string, b: string, c: string)
    requires StrLess(a, b) && StrLess(b, c)
    ensures StrLess(a, c)
    decreases |a|
  {
    if |a| > 0 && a[0] == b[0] && b[0] == c[0] {
      StrLessTransitive(a[1..], b[1..], c[1..]);
    }
  }

  /** Two different strings are always ordered one way or the other. */
  lemma {:induction false} StrLessTotal(a: string, b: string)
    requires a != b
    ensures StrLess(a, b) || StrLess(b, a)
    decreases |a|
  {
    if |a| > 0 && |b| > 0 && a[0] == b[0] {
      assert a == [a[0]] + a[1..] && b == [b[0]] + b[1..];
      StrLessTotal(a[1..], b[1..]);
    }
  }

  lemma {:induction false} StrLessAsymmetric(a: string, b: string)
    requires StrLess(a, b)
    ensures !StrLess(b, a)
    decreases |a|
  {
    if |a| > 0 && a[0] == b[0] {
      StrLessAsymmetric(a[1..], b[1..]);
    }
  }

  /** Upper-case hexadecimal digits; the first ten are the decimal ones. */
  const Digits: string := "0123456789ABCDEF"

  /** `str(n)` for a non-negative integer. */
  function Decimal(n: nat): (s: string)
    ensures |s| >= 1
    ensures forall i :: 0 <= i < |s| ==> '0' <= s[i] <= '9'
    decreases n
  {
    if n < 10 then [Digits[n]] else Decimal(n / 10) + [Digits[n % 10]]
  }

  /** Value of a decimal numeral, read from its last digit. */
  function DecimalValue(s: string): nat
  {
    if |s| == 0 then 0 else DecimalValue(s[..|s| - 1]) * 10 + DigitValue(s[|s| - 1])
  }

  /** `str(n)` reads back as `n`: the PID and thread cells spell out the
      number itself. */
  lemma {:induction false} DecimalValueOfDecimal(n: nat)
    ensures DecimalValue(Decimal(n)) == n
    decreases n
  {
    DigitValueOfDigit(n % 10);
    if n >= 10 {
      DecimalValueOfDecimal(n / 10);
      var s := Decimal(n / 10) + [Digits[n % 10]];
      assert s[..|s| - 1] == Decimal(n / 10);
      assert s[|s| - 1] == Digits[n % 10];
    }
  }

  /** Upper-case hexadecimal rendering of `n`, without leading zeros. */
  function Hex(n: nat): string
    decreases n
  {
    if n < 16 then [Digits[n]] else Hex(n / 16) + [Digits[n % 16]]
  }

  /** `'0'` characters prepended until `t` is `width` characters long. */
  function PadZeros(t: string, width: nat): (r: string)
    ensures |r| == if |t| < width then width else |t|
    decreases width - |t|
  {
    if |t| < width then PadZeros("0" + t, width) else t
  }

  /** The id Tk gives the `serial`-th item inserted into a treeview
      without an explicit id: `I` and the serial in upper-case hexadecimal,
      at least three digits. */
  function RowId(serial: nat): string
  {
    "I" + PadZeros(Hex(serial), 3)
  }

  /** Value of one hexadecimal digit; anything else counts as 0. */
  function DigitValue(c: char): (v: nat)
    ensures v < 16
  {
    if '0' <= c <= '9' then c as int - '0' as int
    else if 'A' <= c <= 'F' then c as int - 'A' as int + 10
    else 0
  }

  /** Value of a hexadecimal numeral, read from its last digit. */
  function HexValue(s: string): nat
  {
    if |s| == 0 then 0 else HexValue(s[..|s| - 1]) * 16 + DigitValue(s[|s| - 1])
  }

  /** The serial a row id stands for. */
  function SerialOf(iid: string): nat
  {
    if |iid| == 0 then 0 else HexValue(iid[1..])
  }

  /** Each hexadecimal digit reads back as its value. */
  lemma DigitValueOfDigit(d: nat)
    requires d < 16
    ensures DigitValue(Digits[d]) == d
  {
  }

  lemma {:induction false} HexValueOfHex(n: nat)
    ensures HexValue(Hex(n)) == n
    decreases n
  {
    DigitValueOfDigit(n % 16);
    if n >= 16 {
      HexValueOfHex(n / 16);
      var s := Hex(n / 16) + [Digits[n % 16]];
      assert s[..|s| - 1] == Hex(n / 16);
      assert s[|s| - 1] == Digits[n % 16];
    }
  }

  lemma {:induction false} LeadingZeroIgnored(t: string)
    ensures HexValue("0" + t) == HexValue(t)
    decreases |t|
  {
    if t != [] {
      var z := "0" + t;
      assert z[..|z| - 1] == "0" + t[..|t| - 1];
      LeadingZeroIgnored(t[..|t| - 1]);
    } else {
      assert ("0" + t)[..0] == [];
    }
  }

  lemma {:induction false} PadZerosKeepsValue(t: string, width: nat)
    ensures HexValue(PadZeros(t, width)) == HexValue(t)
    decreases width - |t|
  {
    if |t| < width {
      PadZerosKeepsValue("0" + t, width);
      LeadingZeroIgnored(t);
    }
  }

  /** Row ids round-trip to their serials, so different serials give
      different ids. */
  lemma SerialOfRowId(serial: nat)
    ensures SerialOf(RowId(serial)) == serial
  {
    var id := RowId(serial);
    assert id[1..] == PadZeros(Hex(serial), 3);
    PadZerosKeepsValue(Hex(serial), 3);
    HexValueOfHex(serial);
  }
}
