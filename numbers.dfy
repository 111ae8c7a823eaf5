/** JavaScript's `parseInt` without a radix, and the decimal rendering of
    `String(n).padStart(2, "0")`. There is no `NaN`: an unparseable string gives `None`. */
module Numbers {
  import opened Chars
  import opened Strings

  predicate AllDigits(s: string) {
    forall i :: 0 <= i < |s| ==> IsDigit(s[i])
  }

  function DigitValue(c: char): (d: nat)
    requires IsDigit(c)
    ensures d < 10
  {
    c as int - '0' as int
  }

  function DigitChar(d: nat): (c: char)
    requires d < 10
    ensures IsDigit(c) && DigitValue(c) == d
  {
    ('0' as int + d) as char
  }

  /** The value of a string of decimal digits, most significant first. */
  function DigitsValue(ds: string): nat
    requires AllDigits(ds)
    decreases |ds|
  {
    if ds == [] then 0 else DigitsValue(ds[..|ds| - 1]) * 10 + DigitValue(ds[|ds| - 1])
  }

  /** The longest prefix of `s` made of decimal digits. */
  function DigitPrefix(s: string): (p: string)
    ensures |p| <= |s| && p == s[..|p|]
    ensures AllDigits(p)
    ensures |p| < |s| ==> !IsDigit(s[|p|])
  {
    if s != [] && IsDigit(s[0]) then [s[0]] + DigitPrefix(s[1..]) else []
  }

  /** The value of the leading digits of `u`, if it has any. */
  function LeadingDigits(u: string): Option<int> {
    var ds := DigitPrefix(u);
    if ds == [] then None else Some(DigitsValue(ds))
  }

  function Negate(o: Option<int>): Option<int> {
    match o
    case None => None
    case Some(v) => Some(-v)
  }

  /** `parseInt(s)`: an optional `+` or `-`, then the longest run of decimal digits;
      with no digit there the result is `NaN`. */
  function ParseInt(s: string): (r: Option<int>)
    ensures var u := if s != [] && (s[0] == '-' || s[0] == '+') then s[1..] else s;
            r.Some? <==> u != [] && IsDigit(u[0])
    ensures r.Some? && r.value < 0 ==> s[0] == '-'
  {
    if s != [] && s[0] == '-' then Negate(LeadingDigits(s[1..]))
    else if s != [] && s[0] == '+' then LeadingDigits(s[1..])
    else LeadingDigits(s)
  }

  /** A string that starts with something other than a sign or a digit does not parse. */
  lemma {:induction false} ParseIntRejects(s: string)
    requires s != [] && !IsDigit(s[0]) && s[0] != '+' && s[0] != '-'
    ensures ParseInt(s) == None
  {}

  lemma {:induction false} DigitsValueAppend(ds: string, d: char)
    requires AllDigits(ds) && IsDigit(d)
    ensures AllDigits(ds + [d]) && DigitsValue(ds + [d]) == DigitsValue(ds) * 10 + DigitValue(d)
  {
    assert (ds + [d])[..|ds|] == ds;
  }

  lemma {:induction false} DigitPrefixOfDigits(ds: string, rest: string)
    requires AllDigits(ds)
    requires rest == [] || !IsDigit(rest[0])
    ensures DigitPrefix(ds + rest) == ds
  {
    if ds == [] {
      assert ds + rest == rest;
    } else {
      assert (ds + rest)[0] == ds[0] && (ds + rest)[1..] == ds[1..] + rest;
      DigitPrefixOfDigits(ds[1..], rest);
    }
  }

  /** The leading digits of digits followed by a non-digit are those digits. */
  lemma {:induction false} LeadingDigitsThen(ds: string, rest: string)
    requires ds != [] && AllDigits(ds)
    requires rest == [] || !IsDigit(rest[0])
    ensures LeadingDigits(ds + rest) == Some(DigitsValue(ds))
  {
    DigitPrefixOfDigits(ds, rest);
  }

  /** `parseInt` reads the leading digits and ignores what follows them: `parseInt("5.6")`
      is 5. */
  lemma {:induction false} ParseIntDigitsThen(ds: string, rest: string)
    requires ds != [] && AllDigits(ds)
    requires rest == [] || !IsDigit(rest[0])
    ensures ParseInt(ds + rest) == Some(DigitsValue(ds))
  {
    assert (ds + rest)[0] == ds[0];
    LeadingDigitsThen(ds, rest);
  }

  /** After a minus sign `parseInt` reads the rest and negates it. */
  lemma {:induction false} ParseIntMinus(t: string)
    ensures ParseInt(['-'] + t) == Negate(LeadingDigits(t))
  {
    assert (['-'] + t)[0] == '-' && (['-'] + t)[1..] == t;
  }

  /** A leading minus sign negates the value; nothing makes the value positive. */
  lemma {:induction false} ParseIntNegative(ds: string, rest: string)
    requires ds != [] && AllDigits(ds)
    requires rest == [] || !IsDigit(rest[0])
    ensures ParseInt(['-'] + (ds + rest)) == Some(0 - DigitsValue(ds))
  {
    ParseIntMinus(ds + rest);
    LeadingDigitsThen(ds, rest);
  }

  /** After a plus sign `parseInt` reads the leading digits unchanged: `parseInt("+3")`
      is 3. */
  lemma {:induction false} ParseIntPlus(ds: string, rest: string)
    requires ds != [] && AllDigits(ds)
    requires rest == [] || !IsDigit(rest[0])
    ensures ParseInt(['+'] + (ds + rest)) == Some(DigitsValue(ds))
  {
    assert (['+'] + (ds + rest))[0] == '+' && (['+'] + (ds + rest))[1..] == ds + rest;
    LeadingDigitsThen(ds, rest);
  }

  /** `String(n)` for a non-negative integer: its decimal digits without leading zeros. */
  function DecimalString(n: nat): (r: string)
    ensures r != [] && AllDigits(r)
    ensures DigitsValue(r) == n
    ensures r[0] == '0' ==> n == 0
    decreases n
  {
    if n < 10 then [DigitChar(n)]
    else
      var r := DecimalString(n / 10) + [DigitChar(n % 10)];
      DigitsValueAppend(DecimalString(n / 10), DigitChar(n % 10));
      r
  }

  /** `s.padStart(width, fill)` with a one-character fill. */
  function PadStart(s: string, width: nat, fill: char): (r: string)
    ensures |r| == if |s| < width then width else |s|
    ensures r[|r| - |s|..] == s
    ensures forall i :: 0 <= i < |r| - |s| ==> r[i] == fill
    decreases width - |s|
  {
    if |s| >= width then s else seq(width - |s|, _ => fill) + s
  }

  /** A leading zero does not change the value of a digit string. */
  lemma {:induction false} LeadingZero(s: string)
    requires AllDigits(s)
    ensures AllDigits(['0'] + s) && DigitsValue(['0'] + s) == DigitsValue(s)
    decreases |s|
  {
    var t := ['0'] + s;
    if s != [] {
      LeadingZero(s[..|s| - 1]);
      assert t[..|t| - 1] == ['0'] + s[..|s| - 1];
      assert t[|t| - 1] == s[|s| - 1];
    }
  }

  function Zeros(n: nat): string {
    seq(n, _ => '0')
  }

  /** Any number of leading zeros leaves the value of a digit string alone. */
  lemma {:induction false} ZerosValue(n: nat, s: string)
    requires AllDigits(s)
    ensures AllDigits(Zeros(n) + s) && DigitsValue(Zeros(n) + s) == DigitsValue(s)
    decreases n
  {
    if n > 0 {
      var t := Zeros(n - 1) + s;
      ZerosValue(n - 1, s);
      LeadingZero(t);
      assert Zeros(n) + s == ['0'] + t;
    } else {
      assert Zeros(n) + s == s;
    }
  }

  /** Padding with zeros keeps a digit string's value. */
  lemma {:induction false} PadStartValue(s: string, width: nat)
    requires AllDigits(s)
    ensures AllDigits(PadStart(s, width, '0'))
    ensures DigitsValue(PadStart(s, width, '0')) == DigitsValue(s)
  {
    if |s| < width {
      ZerosValue(width - |s|, s);
      assert PadStart(s, width, '0') == Zeros(width - |s|) + s;
    }
  }

  /** A number below 100 padded to two places is two digits. */
  lemma {:induction false} PadToTwoDigits(n: nat)
    requires n < 100
    ensures |PadStart(DecimalString(n), 2, '0')| == 2
    ensures AllDigits(PadStart(DecimalString(n), 2, '0'))
  {
    if n >= 10 {
      assert DecimalString(n) == DecimalString(n / 10) + [DigitChar(n % 10)];
      assert |DecimalString(n / 10)| == 1;
    }
    PadStartValue(DecimalString(n), 2);
  }

  /** `parseInt` reads a decimal rendering back: the round trip of `String(n)`. */
  lemma {:induction false} ParseDecimalString(n: nat)
    ensures ParseInt(DecimalString(n)) == Some(n)
  {
    var r := DecimalString(n);
    assert r + [] == r;
    ParseIntDigitsThen(r, []);
  }
}
