/** The C string conventions the watchface relies on: NUL-terminated char
    buffers, `snprintf` truncation to the buffer size, and `%d` formatting. */
module CStrings {

  /** A string that can be written into a C buffer without being cut short
      by an embedded terminator. */
  predicate NoNul(s: string) {
    forall i :: 0 <= i < |s| ==> s[i] != '\0'
  }

  /** The characters of a NUL-terminated string, as a `%s` reader sees them. */
  type CText = s: string | NoNul(s)

  /** What a C reader sees in a buffer: every character before the first NUL
      (the whole buffer if it holds none). */
  function CStr(buf: seq<char>): (r: CText)
    ensures r <= buf
    ensures |r| < |buf| ==> buf[|r|] == '\0'
  {
    if buf == [] || buf[0] == '\0' then [] else [buf[0]] + CStr(buf[1..])
  }

  /** Reading back a terminated string yields exactly that string, whatever
      follows the terminator. */
  lemma {:induction false} CStrOfTerminated(t: string, rest: seq<char>)
    requires NoNul(t)
    ensures CStr(t + ['\0'] + rest) == t
  {
    if t != [] {
      assert (t + ['\0'] + rest)[1..] == t[1..] + ['\0'] + rest;
      CStrOfTerminated(t[1..], rest);
    }
  }

  function Min(a: int, b: int): (r: int) { if a < b then a else b }
  function Max(a: int, b: int): (r: int) { if a < b then b else a }

  /** The text `snprintf(buf, size, ...)` leaves in a buffer of `size` bytes
      when the formatted output is `s`: the longest prefix of `s` that leaves
      room for the terminator. */
  function Truncated(s: string, size: nat): (r: string)
    requires size > 0
    ensures r <= s
    ensures |r| == Min(|s|, size - 1)
  {
    if |s| < size then s else s[..size - 1]
  }

  /** `snprintf(buf, buf.Length, "%s", s)`: copies as much of `s` as fits,
      terminates it, and leaves the bytes after the terminator alone. */
  method Snprintf(buf: array<char>, s: string)
    requires buf.Length > 0 && NoNul(s)
    modifies buf
    ensures CStr(buf[..]) == Truncated(s, buf.Length)
    ensures var n := |Truncated(s, buf.Length)|;
      buf[..n] == s[..n] && buf[n] == '\0' && buf[n + 1..] == old(buf[n + 1..])
  {
    var n := if |s| < buf.Length then |s| else buf.Length - 1;
    var i := 0;
    while i < n
      invariant 0 <= i <= n
      invariant buf[..i] == s[..i]
      invariant forall j :: i <= j < buf.Length ==> buf[j] == old(buf[j])
    {
      buf[i] := s[i];
      i := i + 1;
    }
    buf[n] := '\0';
    assert buf[..] == s[..n] + ['\0'] + buf[n + 1..];
    CStrOfTerminated(s[..n], buf[n + 1..]);
  }

  // ---------------------------------------------------------------------
  // `%d`: signed decimal text

  predicate IsDigit(c: char) { '0' <= c <= '9' }

  predicate AllDigits(s: string) {
    forall i :: 0 <= i < |s| ==> IsDigit(s[i])
  }

  function DigitChar(d: nat): (c: char)
    requires d < 10
    ensures IsDigit(c)
  {
    ('0' as int + d) as char
  }

  function DigitValue(c: char): (d: nat)
    requires IsDigit(c)
    ensures d < 10 && DigitChar(d) == c
  {
    c as int - '0' as int
  }

  /** The decimal digits of `n`, most significant first, without leading zeros. */
  function Digits(n: nat): (r: string)
    ensures |r| > 0 && AllDigits(r)
    ensures |r| > 1 ==> r[0] != '0'
    decreases n
  {
    if n < 10 then [DigitChar(n)] else Digits(n / 10) + [DigitChar(n % 10)]
  }

  /** Reads a run of decimal digits back into a number. */
  function ParseDigits(s: string): (r: nat)
    requires |s| > 0 && AllDigits(s)
  {
    if |s| == 1 then DigitValue(s[0])
    else 10 * ParseDigits(s[..|s| - 1]) + DigitValue(s[|s| - 1])
  }

  lemma {:induction false} DigitsRoundTrip(n: nat)
    ensures ParseDigits(Digits(n)) == n
    decreases n
  {
    if n >= 10 {
      DigitsRoundTrip(n / 10);
      var d := Digits(n);
      assert d[..|d| - 1] == Digits(n / 10);
      assert DigitValue(d[|d| - 1]) == n % 10;
    }
  }

  function Pow10(k: nat): (p: nat)
    ensures p >= 1
  {
    if k == 0 then 1 else 10 * Pow10(k - 1)
  }

  /** A number below 10^k has at most k digits. */
  lemma {:induction false} DigitsLength(n: nat, k: nat)
    requires 1 <= k && n < Pow10(k)
    ensures |Digits(n)| <= k
    decreases k
  {
    if n >= 10 {
      DigitsLength(n / 10, k - 1);
    }
  }

  /** `%d` of an int: a minus sign for negative values, then the digits of the
      magnitude. */
  function Decimal(n: int): (r: CText)
    ensures |r| > 0
    ensures (r[0] == '-') == (n < 0)
  {
    if n < 0 then "-" + Digits(-n) else Digits(n)
  }

  predicate IsDecimal(s: string) {
    (|s| > 0 && AllDigits(s)) || (|s| > 1 && s[0] == '-' && AllDigits(s[1..]))
  }

  function ParseDecimal(s: string): (r: int)
    requires IsDecimal(s)
  {
    if s[0] == '-' then -(ParseDigits(s[1..]) as int) else ParseDigits(s)
  }

  /** `%d` loses nothing: its text is well formed and parses back to the value. */
  lemma DecimalRoundTrip(n: int)
    ensures IsDecimal(Decimal(n))
    ensures ParseDecimal(Decimal(n)) == n
  {
    if n < 0 {
      assert Decimal(n)[1..] == Digits(-n);
      DigitsRoundTrip(-n);
    } else {
      DigitsRoundTrip(n);
    }
  }

  /** How long `%d` of n is when n lies between -(10^k - 1) and 10^k - 1. */
  lemma DecimalLength(n: int, k: nat)
    requires 1 <= k && -(Pow10(k) as int) < n < Pow10(k)
    ensures |Decimal(n)| <= (if n < 0 then k + 1 else k)
  {
    if n < 0 { DigitsLength(-n, k); } else { DigitsLength(n, k); }
  }
}
