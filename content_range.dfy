/** The size probe of the HTTPS OTA download (iotc_https_ota.c): the `Content-Range` value of the
    answer to a `Range: bytes=0-0` request, `bytes 0-0/<total>` (section 14.4 of RFC 9110), read
    with `sscanf(buffer, "bytes 0-0/%d", &data_length)` after a length check. */
module ContentRange {
  import opened Wrappers
  import CString

  /** S3_RANGE_RESPONSE_PREFIX. */
  const RANGE_PREFIX: string := "bytes 0-0/"

  /** DATA_BYTE_SIZE_CHAR_MAX: `sizeof` of the prefix (its ten characters and the NUL) plus seven
      digits, i.e. 18. */
  const DATA_BYTE_SIZE_CHAR_MAX: int := |RANGE_PREFIX| + 1 + 7

  /** `isspace` in the C locale. */
  predicate IsSpace(c: char)
  {
    c == ' ' || '\t' <= c <= '\r'
  }

  predicate IsDigit(c: char)
  {
    '0' <= c <= '9'
  }

  /** The position after the run of white space that starts at `i`. */
  function SkipSpace(s: string, i: nat): (r: nat)
    requires i <= |s|
    ensures i <= r <= |s|
    ensures forall j :: i <= j < r ==> IsSpace(s[j])
    ensures r < |s| ==> !IsSpace(s[r])
    decreases |s| - i
  {
    if i < |s| && IsSpace(s[i]) then SkipSpace(s, i + 1) else i
  }

  /** The position after the run of digits that starts at `i`. */
  function DigitsEnd(s: string, i: nat): (r: nat)
    requires i <= |s|
    ensures i <= r <= |s|
    ensures forall j :: i <= j < r ==> IsDigit(s[j])
    ensures r < |s| ==> !IsDigit(s[r])
    decreases |s| - i
  {
    if i < |s| && IsDigit(s[i]) then DigitsEnd(s, i + 1) else i
  }

  predicate AllDigits(d: string)
  {
    forall j :: 0 <= j < |d| ==> IsDigit(d[j])
  }

  function Pow10(k: nat): (r: nat)
    ensures r >= 1
  {
    if k == 0 then 1 else 10 * Pow10(k - 1)
  }

  /** The value of a decimal digit (0 for any other character, which the runs of digits read
      below never hold). */
  function DigitValue(c: char): (r: nat)
    ensures r < 10
    ensures IsDigit(c) ==> r == c as int - '0' as int
  {
    if IsDigit(c) then c as int - '0' as int else 0
  }

  /** The value of a string of decimal digits. */
  function DecimalValue(d: string): (r: nat)
    ensures r < Pow10(|d|)
  {
    if d == [] then 0
    else DecimalValue(d[..|d| - 1]) * 10 + DigitValue(d[|d| - 1])
  }

  /** Where `%d` starts reading once the literal part of the format, `bytes`, its white-space
      directive and `0-0/`, has matched; None when it does not match. */
  function AfterLiteral(s: string): (r: Option<nat>)
    ensures r.Some? ==> 9 <= r.value <= |s|
  {
    if !(5 <= |s| && s[..5] == "bytes") then None
    else
      var i := SkipSpace(s, 5);
      if i + 4 <= |s| && s[i..i + 4] == "0-0/" then Some(i + 4) else None
  }

  /** `%d` read from position `j`: white space, one optional sign, then the longest run of digits,
      of which there must be at least one. */
  function ScanInt(s: string, j0: nat): (r: Option<int>)
    requires j0 <= |s|
    ensures r.Some? ==> j0 < |s|
    ensures j0 < |s| && IsDigit(s[j0]) ==> r.Some? && r.value >= 0
    ensures j0 < |s| && !IsSpace(s[j0]) && !IsDigit(s[j0]) && s[j0] != '+' && s[j0] != '-' ==> r.None?
  {
    var j := SkipSpace(s, j0);
    var k := if j < |s| && (s[j] == '+' || s[j] == '-') then j + 1 else j;
    var e := DigitsEnd(s, k);
    if e == k then None
    else
      var v: int := DecimalValue(s[k..e]);
      Some(if k > j && s[j] == '-' then -v else v)
  }

  /** What `%d` reads from at most nine characters lies strictly between -10^9 and 10^9. */
  lemma ScanIntBound(s: string, j0: nat)
    requires j0 <= |s| && |s| - j0 <= 9
    ensures ScanInt(s, j0).Some? ==> -1_000_000_000 < ScanInt(s, j0).value < 1_000_000_000
  {
    var j := SkipSpace(s, j0);
    var k := if j < |s| && (s[j] == '+' || s[j] == '-') then j + 1 else j;
    var e := DigitsEnd(s, k);
    if e > k {
      PowMonotone(e - k, 9);
      assert Pow10(9) == 1_000_000_000;
    }
  }

  /** What `sscanf(s, "bytes 0-0/%d", &v)` stores in `v` when it returns 1, and None when it returns
      anything else: the format's literal characters must match exactly, its space matches any run
      of white space (none included), and then `%d` must convert. */
  function Scan(s: string): (r: Option<int>)
    ensures !(5 <= |s| && s[..5] == "bytes") ==> r.None?
    ensures r.Some? ==> 10 <= |s|
  {
    match AfterLiteral(s)
    case None => None
    case Some(j) => ScanInt(s, j)
  }

  lemma PowMonotone(a: nat, b: nat)
    requires a <= b
    ensures Pow10(a) <= Pow10(b)
  {
    if a < b { PowMonotone(a, b - 1); }
  }

  datatype ProbeError = NoLength | TooLong | NotANumber

  /** The probe's verdict: the total size, or why the download stops with -1. */
  datatype Probe = Size(n: int) | Failed(why: ProbeError)

  /** Reading the size from the `Content-Range` value (None: the header is absent). An absent or
      empty value and one longer than DATA_BYTE_SIZE_CHAR_MAX are refused before `sscanf` runs;
      the value is copied into a buffer and terminated there, so `sscanf` sees its characters up to
      the first NUL. (The code leaves out the terminator; see ParseAsWritten.) */
  function ParseContentRange(value: Option<string>): (r: Probe)
    ensures value.None? ==> r == Failed(NoLength)
    ensures value == Some([]) ==> r == Failed(NoLength)
    ensures value.Some? && |value.value| > DATA_BYTE_SIZE_CHAR_MAX ==> r == Failed(TooLong)
    ensures r.Size? ==> value.Some? && 0 < |value.value| <= DATA_BYTE_SIZE_CHAR_MAX
    ensures r.Size? ==> Scan(CString.Str(value.value)) == Some(r.n)
    ensures r == Failed(NotANumber) <==>
              value.Some? && 0 < |value.value| <= DATA_BYTE_SIZE_CHAR_MAX && Scan(CString.Str(value.value)).None?
  {
    match value
    case None => Failed(NoLength)
    case Some(v) =>
      if |v| == 0 then Failed(NoLength)
      else if |v| > DATA_BYTE_SIZE_CHAR_MAX then Failed(TooLong)
      else match Scan(CString.Str(v))
        case None => Failed(NotANumber)
        case Some(n) => Size(n)
  }

  /** A size that passes the probe has at most nine digits, so `%d` stores it in a 32-bit int without
      overflow. */
  lemma {:induction false} ProbeFitsInt32(value: Option<string>)
    requires ParseContentRange(value).Size?
    ensures -1_000_000_000 < ParseContentRange(value).n < 1_000_000_000
  {
    var s := CString.Str(value.value);
    assert |s| <= DATA_BYTE_SIZE_CHAR_MAX;
    var j := AfterLiteral(s).value;
    assert Scan(s) == ScanInt(s, j);
    ScanIntBound(s, j);
  }

  /** The decimal rendering of a natural number, most significant digit first. */
  function Decimal(n: nat): (r: string)
    ensures |r| >= 1 && AllDigits(r)
    ensures r[0] != '0' || n == 0
  {
    if n < 10 then [Digit(n)] else Decimal(n / 10) + [Digit(n % 10)]
  }

  function Digit(d: nat): (c: char)
    requires d < 10
    ensures IsDigit(c) && c as int - '0' as int == d
  {
    (d + '0' as int) as char
  }

  lemma {:induction false} DecimalRoundTrip(n: nat)
    ensures DecimalValue(Decimal(n)) == n
    ensures n < Pow10(|Decimal(n)|)
    ensures |Decimal(n)| == 1 || Pow10(|Decimal(n)| - 1) <= n
  {
    if n >= 10 {
      DecimalRoundTrip(n / 10);
      var d := Decimal(n);
      assert d[..|d| - 1] == Decimal(n / 10);
    }
  }

  /** Numbers of up to eight digits pass the length check: the header `bytes 0-0/<n>` probes to n. */
  lemma {:induction false} ProbeRoundTrip(n: nat)
    requires n < 100_000_000
    ensures ParseContentRange(Some(RANGE_PREFIX + Decimal(n))) == Size(n)
  {
    var d := Decimal(n);
    DecimalRoundTrip(n);
    if |d| > 8 {
      PowMonotone(8, |d| - 1);
      assert false;
    }
    var s := RANGE_PREFIX + d;
    NoNul(d);
    PrefixMatches(d);
    ScanDigits(d, n);
  }

  lemma NoNul(rest: string)
    requires forall j :: 0 <= j < |rest| ==> rest[j] != CString.NUL
    ensures CString.Str(RANGE_PREFIX + rest) == RANGE_PREFIX + rest
  {
    assert CString.NUL !in rest;
    assert CString.NUL !in RANGE_PREFIX;
    assert CString.NUL !in RANGE_PREFIX + rest;
  }

  lemma ScanDigits(d: string, n: nat)
    requires AllDigits(d) && |d| >= 1 && DecimalValue(d) == n
    ensures ScanInt(RANGE_PREFIX + d, 10) == Some(n)
  {
    var s := RANGE_PREFIX + d;
    assert s[10..] == d;
    forall j | 10 <= j < |s|
      ensures IsDigit(s[j])
    {
      assert s[j] == d[j - 10];
    }
    ScanUnsigned(s, 10);
  }

  /** `%d` on a run of digits that reaches the end of the string reads all of them. */
  lemma ScanUnsigned(s: string, i: nat)
    requires i < |s| && forall j :: i <= j < |s| ==> IsDigit(s[j])
    ensures ScanInt(s, i) == Some(DecimalValue(s[i..]) as int)
  {
    assert !IsSpace(s[i]) && SkipSpace(s, i) == i;
    assert s[i] != '+' && s[i] != '-';
    DigitRunAll(s, i);
    assert s[i..|s|] == s[i..];
  }

  /** The literal part of the format matches the prefix whatever follows it. */
  lemma PrefixMatches(rest: string)
    ensures AfterLiteral(RANGE_PREFIX + rest) == Some(10)
  {
    var s := RANGE_PREFIX + rest;
    assert s[..5] == "bytes";
    assert SkipSpace(s, 6) == 6;
    assert SkipSpace(s, 5) == 6;
    assert s[6..10] == "0-0/";
  }

  lemma {:induction false} DigitRunAll(s: string, i: nat)
    requires i <= |s|
    requires forall j :: i <= j < |s| ==> IsDigit(s[j])
    ensures DigitsEnd(s, i) == |s|
    decreases |s| - i
  {
    if i < |s| { DigitRunAll(s, i + 1); }
  }

  /** A probe answer in S3_RANGE_RESPONSE_PREFIX form: `bytes 0-0/12345` gives the size 12345. */
  lemma ProbeExample()
    ensures ParseContentRange(Some("bytes 0-0/12345")) == Size(12345)
  {
    assert Decimal(1) == "1";
    assert Decimal(12) == Decimal(1) + ['2'];
    assert Decimal(123) == Decimal(12) + ['3'];
    assert Decimal(1234) == Decimal(123) + ['4'];
    assert Decimal(12345) == Decimal(1234) + ['5'];
    assert RANGE_PREFIX + Decimal(12345) == "bytes 0-0/12345";
    ProbeRoundTrip(12345);
  }

  /** `sscanf`'s white-space directive matches no white space as well: the header without its
      space probes to the same size. */
  lemma {:induction false} ProbeWithoutSpace(n: nat)
    requires n < 100_000_000
    ensures ParseContentRange(Some("bytes0-0/" + Decimal(n))) == Size(n)
  {
    var d := Decimal(n);
    DecimalRoundTrip(n);
    if |d| > 8 {
      PowMonotone(8, |d| - 1);
      assert false;
    }
    var s := "bytes0-0/" + d;
    assert CString.NUL !in d by {
      forall j | 0 <= j < |d| ensures d[j] != CString.NUL {
        assert IsDigit(d[j]);
      }
    }
    assert CString.NUL !in "bytes0-0/";
    assert CString.NUL !in s;
    assert s[..5] == "bytes";
    assert SkipSpace(s, 5) == 5;
    assert s[5..9] == "0-0/";
    assert AfterLiteral(s) == Some(9);
    assert s[9..] == d;
    forall j | 9 <= j < |s|
      ensures IsDigit(s[j])
    {
      assert s[j] == d[j - 9];
    }
    ScanUnsigned(s, 9);
  }

  /** `%d` accepts a sign, and nothing rejects a negative size: `bytes 0-0/-<n>` probes to -n. */
  lemma ProbeNegative(n: nat)
    requires n < 10_000_000
    ensures ParseContentRange(Some(RANGE_PREFIX + "-" + Decimal(n))) == Size(-(n as int))
  {
    DecimalLength(n, 7);
    NegativeDigits(Decimal(n));
  }

  /** The same for any run of at most seven digits. */
  lemma NegativeDigits(d: string)
    requires AllDigits(d) && 1 <= |d| <= 7
    ensures ParseContentRange(Some(RANGE_PREFIX + "-" + d)) == Size(-(DecimalValue(d) as int))
  {
    NegativeLayout(d);
    SignedProbe(RANGE_PREFIX + "-" + d);
  }

  /** `bytes 0-0/-<d>`: the prefix, the minus sign at position 10, then the digits. */
  lemma NegativeLayout(d: string)
    requires AllDigits(d)
    ensures var s := RANGE_PREFIX + "-" + d;
            && |s| == 11 + |d| && s[..10] == RANGE_PREFIX && s[10] == '-' && s[11..] == d
            && (forall j :: 10 <= j < |s| ==> s[j] != CString.NUL)
            && (forall j :: 11 <= j < |s| ==> IsDigit(s[j]))
  {
    var s := RANGE_PREFIX + "-" + d;
    assert s[..10] == RANGE_PREFIX && s[11..] == d;
    forall j | 10 <= j < |s|
      ensures s[j] != CString.NUL
      ensures j > 10 ==> IsDigit(s[j])
    {
      if j > 10 { assert s[j] == d[j - 11]; }
    }
  }

  /** A value made of the prefix, a minus sign and a run of digits probes to the negated number. */
  lemma SignedProbe(s: string)
    requires 11 < |s| <= DATA_BYTE_SIZE_CHAR_MAX && s[..10] == RANGE_PREFIX && s[10] == '-'
    requires forall j :: 10 <= j < |s| ==> s[j] != CString.NUL
    requires forall j :: 11 <= j < |s| ==> IsDigit(s[j])
    ensures ParseContentRange(Some(s)) == Size(-(DecimalValue(s[11..]) as int))
  {
    NulFree(s);
    LiteralMatches(s);
    ScanSigned(s, 10);
    ProbeOf(s, -(DecimalValue(s[11..]) as int));
  }

  /** A value that starts with the prefix and has no NUL after it is read whole. */
  lemma NulFree(s: string)
    requires 10 <= |s| && s[..10] == RANGE_PREFIX
    requires forall j :: 10 <= j < |s| ==> s[j] != CString.NUL
    ensures CString.Str(s) == s
  {
    forall j | 0 <= j < 10
      ensures s[j] != CString.NUL
    {
      assert s[j] == s[..10][j];
    }
    assert CString.NUL !in s;
  }

  /** The literal part of the format matches a value that starts with the prefix. */
  lemma LiteralMatches(s: string)
    requires 10 <= |s| && s[..10] == RANGE_PREFIX
    ensures AfterLiteral(s) == Some(10)
  {
    assert s[..5] == s[..10][..5] == "bytes";
    assert s[5] == s[..10][5] == ' ';
    assert s[6] == s[..10][6] == '0';
    assert SkipSpace(s, 6) == 6;
    assert SkipSpace(s, 5) == 6;
    assert s[6..10] == s[..10][6..10] == "0-0/";
  }

  /** A number below 10^k has at most k digits. */
  lemma DecimalLength(n: nat, k: nat)
    requires k >= 1 && n < Pow10(k)
    ensures |Decimal(n)| <= k
    ensures DecimalValue(Decimal(n)) == n
  {
    DecimalRoundTrip(n);
    if |Decimal(n)| > k {
      PowMonotone(k, |Decimal(n)| - 1);
    }
  }

  /** A NUL-free value of acceptable length probes to what `sscanf` reads from it. */
  lemma ProbeOf(s: string, v: int)
    requires CString.Str(s) == s && 0 < |s| <= DATA_BYTE_SIZE_CHAR_MAX
    requires AfterLiteral(s) == Some(10) && ScanInt(s, 10) == Some(v)
    ensures ParseContentRange(Some(s)) == Size(v)
  {
    assert Scan(s) == Some(v);
  }

  /** `%d` on a minus sign and a run of digits that reaches the end of the string reads the
      negated number. */
  lemma ScanSigned(s: string, i: nat)
    requires i + 1 < |s| && s[i] == '-' && forall j :: i + 1 <= j < |s| ==> IsDigit(s[j])
    ensures ScanInt(s, i) == Some(-(DecimalValue(s[i + 1..]) as int))
  {
    assert !IsSpace(s[i]) && SkipSpace(s, i) == i;
    DigitRunAll(s, i + 1);
    assert s[i + 1..|s|] == s[i + 1..];
  }

  /** The probe as written: `strncpy(data_length_buffer, data_length_str, data_length_str_len)`
      copies the value but no terminator, so unless the value holds a NUL itself `sscanf` reads on
      into `stack`, whatever the uninitialised buffer held after the copy, up to its first NUL. It
      agrees with ParseContentRange whenever a NUL follows the copied characters. */
  function ParseAsWritten(value: Option<string>, stack: string): (r: Probe)
    ensures value.None? || |value.value| == 0 || |value.value| > DATA_BYTE_SIZE_CHAR_MAX ==>
              r == ParseContentRange(value)
    ensures value.Some? && CString.NUL in value.value ==> r == ParseContentRange(value)
    ensures stack == [] || stack[0] == CString.NUL ==> r == ParseContentRange(value)
  {
    match value
    case None => Failed(NoLength)
    case Some(v) =>
      if |v| == 0 then Failed(NoLength)
      else if |v| > DATA_BYTE_SIZE_CHAR_MAX then Failed(TooLong)
      else
        var buffer := if CString.NUL in v then CString.Str(v) else CString.Str(v + stack);
        StrAppend(v, stack);
        match Scan(buffer)
        case None => Failed(NotANumber)
        case Some(n) => Size(n)
  }

  /** A NUL right after a NUL-free string ends it there. */
  lemma StrAppend(v: string, stack: string)
    ensures CString.NUL !in v && (stack == [] || stack[0] == CString.NUL) ==> CString.Str(v + stack) == v
  {
    if CString.NUL !in v && (stack == [] || stack[0] == CString.NUL) {
      StrPrefix(v, stack);
    }
  }

  lemma {:induction false} StrPrefix(v: string, stack: string)
    requires CString.NUL !in v && (stack == [] || stack[0] == CString.NUL)
    ensures CString.Str(v + stack) == v
    decreases |v|
  {
    if v != [] {
      assert (v + stack)[1..] == v[1..] + stack;
      StrPrefix(v[1..], stack);
    } else {
      assert v + stack == stack;
    }
  }

  /** Whatever digit the buffer held after the copy joins the number: with a digit d and then a
      NUL there, the header `bytes 0-0/<n>` probes to 10 n + d instead of n. */
  lemma StrncpyReadsOn(n: nat, d: nat)
    requires 1 <= n < 10_000_000 && d < 10
    ensures ParseContentRange(Some(RANGE_PREFIX + Decimal(n))) == Size(n)
    ensures ParseAsWritten(Some(RANGE_PREFIX + Decimal(n)), [Digit(d), CString.NUL]) == Size(10 * n + d)
  {
    ProbeRoundTrip(n);
    ReadsOnDigit(n, d);
  }

  lemma ReadsOnDigit(n: nat, d: nat)
    requires 1 <= n < 10_000_000 && d < 10
    ensures ParseAsWritten(Some(RANGE_PREFIX + Decimal(n)), [Digit(d), CString.NUL]) == Size(10 * n + d)
  {
    var v := RANGE_PREFIX + Decimal(n);
    var longer := RANGE_PREFIX + Decimal(10 * n + d);
    AppendDigit(n, d);
    assert v + [Digit(d)] == longer;
    ProbeRoundTrip(10 * n + d);
    NoNul(Decimal(n));
    ReadsOn(v, Digit(d));
  }

  /** With a character and a NUL after it on the stack, the code as written parses the value
      with that character appended. */
  lemma ReadsOn(v: string, c: char)
    requires CString.NUL !in v && c != CString.NUL && 0 < |v| < DATA_BYTE_SIZE_CHAR_MAX
    ensures ParseAsWritten(Some(v), [c, CString.NUL]) == ParseContentRange(Some(v + [c]))
  {
    assert CString.NUL !in v + [c];
    StrPrefix(v + [c], [CString.NUL]);
    assert v + [c, CString.NUL] == (v + [c]) + [CString.NUL];
  }

  /** Appending a digit to a positive number's rendering multiplies it by ten and adds the digit. */
  lemma AppendDigit(n: nat, d: nat)
    requires 1 <= n && d < 10
    ensures Decimal(10 * n + d) == Decimal(n) + [Digit(d)]
  {
    assert (10 * n + d) / 10 == n && (10 * n + d) % 10 == d;
  }
}
