/** The behaviour of the few C++ standard-library string operations the profiler
    relies on: std::string::find, std::string::substr, std::stoi and
    std::to_string, including the conversions between int and size_t that the
    callers perform on their arguments and results. */
module CppString {

  datatype Option<+T> = None | Some(value: T)

  datatype Result<+T, +E> = Ok(value: T) | Err(error: E)

  /** The exceptions these operations throw; the profiler never catches them. */
  datatype Exception = OutOfRange | InvalidArgument

  /** Range of a 32-bit C++ int. */
  const IntMin: int := -0x8000_0000
  const IntMax: int := 0x7fff_ffff

  /** std::string::npos (the largest size_t), as the callers see it after
      storing it in an int. */
  const NotFound: int := -1

  function Min(a: int, b: int): (m: int)
    ensures m <= a && m <= b && (m == a || m == b)
  {
    if a <= b then a else b
  }

  /** s.substr(pos, count): out_of_range when pos is past the end; otherwise at
      most count characters starting at pos. Both arguments are converted to
      size_t; a negative int becomes a value of at least 2^63, so a negative
      pos is past the end of every string and a negative count (npos, the
      default) means "to the end". */
  function Substr(s: string, pos: int, count: int): (r: Result<string, Exception>)
    ensures r.Err? <==> pos < 0 || pos > |s|
    ensures r.Err? ==> r.error == OutOfRange
    ensures r.Ok? ==> pos + |r.value| <= |s| && r.value == s[pos..pos + |r.value|]
    ensures r.Ok? && 0 <= count ==> |r.value| == Min(count, |s| - pos)
    ensures r.Ok? && count < 0 ==> r.value == s[pos..]
  {
    if pos < 0 || pos > |s| then Err(OutOfRange)
    else Ok(s[pos..pos + (if count < 0 then |s| - pos else Min(count, |s| - pos))])
  }

  /** s.substr(pos): the count defaults to npos. */
  function SubstrFrom(s: string, pos: int): (r: Result<string, Exception>)
    ensures r.Err? <==> pos < 0 || pos > |s|
    ensures r.Ok? ==> r.value == s[pos..]
  {
    Substr(s, pos, NotFound)
  }

  /** s begins with p. */
  predicate StartsWith(s: string, p: string)
  {
    |p| <= |s| && s[..|p|] == p
  }

  /** pat occurs in s starting at index k. */
  predicate OccursAt(s: string, pat: string, k: int)
  {
    0 <= k && k + |pat| <= |s| && s[k..k + |pat|] == pat
  }

  /** An occurrence of pat at k starts with pat's first character. */
  lemma OccursAtHead(s: string, pat: string, k: int)
    requires OccursAt(s, pat, k) && pat != []
    ensures s[k] == pat[0]
  {
    assert s[k..k + |pat|][0] == s[k];
  }

  /** s.find(pat, from), converted to int: the first index at or after from
      where pat occurs, or NotFound. */
  function FindFrom(s: string, pat: string, from: nat): (k: int)
    ensures k == NotFound || (from <= k && OccursAt(s, pat, k))
    ensures forall j :: from <= j && (k == NotFound || j < k) ==> !OccursAt(s, pat, j)
    decreases |s| - from
  {
    if from + |pat| > |s| then NotFound
    else if s[from..from + |pat|] == pat then from
    else FindFrom(s, pat, from + 1)
  }

  /** s.find(pat), converted to int. */
  function Find(s: string, pat: string): (k: int)
    ensures k == NotFound || OccursAt(s, pat, k)
    ensures forall j :: 0 <= j && (k == NotFound || j < k) ==> !OccursAt(s, pat, j)
  {
    FindFrom(s, pat, 0)
  }

  /** A pattern whose first character does not occur in head is first found
      right after it. */
  lemma FindAfterHead(head: string, pat: string, rest: string)
    requires pat != [] && forall i :: 0 <= i < |head| ==> head[i] != pat[0]
    ensures Find(head + pat + rest, pat) == |head|
  {
    var s := head + pat + rest;
    assert s[|head|..|head| + |pat|] == pat;
    forall j | 0 <= j < |head| ensures !OccursAt(s, pat, j) {
      if OccursAt(s, pat, j) {
        OccursAtHead(s, pat, j);
      }
    }
    FindIsFirst(s, pat, |head|);
  }

  /** Find returns the first occurrence, so an occurrence with none before it
      is what it returns. */
  lemma FindIsFirst(s: string, pat: string, k: int)
    requires OccursAt(s, pat, k)
    requires forall j :: 0 <= j < k ==> !OccursAt(s, pat, j)
    ensures Find(s, pat) == k
  {
  }

  // ---- Decimal digits

  predicate IsDigit(c: char) { '0' <= c <= '9' }

  predicate AllDigits(s: string) { forall i :: 0 <= i < |s| ==> IsDigit(s[i]) }

  function DigitValue(c: char): (d: nat)
    requires IsDigit(c)
    ensures d < 10
  {
    (c as int) - ('0' as int)
  }

  function DigitChar(d: nat): (c: char)
    requires d < 10
    ensures IsDigit(c) && DigitValue(c) == d
  {
    ('0' as int + d) as char
  }

  /** The number a string of decimal digits denotes, read left to right. */
  function DecimalValue(ds: string): (v: nat)
    requires AllDigits(ds)
  {
    if ds == [] then 0
    else DecimalValue(ds[..|ds| - 1]) * 10 + DigitValue(ds[|ds| - 1])
  }

  /** k digits denote a number below 10^k. */
  lemma {:induction false} DecimalValueBound(ds: string)
    requires AllDigits(ds)
    ensures DecimalValue(ds) < Power10(|ds|)
  {
    if ds != [] {
      DecimalValueBound(ds[..|ds| - 1]);
    }
  }

  function Power10(n: nat): (p: nat)
    ensures p >= 1
  {
    if n == 0 then 1 else 10 * Power10(n - 1)
  }

  /** The number of leading decimal digits of s. */
  function DigitRun(s: string): (n: nat)
    ensures n <= |s| && AllDigits(s[..n])
    ensures n < |s| ==> !IsDigit(s[n])
  {
    if s != [] && IsDigit(s[0]) then
      var tail := DigitRun(s[1..]);
      assert s[..1 + tail] == [s[0]] + s[1..][..tail];
      1 + tail
    else 0
  }

  // ---- std::stoi

  /** isspace in the C locale. */
  predicate IsSpace(c: char)
  {
    c == ' ' || c == '\t' || c == '\n' || c == '\U{0B}' || c == '\U{0C}' || c == '\r'
  }

  function SkipSpaces(s: string): (t: string)
    ensures |t| <= |s| && t == s[|s| - |t|..]
    ensures t == [] || !IsSpace(t[0])
    ensures forall i :: 0 <= i < |s| - |t| ==> IsSpace(s[i])
  {
    if s != [] && IsSpace(s[0]) then SkipSpaces(s[1..]) else s
  }

  /** std::stoi(s) with base 10: leading white space, an optional sign, then at
      least one digit (invalid_argument otherwise); a value outside int is
      out_of_range. Characters after the digits are ignored. */
  function Stoi(s: string): (r: Result<int, Exception>)
    ensures r.Ok? ==> IntMin <= r.value <= IntMax
  {
    var t := SkipSpaces(s);
    var signed := t != [] && (t[0] == '-' || t[0] == '+');
    StoiDigits(if signed then t[1..] else t, signed && t[0] == '-')
  }

  /** The digits after the optional sign. */
  function StoiDigits(u: string, negative: bool): (r: Result<int, Exception>)
    ensures r.Ok? ==> IntMin <= r.value <= IntMax
  {
    var n := DigitRun(u);
    if n == 0 then Err(InvalidArgument)
    else
      var v: int := if negative then -(DecimalValue(u[..n]) as int) else DecimalValue(u[..n]);
      if IntMin <= v <= IntMax then Ok(v) else Err(OutOfRange)
  }

  /** Three decimal digits read as a number lie in 0..999, whatever follows. */
  lemma StoiOfThreeDigits(s: string)
    requires |s| == 3 && AllDigits(s)
    ensures Stoi(s) == Ok(DecimalValue(s)) && 0 <= DecimalValue(s) <= 999
  {
    assert Power10(3) == 1000;
    DecimalValueBound(s);
    StoiOfDigits(s);
  }

  // ---- std::to_string

  function NatToString(n: nat): (s: string)
    ensures |s| >= 1 && AllDigits(s)
    decreases n
  {
    if n < 10 then [DigitChar(n)] else NatToString(n / 10) + [DigitChar(n % 10)]
  }

  /** std::to_string(int): decimal, with a leading '-' for a negative value. */
  function ToString(n: int): (s: string)
    ensures |s| >= 1 && (n < 0 <==> s[0] == '-')
    ensures AllDigits(if n < 0 then s[1..] else s)
  {
    if n < 0 then "-" + NatToString(-n) else NatToString(n)
  }

  lemma {:induction false} DecimalValueOfNatToString(n: nat)
    ensures DecimalValue(NatToString(n)) == n
    decreases n
  {
    var s := NatToString(n);
    if n >= 10 {
      DecimalValueOfNatToString(n / 10);
      assert s[..|s| - 1] == NatToString(n / 10);
    }
  }

  lemma {:induction false} NatToStringLength(n: nat, k: nat)
    requires n < Power10(k + 1)
    ensures |NatToString(n)| <= k + 1
    decreases k
  {
    if n >= 10 {
      assert k > 0;
      NatToStringLength(n / 10, k - 1);
    }
  }

  /** A number printed with to_string and read back with stoi is unchanged. */
  lemma StoiOfToString(n: int)
    requires IntMin <= n <= IntMax
    ensures Stoi(ToString(n)) == Ok(n)
  {
    if n < 0 {
      var digits := NatToString(-n);
      DecimalValueOfNatToString(-n);
      StoiOfNegatedDigits(digits);
      assert ToString(n) == "-" + digits;
    } else {
      DecimalValueOfNatToString(n);
      StoiOfDigits(NatToString(n));
    }
  }

  /** stoi reads a plain digit string whole. */
  lemma StoiOfDigits(digits: string)
    requires |digits| >= 1 && AllDigits(digits) && DecimalValue(digits) <= IntMax
    ensures Stoi(digits) == Ok(DecimalValue(digits))
  {
    StoiUnsigned(digits);
    StoiDigitsWhole(digits);
  }

  /** stoi reads '-' followed by a digit string as the negated number. */
  lemma StoiOfNegatedDigits(digits: string)
    requires |digits| >= 1 && AllDigits(digits) && DecimalValue(digits) <= -IntMin
    ensures Stoi("-" + digits) == Ok(-(DecimalValue(digits) as int))
  {
    StoiNegative(digits);
    StoiDigitsWhole(digits);
  }

  lemma StoiUnsigned(digits: string)
    requires |digits| >= 1 && AllDigits(digits)
    ensures Stoi(digits) == StoiDigits(digits, false)
  {
    StoiSkipsNothing(digits);
    assert digits[0] != '-' && digits[0] != '+';
  }

  lemma StoiNegative(digits: string)
    ensures Stoi("-" + digits) == StoiDigits(digits, true)
  {
    var neg := "-" + digits;
    StoiSkipsNothing(neg);
    assert neg[1..] == digits;
  }

  lemma StoiDigitsWhole(digits: string)
    requires |digits| >= 1 && AllDigits(digits)
    ensures DecimalValue(digits) <= IntMax ==> StoiDigits(digits, false) == Ok(DecimalValue(digits))
    ensures DecimalValue(digits) <= -IntMin ==> StoiDigits(digits, true) == Ok(-(DecimalValue(digits) as int))
  {
    AllDigitsRun(digits);
    assert digits[..|digits|] == digits;
  }

  /** stoi skips a leading white-space character. */
  lemma StoiSkipsSpace(c: char, s: string)
    requires IsSpace(c)
    ensures Stoi([c] + s) == Stoi(s)
  {
    assert ([c] + s)[1..] == s;
  }

  lemma StoiSkipsNothing(s: string)
    requires s != [] && (IsDigit(s[0]) || s[0] == '-')
    ensures SkipSpaces(s) == s
  {
  }

  lemma {:induction false} AllDigitsRun(s: string)
    requires AllDigits(s)
    ensures DigitRun(s) == |s|
  {
    if s != [] {
      AllDigitsRun(s[1..]);
    }
  }

  /** The printed code is made only of '-' and digits: never a space. */
  lemma ToStringHasNoSpace(n: int)
    ensures forall i :: 0 <= i < |ToString(n)| ==> ToString(n)[i] != ' '
  {
    var m := if n < 0 then -n else n;
    assert AllDigits(NatToString(m));
  }

  /** A code in 100..999 prints as exactly three digits. */
  lemma ThreeDigitCode(code: int)
    requires 100 <= code <= 999
    ensures |ToString(code)| == 3 && AllDigits(ToString(code))
  {
    assert Power10(3) == 1000;
    NatToStringLength(code, 2);
  }
}
