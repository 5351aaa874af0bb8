/**
 * Text helpers the command-line front ends rely on: Unicode whitespace
 * trimming, splitting at the first occurrence of a character, the decimal
 * rendering of a number, and parsing an unsigned machine-size integer the
 * way the language's standard parser does.
 */
module Decimal {
  import opened Wrappers

  /** Largest value of the platform's unsigned size type (64-bit targets). */
  const USIZE_MAX: nat := 0xFFFF_FFFF_FFFF_FFFF

  /** The Unicode White_Space characters. */
  const WHITESPACE: set<char> := {'\t', '\n', '\U{000B}', '\U{000C}', '\r', ' ', '\U{0085}', '\U{00A0}', '\U{1680}',
    '\U{2000}', '\U{2001}', '\U{2002}', '\U{2003}', '\U{2004}', '\U{2005}', '\U{2006}', '\U{2007}', '\U{2008}', '\U{2009}', '\U{200A}',
    '\U{2028}', '\U{2029}', '\U{202F}', '\U{205F}', '\U{3000}'}

  predicate IsWhitespace(c: char) { c in WHITESPACE }

  predicate IsDigit(c: char) { '0' <= c <= '9' }

  function DigitValue(c: char): nat
    requires IsDigit(c)
  {
    (c as int - '0' as int) as nat
  }

  function DigitChar(d: nat): (c: char)
    requires d < 10
    ensures IsDigit(c) && DigitValue(c) == d
  {
    ('0' as int + d) as char
  }

  predicate AllDigits(s: string)
  {
    forall k :: 0 <= k < |s| ==> IsDigit(s[k])
  }

  // ---------------------------------------------------------------------------
  // trim
  // ---------------------------------------------------------------------------

  function TrimStart(s: string): (r: string)
    ensures |r| <= |s| && r == s[|s| - |r|..]
    ensures forall k :: 0 <= k < |s| - |r| ==> IsWhitespace(s[k])
    ensures |r| > 0 ==> !IsWhitespace(r[0])
  {
    if |s| > 0 && IsWhitespace(s[0]) then TrimStart(s[1..]) else s
  }

  function TrimEnd(s: string): (r: string)
    ensures |r| <= |s| && r == s[..|r|]
    ensures forall k :: |r| <= k < |s| ==> IsWhitespace(s[k])
    ensures |r| > 0 ==> !IsWhitespace(r[|r| - 1])
  {
    if |s| > 0 && IsWhitespace(s[|s| - 1]) then TrimEnd(s[..|s| - 1]) else s
  }

  /**
   * `str::trim`: the string without its leading and trailing whitespace; the
   * result is a contiguous part of the input, everything cut off is
   * whitespace, and the result neither starts nor ends with whitespace.
   */
  function Trim(s: string): (r: string)
    ensures TrimmedFrom(s, |s| - |TrimStart(s)|, r)
    ensures |r| > 0 ==> !IsWhitespace(r[0]) && !IsWhitespace(r[|r| - 1])
  {
    TrimFacts(s, TrimStart(s));
    TrimEnd(TrimStart(s))
  }

  /** `r` is the part of `s` at `i`, and everything on either side of it is whitespace. */
  predicate TrimmedFrom(s: string, i: nat, r: string)
  {
    i + |r| <= |s| && r == s[i..i + |r|]
    && (forall k :: 0 <= k < i ==> IsWhitespace(s[k]))
    && (forall k :: i + |r| <= k < |s| ==> IsWhitespace(s[k]))
  }

  /** The index bookkeeping of `Trim`, for the suffix `t` of `s` that `TrimStart` leaves. */
  lemma TrimFacts(s: string, t: string)
    requires |t| <= |s| && t == s[|s| - |t|..]
    requires forall k :: 0 <= k < |s| - |t| ==> IsWhitespace(s[k])
    requires |t| > 0 ==> !IsWhitespace(t[0])
    ensures TrimmedFrom(s, |s| - |t|, TrimEnd(t))
    ensures |TrimEnd(t)| > 0 ==> !IsWhitespace(TrimEnd(t)[0]) && !IsWhitespace(TrimEnd(t)[|TrimEnd(t)| - 1])
  {
    var r := TrimEnd(t);
    var i := |s| - |t|;
    assert r == t[..|r|];
    if |r| > 0 {
      assert r[0] == t[0];
    }
    forall k | i + |r| <= k < |s| ensures IsWhitespace(s[k]) {
      assert s[k] == t[k - i];
    }
  }

  /** A string with no whitespace at either end is its own trim. */
  lemma TrimIdentity(s: string)
    requires |s| > 0 ==> !IsWhitespace(s[0]) && !IsWhitespace(s[|s| - 1])
    ensures Trim(s) == s
  {
  }

  // ---------------------------------------------------------------------------
  // split_once
  // ---------------------------------------------------------------------------

  /** `str::split_once`: the parts before and after the first `c`, or None when `c` does not occur. */
  function SplitOnce(s: string, c: char): (r: Option<(string, string)>)
    ensures r.None? <==> c !in s
    ensures r.Some? ==> s == r.value.0 + [c] + r.value.1 && c !in r.value.0
  {
    if |s| == 0 then None
    else if s[0] == c then Some(([], s[1..]))
    else match SplitOnce(s[1..], c)
      case None => None
      case Some(p) => Some(([s[0]] + p.0, p.1))
  }

  /** Splitting at a character that the first part does not contain gives the parts back. */
  lemma {:induction false} SplitOnceAt(a: string, c: char, b: string)
    requires c !in a
    ensures SplitOnce(a + [c] + b, c) == Some((a, b))
  {
    if |a| > 0 {
      assert (a + [c] + b)[1..] == a[1..] + [c] + b;
      SplitOnceAt(a[1..], c, b);
      assert [a[0]] + a[1..] == a;
    } else {
      assert (a + [c] + b)[1..] == b;
    }
  }

  // ---------------------------------------------------------------------------
  // Decimal rendering and parsing
  // ---------------------------------------------------------------------------

  /** Decimal digits of `n`, most significant first, without leading zeros. */
  function Dec(n: nat): (s: string)
    ensures |s| > 0 && AllDigits(s)
    ensures |s| > 1 ==> s[0] != '0'
  {
    if n < 10 then [DigitChar(n)] else Dec(n / 10) + [DigitChar(n % 10)]
  }

  datatype IntErrorKind = Empty | InvalidDigit | PosOverflow

  /** The message the standard parser's error displays. */
  function ErrorMessage(k: IntErrorKind): string
  {
    match k
    case Empty => "cannot parse integer from empty string"
    case InvalidDigit => "invalid digit found in string"
    case PosOverflow => "number too large to fit in target type"
  }

  /**
   * Digits read left to right: the first non-digit is an invalid digit, and
   * a value passing the maximum is an overflow, whichever comes first.
   */
  function ParseDigits(s: string): (r: Result<nat, IntErrorKind>)
    ensures r.Ok? ==> r.value <= USIZE_MAX && AllDigits(s)
    ensures r.Err? ==> r.error != Empty
  {
    if |s| == 0 then Ok(0)
    else match ParseDigits(s[..|s| - 1])
      case Err(e) => Err(e)
      case Ok(v) =>
        var c := s[|s| - 1];
        if !IsDigit(c) then Err(InvalidDigit)
        else if v * 10 + DigitValue(c) > USIZE_MAX then Err(PosOverflow)
        else Ok(v * 10 + DigitValue(c))
  }

  /**
   * `usize::from_str`: an optional '+', then at least one digit (a lone
   * sign is an invalid digit), of value at most the maximum.
   */
  function ParseUsize(s: string): (r: Result<nat, IntErrorKind>)
    ensures r.Ok? ==> r.value <= USIZE_MAX && |s| > 0
    ensures r == Err(Empty) <==> s == ""
  {
    if |s| == 0 then Err(Empty)
    else if s[0] == '+' then (if |s| == 1 then Err(InvalidDigit) else ParseDigits(s[1..]))
    else ParseDigits(s)
  }

  /** Parsing a rendered number gives the number back. */
  lemma {:induction false} ParseDec(n: nat)
    requires n <= USIZE_MAX
    ensures ParseDigits(Dec(n)) == Ok(n) && ParseUsize(Dec(n)) == Ok(n)
  {
    if n >= 10 {
      ParseDec(n / 10);
      var s := Dec(n);
      assert s[..|s| - 1] == Dec(n / 10);
    }
  }

  /** A number with a '+' in front parses the same. */
  lemma PlusSign(n: nat)
    requires n <= USIZE_MAX
    ensures ParseUsize("+" + Dec(n)) == Ok(n)
  {
    ParseDec(n);
    assert ("+" + Dec(n))[1..] == Dec(n);
  }

  /** A minus sign is never accepted: unsigned numbers have no sign but '+'. */
  lemma NoMinus(s: string)
    ensures ParseUsize("-" + s).Err?
  {
    assert ("-" + s)[0] == '-';
  }

  /** A rendered number has no whitespace and no minus sign. */
  lemma DecPlain(n: nat)
    ensures '-' !in Dec(n) && Trim(Dec(n)) == Dec(n)
  {
    var s := Dec(n);
    DigitNotWhitespace(s[0]);
    DigitNotWhitespace(s[|s| - 1]);
    TrimIdentity(s);
    assert forall k :: 0 <= k < |s| ==> s[k] != '-';
  }

  lemma DigitNotWhitespace(c: char)
    requires IsDigit(c)
    ensures !IsWhitespace(c)
  {
  }
}
