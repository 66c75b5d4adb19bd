/** `strconv.ParseUint(s, 10, 32)` as the agent uses it to read an ASN
    (agent.go lines 38 and 113): decimal digits only, no sign, no underscores,
    and a result that must fit in 32 bits. Go returns a value even with an
    error: 0 for a syntax error and the largest 32-bit value for a range error. */
module Strconv {
  import opened Common

  predicate IsDigit(c: char)
  {
    '0' <= c <= '9'
  }

  function DigitValue(c: char): nat
    requires IsDigit(c)
  {
    (c as int) - ('0' as int)
  }

  predicate AllDigits(s: string)
  {
    forall i :: 0 <= i < |s| ==> IsDigit(s[i])
  }

  /** A well-formed decimal numeral: at least one digit and nothing else. */
  predicate IsDecimal(s: string)
  {
    |s| > 0 && AllDigits(s)
  }

  /** The number a string of digits denotes, read most significant digit first. */
  function DecimalValue(s: string): nat
    requires AllDigits(s)
  {
    if s == [] then 0 else DecimalValue(s[..|s| - 1]) * 10 + DigitValue(s[|s| - 1])
  }

  /** Go's `(uint64, error)` result of ParseUint with bitSize 32, narrowed to the
      `uint32` the caller converts it to. */
  datatype Parsed = Parsed(value: uint32, err: Option<Error>)

  function SyntaxError(s: string): Error
  {
    NumError("ParseUint", s, ErrSyntax)
  }

  function RangeError(s: string): Error
  {
    NumError("ParseUint", s, ErrRange)
  }

  /** Accepts exactly the decimal numerals whose value fits in 32 bits, and
      returns that value; on failure returns Go's fallback value with the error. */
  function ParseUint32(s: string): (r: Parsed)
    ensures r.err.None? <==> IsDecimal(s) && DecimalValue(s) <= MaxUint32 as int
    ensures r.err.None? ==> r.value as int == DecimalValue(s)
    ensures r.err == Some(SyntaxError(s)) ==> r.value == 0
    ensures r.err == Some(RangeError(s)) ==> r.value == MaxUint32
    ensures r.err.Some? ==> r.err == Some(SyntaxError(s)) || r.err == Some(RangeError(s))
    ensures IsDecimal(s) && DecimalValue(s) > MaxUint32 as int ==> r.err == Some(RangeError(s))
    ensures s == [] ==> r == Parsed(0, Some(SyntaxError(s)))
    // Read left to right: the first non-digit, met before the running value
    // passes the 32-bit limit, is a syntax error ...
    ensures forall k :: 0 <= k < |s| && !IsDigit(s[k]) && AllDigits(s[..k]) && DecimalValue(s[..k]) <= MaxUint32 as int ==>
              r == Parsed(0, Some(SyntaxError(s)))
    // ... and a run of leading digits whose value passes the limit is a range
    // error, whatever follows it.
    ensures forall k :: 0 <= k <= |s| && AllDigits(s[..k]) && DecimalValue(s[..k]) > MaxUint32 as int ==>
              r == Parsed(MaxUint32, Some(RangeError(s)))
  {
    if s == [] then Parsed(0, Some(SyntaxError(s))) else Scan(s, 0, 0)
  }

  /** The digit loop of ParseUint from position `i` on, where `n` is the value
      of the digits before `i`. An overflow is reported as soon as the running
      value passes the 32-bit limit, before any later character is looked at.
      (Go's separate check against the 64-bit cutoff can never fire once the
      running value is kept at or below the 32-bit limit.) */
  function Scan(s: string, i: nat, n: uint32): (r: Parsed)
    requires i <= |s| && AllDigits(s[..i]) && n as int == DecimalValue(s[..i])
    ensures r.err.None? <==> AllDigits(s) && DecimalValue(s) <= MaxUint32 as int
    ensures r.err.None? ==> r.value as int == DecimalValue(s)
    ensures r.err.Some? ==>
              (r.err == Some(SyntaxError(s)) && r.value == 0) ||
              (r.err == Some(RangeError(s)) && r.value == MaxUint32)
    ensures AllDigits(s) && DecimalValue(s) > MaxUint32 as int ==> r.err == Some(RangeError(s))
    ensures forall k :: i <= k < |s| && !IsDigit(s[k]) && AllDigits(s[..k]) && DecimalValue(s[..k]) <= MaxUint32 as int ==>
              r == Parsed(0, Some(SyntaxError(s)))
    ensures forall k :: i <= k <= |s| && AllDigits(s[..k]) && DecimalValue(s[..k]) > MaxUint32 as int ==>
              r == Parsed(MaxUint32, Some(RangeError(s)))
    decreases |s| - i
  {
    if i == |s| then
      assert s[..i] == s;
      Parsed(n, None)
    else if !IsDigit(s[i]) then
      Parsed(0, Some(SyntaxError(s)))
    else
      var next := n as int * 10 + DigitValue(s[i]);
      assert s[..i + 1][..i] == s[..i];
      if next > MaxUint32 as int then
        (PrefixValueBounded(s, i + 1);
         LaterPrefixesBounded(s, i + 1);
         Parsed(MaxUint32, Some(RangeError(s))))
      else
        Scan(s, i + 1, next as uint32)
  }

  /** The value of a prefix of a digit string never exceeds the value of the
      whole string. */
  lemma {:induction false} PrefixValueBounded(s: string, k: nat)
    requires k <= |s| && AllDigits(s[..k])
    ensures AllDigits(s) ==> DecimalValue(s[..k]) <= DecimalValue(s)
    decreases |s| - k
  {
    if AllDigits(s) && k < |s| {
      var t := s[..k + 1];
      assert t[..|t| - 1] == s[..k];
      PrefixValueBounded(s, k + 1);
    } else if k == |s| {
      assert s[..k] == s;
    }
  }

  /** Every longer all-digit prefix of `s` denotes at least as much as the
      first `m` characters. */
  lemma LaterPrefixesBounded(s: string, m: nat)
    requires m <= |s| && AllDigits(s[..m])
    ensures forall k :: m <= k <= |s| && AllDigits(s[..k]) ==> DecimalValue(s[..m]) <= DecimalValue(s[..k])
  {
    forall k | m <= k <= |s| && AllDigits(s[..k])
      ensures DecimalValue(s[..m]) <= DecimalValue(s[..k])
    {
      assert s[..k][..m] == s[..m];
      PrefixValueBounded(s[..k], m);
      assert s[..k][..k] == s[..k];
    }
  }

  /** `strconv.FormatUint(v, 10)`: the shortest decimal numeral of `v`. */
  function Decimal(v: nat): (s: string)
    decreases v
  {
    if v < 10 then [('0' as int + v) as char]
    else Decimal(v / 10) + [('0' as int + v % 10) as char]
  }

  lemma {:induction false} DecimalDenotes(v: nat)
    ensures IsDecimal(Decimal(v)) && DecimalValue(Decimal(v)) == v
    decreases v
  {
    var s := Decimal(v);
    if v >= 10 {
      DecimalDenotes(v / 10);
      assert s[..|s| - 1] == Decimal(v / 10);
    }
  }

  /** Every 32-bit number written in decimal reads back as itself, without error. */
  lemma {:induction false} FormatParseRoundTrip(v: uint32)
    ensures ParseUint32(Decimal(v as int)) == Parsed(v, None)
  {
    DecimalDenotes(v as int);
  }
}
