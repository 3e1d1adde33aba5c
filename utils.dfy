/** Block heights as "0x"-prefixed hexadecimal text (eth_parser/utils.go):
    DecToHex formats like Go's "0x%x", HexToDec scans like Go's Sscanf "0x%x" into a
    64-bit int whose scan error is ignored. */
module HexCodec {
  import opened EthTypes
  import opened SeqFacts

  /** Largest value of Go's 64-bit int. */
  const MaxInt64: int := 0x7fff_ffff_ffff_ffff

  predicate IsHexDigit(c: char)
  {
    ('0' <= c <= '9') || ('a' <= c <= 'f') || ('A' <= c <= 'F')
  }

  predicate IsLowerHexDigit(c: char)
  {
    ('0' <= c <= '9') || ('a' <= c <= 'f')
  }

  /** The digits "%x" prints: lower case, at least one, and no leading zero except
      for the value zero itself. */
  predicate Canonical(d: string)
  {
    && |d| > 0
    && (forall i :: 0 <= i < |d| ==> IsLowerHexDigit(d[i]))
    && (d[0] == '0' ==> d == "0")
  }

  function DigitValue(c: char): (v: nat)
    requires IsHexDigit(c)
    ensures v < 16
  {
    if '0' <= c <= '9' then c as int - '0' as int
    else if 'a' <= c <= 'f' then c as int - 'a' as int + 10
    else c as int - 'A' as int + 10
  }

  function DigitChar(v: nat): (c: char)
    requires v < 16
    ensures IsLowerHexDigit(c) && DigitValue(c) == v
    ensures c == '0' <==> v == 0
  {
    if v < 10 then ('0' as int + v) as char else ('a' as int + v - 10) as char
  }

  /** The base-16 value of a digit string, most significant digit first. */
  function HexValue(d: string): nat
    requires forall i :: 0 <= i < |d| ==> IsHexDigit(d[i])
  {
    if d == [] then 0 else HexValue(d[..|d| - 1]) * 16 + DigitValue(d[|d| - 1])
  }

  /** The hexadecimal digits of n as "%x" prints them. */
  function HexDigits(n: nat): (d: string)
    ensures Canonical(d)
    ensures d == "0" <==> n == 0
  {
    if n < 16 then [DigitChar(n)] else HexDigits(n / 16) + [DigitChar(n % 16)]
  }

  /** "0x" followed by canonical lower-case digits, which are "0" exactly for zero. */
  function DecToHex(dec: nat): (hex: string)
    ensures HasPrefix(hex, "0x") && Canonical(hex[2..])
    ensures dec == 0 <==> hex == "0x0"
  {
    PrefixedSplit(HexDigits(dec));
    "0x" + HexDigits(dec)
  }

  /** The longest run of hex digits at the start of s: what the "%x" verb consumes. */
  function HexRun(s: string): (run: string)
    ensures run <= s
    ensures forall i :: 0 <= i < |run| ==> IsHexDigit(run[i])
    ensures |run| < |s| ==> !IsHexDigit(s[|run|])
  {
    if s == [] || !IsHexDigit(s[0]) then [] else [s[0]] + HexRun(s[1..])
  }

  /** The literal "0x" must match, then at least one hex digit must follow, and the
      value must fit in a 64-bit int; on any failure the target keeps its zero value. */
  function HexToDec(hex: string): (dec: int)
    ensures 0 <= dec <= MaxInt64
  {
    if !HasPrefix(hex, "0x") then 0
    else
      var run := HexRun(hex[2..]);
      if run == [] || HexValue(run) > MaxInt64 then 0 else HexValue(run)
  }

  lemma {:induction false} HexValueSnoc(d: string, c: char)
    requires forall i :: 0 <= i < |d| ==> IsHexDigit(d[i])
    requires IsHexDigit(c)
    ensures HexValue(d + [c]) == HexValue(d) * 16 + DigitValue(c)
  {
    assert (d + [c])[..|d|] == d;
  }

  /** The digits DecToHex prints denote the number they were printed from. */
  lemma {:induction false} HexDigitsValue(n: nat)
    ensures HexValue(HexDigits(n)) == n
  {
    if n < 16 {
      assert HexDigits(n) == [] + [DigitChar(n)];
      HexValueSnoc([], DigitChar(n));
    } else {
      HexDigitsValue(n / 16);
      HexValueSnoc(HexDigits(n / 16), DigitChar(n % 16));
    }
  }

  /** The run stops exactly at the end of the digits when what follows is not a digit. */
  lemma {:induction false} HexRunStopsAt(d: string, rest: string)
    requires forall i :: 0 <= i < |d| ==> IsHexDigit(d[i])
    requires rest == [] || !IsHexDigit(rest[0])
    ensures HexRun(d + rest) == d
  {
    if d != [] {
      assert (d + rest)[1..] == d[1..] + rest;
      HexRunStopsAt(d[1..], rest);
      assert [d[0]] + d[1..] == d;
    }
  }

  /** "0x" followed by digits d that fit in 64 bits reads as the base-16 value of d,
      whatever non-digit text follows them. */
  lemma HexToDecDigits(d: string, rest: string)
    requires |d| > 0 && forall i :: 0 <= i < |d| ==> IsHexDigit(d[i])
    requires rest == [] || !IsHexDigit(rest[0])
    requires HexValue(d) <= MaxInt64
    ensures HexToDec("0x" + d + rest) == HexValue(d)
  {
    AppendAssoc("0x", d, rest);
    HexRunStopsAt(d, rest);
    HexToDecPrefixed(d + rest);
  }

  /** Digits whose value does not fit in 64 bits read as 0. */
  lemma HexToDecOverflow(d: string, rest: string)
    requires |d| > 0 && forall i :: 0 <= i < |d| ==> IsHexDigit(d[i])
    requires rest == [] || !IsHexDigit(rest[0])
    requires HexValue(d) > MaxInt64
    ensures HexToDec("0x" + d + rest) == 0
  {
    AppendAssoc("0x", d, rest);
    HexRunStopsAt(d, rest);
    HexToDecPrefixed(d + rest);
  }

  /** Text without the lower-case "0x" prefix, or with no digit right after it, reads as 0. */
  lemma HexToDecNoDigits(hex: string)
    requires !HasPrefix(hex, "0x") || |hex| == 2 || !IsHexDigit(hex[2])
    ensures HexToDec(hex) == 0
  {
  }

  /** Prepending "0x" gives a text HasPrefix accepts, and dropping two characters undoes it. */
  lemma PrefixedSplit(tail: string)
    ensures HasPrefix("0x" + tail, "0x") && ("0x" + tail)[2..] == tail
  {
    assert ("0x" + tail)[..2] == "0x";
  }

  /** HexToDec on "0x" followed by tail reads the digit run at the start of tail. */
  lemma HexToDecPrefixed(tail: string)
    ensures var run := HexRun(tail);
      HexToDec("0x" + tail) == if run == [] || HexValue(run) > MaxInt64 then 0 else HexValue(run)
  {
    PrefixedSplit(tail);
  }

  /** Only the digit run right after "0x" matters: texts whose runs agree read alike,
      whatever follows the runs. */
  lemma HexToDecReadsRun(t1: string, t2: string)
    requires HexRun(t1) == HexRun(t2)
    ensures HexToDec("0x" + t1) == HexToDec("0x" + t2)
  {
    HexToDecPrefixed(t1);
    HexToDecPrefixed(t2);
  }

  /** Round trip: every height that fits in a 64-bit int survives formatting and scanning. */
  lemma RoundTrip(n: nat)
    requires n <= MaxInt64
    ensures HexToDec(DecToHex(n)) == n
  {
    HexDigitsValue(n);
    HexToDecDigits(HexDigits(n), []);
    assert "0x" + HexDigits(n) + [] == DecToHex(n);
  }

  /** Distinct heights are requested under distinct hex texts. */
  lemma DecToHexInjective(m: nat, n: nat)
    requires m <= MaxInt64 && n <= MaxInt64
    requires DecToHex(m) == DecToHex(n)
    ensures m == n
  {
    RoundTrip(m);
    RoundTrip(n);
  }
}
