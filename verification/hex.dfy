/**
 Parsing of base-16 text into an unsigned 64-bit integer, following the
 digit-by-digit loop of Go's `strconv.ParseUint(s, 16, 64)`: no sign, no
 `0x` prefix, no underscores; every character must be a hexadecimal digit
 (either case); the scan stops at the first character that is not a digit
 (a syntax error) or at the first digit that would take the value past
 2^64 - 1 (a range error), whichever comes first.
 */
module HexParse {

  const MaxUint64: nat := 0xFFFF_FFFF_FFFF_FFFF

  /** Smallest value whose product with 16 no longer fits in 64 bits. */
  const Cutoff: nat := MaxUint64 / 16 + 1

  /** The error kinds of `strconv.NumError`, each carrying the input text. */
  datatype NumError = ErrSyntax(num: string) | ErrRange(num: string)

  datatype Parsed = Parsed(value: nat) | Failed(err: NumError)

  predicate IsHexDigit(c: char)
  {
    ('0' <= c <= '9') || ('a' <= c <= 'f') || ('A' <= c <= 'F')
  }

  predicate AllHex(s: string)
  {
    forall i :: 0 <= i < |s| ==> IsHexDigit(s[i])
  }

  function DigitValue(c: char): (d: nat)
    requires IsHexDigit(c)
    ensures d < 16
  {
    if '0' <= c <= '9' then c as nat - '0' as nat
    else if 'a' <= c <= 'f' then c as nat - 'a' as nat + 10
    else c as nat - 'A' as nat + 10
  }

  /** The number a string of hexadecimal digits denotes, last digit least significant. */
  function HexValue(s: string): nat
    requires AllHex(s)
  {
    if s == [] then 0 else HexValue(s[..|s| - 1]) * 16 + DigitValue(s[|s| - 1])
  }

  /** Length of the longest prefix of `s` made of hexadecimal digits. */
  function HexPrefixLen(s: string): (n: nat)
    ensures n <= |s|
    ensures AllHex(s[..n])
    ensures n < |s| ==> !IsHexDigit(s[n])
  {
    if s == [] || !IsHexDigit(s[0]) then 0
    else
      var n := 1 + HexPrefixLen(s[1..]);
      assert s[..n] == [s[0]] + s[1..][..n - 1];
      n
  }

  /** A string of digits is its own longest digit prefix. */
  lemma PrefixOfDigits(s: string)
    ensures AllHex(s) ==> HexPrefixLen(s) == |s|
  {
  }

  /** A prefix of digits lies within the longest one. */
  lemma {:induction false} PrefixLenAtLeast(s: string, j: nat)
    requires j <= |s|
    requires AllHex(s[..j])
    ensures HexPrefixLen(s) >= j
  {
    if j > 0 {
      assert IsHexDigit(s[..j][0]);
      var t := s[1..];
      assert t[..j - 1] == s[..j][1..];
      PrefixLenAtLeast(t, j - 1);
    }
  }

  /** Appending digits never makes the value smaller. */
  lemma {:induction false} HexValueMonotone(s: string, j: nat)
    requires AllHex(s)
    requires j <= |s|
    ensures AllHex(s[..j])
    ensures HexValue(s[..j]) <= HexValue(s)
    decreases |s| - j
  {
    if j < |s| {
      var t := s[..|s| - 1];
      assert t[..j] == s[..j];
      HexValueMonotone(t, j);
      assert HexValue(s) == HexValue(t) * 16 + DigitValue(s[|s| - 1]);
    } else {
      assert s[..j] == s;
    }
  }

  /** One more digit: the prefix value is multiplied by 16 and the digit added. */
  lemma ExtendPrefix(s: string, i: nat)
    requires i < |s|
    requires AllHex(s[..i])
    requires IsHexDigit(s[i])
    ensures AllHex(s[..i + 1])
    ensures HexValue(s[..i + 1]) == HexValue(s[..i]) * 16 + DigitValue(s[i])
  {
    var t := s[..i + 1];
    assert t[..i] == s[..i];
    assert forall j :: 0 <= j < i ==> t[j] == s[..i][j];
  }

  /**
   The loop of `ParseUint` from position `i`, with `n` the value of the
   digits before it.
   */
  function Scan(s: string, i: nat, n: nat): (r: Parsed)
    requires i <= |s|
    requires AllHex(s[..i])
    requires n == HexValue(s[..i])
    requires n <= MaxUint64
    ensures r.Parsed? <==> AllHex(s) && HexValue(s) <= MaxUint64
    ensures r.Parsed? ==> r.value == HexValue(s)
    ensures r.Failed? ==> r.err.num == s
    ensures r.Failed? ==>
              (r.err.ErrRange? <==> HexValue(s[..HexPrefixLen(s)]) > MaxUint64)
    decreases |s| - i
  {
    if i == |s| then
      assert s[..i] == s;
      Parsed(n)
    else if !IsHexDigit(s[i]) then
      ScanSyntax(s, i, n);
      Failed(ErrSyntax(s))
    else if n >= Cutoff then
      ScanRange(s, i, n);
      Failed(ErrRange(s))
    else
      // Go also reports a range error when adding the digit overflows; with
      // base 16 and `n < Cutoff` that cannot happen, so the branch is omitted.
      ExtendPrefix(s, i);
      Scan(s, i + 1, n * 16 + DigitValue(s[i]))
  }

  /** A non-digit at `i`: the longest digit prefix ends there and `s` is not all digits. */
  lemma ScanSyntax(s: string, i: nat, n: nat)
    requires i < |s|
    requires AllHex(s[..i])
    requires !IsHexDigit(s[i])
    requires n == HexValue(s[..i])
    requires n <= MaxUint64
    ensures !AllHex(s)
    ensures HexPrefixLen(s) == i
    ensures HexValue(s[..HexPrefixLen(s)]) <= MaxUint64
  {
  }

  /** A digit at `i` after a prefix worth at least `Cutoff`: the value no longer fits. */
  lemma ScanRange(s: string, i: nat, n: nat)
    requires i < |s|
    requires AllHex(s[..i])
    requires IsHexDigit(s[i])
    requires n == HexValue(s[..i])
    requires n >= Cutoff
    ensures HexValue(s[..HexPrefixLen(s)]) > MaxUint64
    ensures AllHex(s) ==> HexValue(s) > MaxUint64
  {
    ExtendPrefix(s, i);
    assert HexValue(s[..i + 1]) > MaxUint64;
    PrefixLenAtLeast(s, i + 1);
    var p := s[..HexPrefixLen(s)];
    assert p[..i + 1] == s[..i + 1];
    HexValueMonotone(p, i + 1);
    if AllHex(s) {
      HexValueMonotone(s, i + 1);
    }
  }

  /**
   `strconv.ParseUint(s, 16, 64)`: the value of `s` when it is a non-empty
   string of hexadecimal digits denoting at most 2^64 - 1; otherwise a range
   error when the digits before the first non-digit already exceed that, and
   a syntax error when they do not (including the empty string).
   */
  function ParseUint64(s: string): (r: Parsed)
    ensures r.Parsed? <==> s != [] && AllHex(s) && HexValue(s) <= MaxUint64
    ensures r.Parsed? ==> r.value == HexValue(s)
    ensures r == Failed(ErrRange(s)) <==> HexValue(s[..HexPrefixLen(s)]) > MaxUint64
    ensures r == Failed(ErrSyntax(s)) <==>
              s == [] || (!AllHex(s) && HexValue(s[..HexPrefixLen(s)]) <= MaxUint64)
  {
    if s == [] then Failed(ErrSyntax(s))
    else
      assert s[..0] == [];
      PrefixOfDigits(s);
      assert s[..|s|] == s;
      Scan(s, 0, 0)
  }
}
