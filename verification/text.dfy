/**
 * The string primitives the decoder relies on: ASCII lower-casing, prefix tests,
 * `String.prototype.split` on one separator character, decimal rendering of
 * numbers and the two ways the source reads numbers back (`parseInt`, and the
 * canonical index strings under which JavaScript stores array elements).
 */
module Text {
  import opened Wrappers

  // ---------------------------------------------------------------------------
  // Case and prefixes
  // ---------------------------------------------------------------------------

  predicate IsUpper(c: char) {
    'A' <= c <= 'Z'
  }

  /** `toLowerCase` on one character; only ASCII letters are mapped. */
  function LowerChar(c: char): char {
    if IsUpper(c) then (c as int + 32) as char else c
  }

  /** `String.prototype.toLowerCase` restricted to ASCII. */
  function Lower(s: string): string {
    seq(|s|, i requires 0 <= i < |s| => LowerChar(s[i]))
  }

  lemma LowerHasNoUpper(s: string)
    ensures forall i :: 0 <= i < |Lower(s)| ==> !IsUpper(Lower(s)[i])
  {
  }

  lemma LowerIdempotent(s: string)
    ensures Lower(Lower(s)) == Lower(s)
  {
  }

  predicate StartsWith(s: string, prefix: string) {
    |prefix| <= |s| && s[..|prefix|] == prefix
  }

  // ---------------------------------------------------------------------------
  // Splitting on a separator character
  // ---------------------------------------------------------------------------

  /** Position of the first occurrence of `c` in `s`. */
  function IndexOf(s: string, c: char): (p: nat)
    requires c in s
    ensures p < |s| && s[p] == c
    ensures c !in s[..p]
  {
    if s[0] == c then 0
    else
      assert c in s[1..] by {
        var k :| 0 <= k < |s| && s[k] == c;
        assert s[1..][k - 1] == c;
      }
      var q := IndexOf(s[1..], c);
      assert s[..q + 1] == [s[0]] + s[1..][..q];
      q + 1
  }

  /** The parts joined back with the separator in between: the inverse of `Split`. */
  function Join(parts: seq<string>, sep: char): string {
    if |parts| == 0 then ""
    else if |parts| == 1 then parts[0]
    else parts[0] + [sep] + Join(parts[1..], sep)
  }

  /**
   * `s.split(sep)` for a one-character separator: the pieces between
   * consecutive separators, cut at EVERY occurrence.
   */
  function Split(s: string, sep: char): (parts: seq<string>)
    ensures |parts| >= 1
    ensures forall i :: 0 <= i < |parts| ==> sep !in parts[i]
    ensures Join(parts, sep) == s
    decreases |s|
  {
    if sep !in s then [s]
    else
      var p := IndexOf(s, sep);
      var rest := Split(s[p + 1..], sep);
      assert s == s[..p] + [sep] + s[p + 1..];
      [s[..p]] + rest
  }

  /** The first occurrence is the only position with `c` and no `c` before it. */
  lemma {:induction false} IndexOfUnique(s: string, c: char, p: nat)
    requires p < |s| && s[p] == c && c !in s[..p]
    ensures IndexOf(s, c) == p
  {
    if p > 0 {
      assert s[..p][0] == s[0];
      assert s[1..][..p - 1] == s[..p][1..];
      IndexOfUnique(s[1..], c, p - 1);
    }
  }

  /** In `a + [c] + rest`, the first `c` is the one right after `a` when `a` has none. */
  lemma IndexOfAfterFree(a: string, c: char, rest: string)
    requires c !in a
    ensures IndexOf(a + [c] + rest, c) == |a|
  {
    var s := a + [c] + rest;
    assert s[..|a|] == a;
    IndexOfUnique(s, c, |a|);
  }

  /** Text appended after an occurrence does not move the first occurrence. */
  lemma IndexOfInPrefix(a: string, b: string, c: char)
    requires c in a
    ensures IndexOf(a + b, c) == IndexOf(a, c)
  {
    var p := IndexOf(a, c);
    assert (a + b)[..p] == a[..p];
    IndexOfUnique(a + b, c, p);
  }

  /** The first piece, and the first two pieces with the separator between them, start the text. */
  lemma SplitPieces(s: string, sep: char)
    ensures StartsWith(s, Split(s, sep)[0])
    ensures |Split(s, sep)| > 1 ==> StartsWith(s, Split(s, sep)[0] + [sep] + Split(s, sep)[1])
  {
    FirstPieceStarts(s, sep);
    if sep in s {
      var p := IndexOf(s, sep);
      var rest := s[p + 1..];
      assert Split(s, sep) == [s[..p]] + Split(rest, sep);
      FirstPieceStarts(rest, sep);
      assert s == s[..p] + [sep] + rest;
      StartsWithAfter(s[..p] + [sep], rest, Split(rest, sep)[0]);
    }
  }

  lemma FirstPieceStarts(s: string, sep: char)
    ensures StartsWith(s, Split(s, sep)[0])
  {
    SplitHead(s, sep);
  }

  /** A common front keeps one text a prefix of another. */
  lemma StartsWithAfter(front: string, s: string, prefix: string)
    requires StartsWith(s, prefix)
    ensures StartsWith(front + s, front + prefix)
  {
    assert (front + s)[..|front + prefix|] == front + s[..|prefix|];
  }

  /** Splitting text that starts with a separator-free piece and a separator peels that piece off. */
  lemma SplitAfterFree(a: string, sep: char, rest: string)
    requires sep !in a
    ensures Split(a + [sep] + rest, sep) == [a] + Split(rest, sep)
  {
    var s := a + [sep] + rest;
    IndexOfAfterFree(a, sep, rest);
    assert s[..|a|] == a && s[|a| + 1..] == rest;
  }

  /**
   * The first piece of a split, described without `Split`: a separator-free
   * text starting `s` that runs to the end of `s` or up to a separator.
   */
  lemma FirstPieceIs(s: string, sep: char, w: string)
    requires sep !in w
    ensures Split(s, sep)[0] == w <==> StartsWith(s, w) && (|w| == |s| || s[|w|] == sep)
  {
    SplitHead(s, sep);
    if sep in s {
      if StartsWith(s, w) && |w| < |s| && s[|w|] == sep {
        assert s[..|w|] == w;
        IndexOfUnique(s, sep, |w|);
      }
    } else if StartsWith(s, w) && |w| < |s| {
      assert s[|w|] in s;
    }
  }

  /** When there is a second piece, a separator ends the first one and the second is the first piece of what follows. */
  lemma SecondPiece(s: string, sep: char)
    requires |Split(s, sep)| > 1
    ensures var first := Split(s, sep)[0];
      && |first| < |s| && s[|first|] == sep
      && Split(s, sep)[1] == Split(s[|first| + 1..], sep)[0]
  {
    SplitHead(s, sep);
  }

  /** The first piece of a split is everything before the first separator. */
  lemma SplitHead(s: string, sep: char)
    ensures sep in s ==> Split(s, sep)[0] == s[..IndexOf(s, sep)]
    ensures sep !in s ==> Split(s, sep) == [s]
  {
  }

  // ---------------------------------------------------------------------------
  // Decimal digits
  // ---------------------------------------------------------------------------

  predicate IsDigit(c: char) {
    '0' <= c <= '9'
  }

  predicate AllDigits(s: string) {
    forall i :: 0 <= i < |s| ==> IsDigit(s[i])
  }

  function DigitValue(c: char): nat
    requires IsDigit(c)
  {
    c as int - '0' as int
  }

  function DigitChar(d: nat): (c: char)
    requires d < 10
    ensures IsDigit(c) && DigitValue(c) == d
  {
    ('0' as int + d) as char
  }

  /** The number written by a run of decimal digits, most significant first. */
  function DigitsValue(s: string): nat
    requires AllDigits(s)
  {
    if |s| == 0 then 0 else 10 * DigitsValue(s[..|s| - 1]) + DigitValue(s[|s| - 1])
  }

  /** The decimal text of a natural number, as `String(n)` renders it. */
  function NatToString(n: nat): (r: string)
    ensures 0 < |r| && AllDigits(r)
    ensures |r| == 1 || r[0] != '0'
    ensures DigitsValue(r) == n
  {
    if n < 10 then
      var r := [DigitChar(n)];
      assert r[..0] == [];
      r
    else
      var high := NatToString(n / 10);
      var r := high + [DigitChar(n % 10)];
      assert r[..|r| - 1] == high;
      assert |high| == 1 ==> DigitValue(high[0]) == n / 10 by {
        if |high| == 1 {
          assert high[..0] == [];
        }
      }
      r
  }

  /** The decimal text of an integer, with a leading minus sign when negative. */
  function IntToString(n: int): string {
    if n < 0 then "-" + NatToString(-n) else NatToString(n)
  }

  /** Text with no superfluous leading zero: exactly the strings `String(n)` produces. */
  predicate IsCanonicalNat(s: string) {
    0 < |s| && AllDigits(s) && (|s| == 1 || s[0] != '0')
  }

  lemma {:induction false} LeadingNonZeroIsPositive(s: string)
    requires 0 < |s| && AllDigits(s) && s[0] != '0'
    ensures DigitsValue(s) >= 1
  {
    if |s| > 1 {
      LeadingNonZeroIsPositive(s[..|s| - 1]);
    }
  }

  /** Reading back canonical decimal text and printing it again gives the same text. */
  lemma {:induction false} NatToStringOfDigitsValue(s: string)
    requires IsCanonicalNat(s)
    ensures NatToString(DigitsValue(s)) == s
  {
    if |s| == 1 {
      assert s[..0] == [];
      assert DigitChar(DigitValue(s[0])) == s[0];
    } else {
      var high := s[..|s| - 1];
      LeadingNonZeroIsPositive(high);
      NatToStringOfDigitsValue(high);
      var v := DigitsValue(s);
      assert v / 10 == DigitsValue(high) && v % 10 == DigitValue(s[|s| - 1]);
      assert DigitChar(DigitValue(s[|s| - 1])) == s[|s| - 1];
      assert s == high + [s[|s| - 1]];
    }
  }

  /**
   * The integer a property key names when it is a canonical numeric string
   * ("0", "17", but not "017", "-1" or "1.0"): how arrays and strings
   * resolve `v[key]`.
   */
  function CanonicalIndex(s: string): (r: Option<nat>)
    ensures r.Some? <==> IsCanonicalNat(s)
    ensures r.Some? ==> NatToString(r.value) == s
  {
    if IsCanonicalNat(s) then
      NatToStringOfDigitsValue(s);
      Some(DigitsValue(s))
    else None
  }

  /** Printing a number and reading it back as an index returns the number. */
  lemma CanonicalIndexOfNatToString(n: nat)
    ensures CanonicalIndex(NatToString(n)) == Some(n)
  {
  }

  /** Distinct numbers print as distinct text. */
  lemma NatToStringInjective(m: nat, n: nat)
    ensures NatToString(m) == NatToString(n) ==> m == n
  {
  }

  // ---------------------------------------------------------------------------
  // parseInt
  // ---------------------------------------------------------------------------

  predicate IsHexDigit(c: char) {
    IsDigit(c) || 'a' <= c <= 'f' || 'A' <= c <= 'F'
  }

  function HexDigitValue(c: char): nat
    requires IsHexDigit(c)
  {
    if IsDigit(c) then DigitValue(c)
    else if 'a' <= c <= 'f' then c as int - 'a' as int + 10
    else c as int - 'A' as int + 10
  }

  /** The longest prefix of `s` made of decimal digits. */
  function LeadingDigits(s: string): (r: string)
    ensures AllDigits(r) && StartsWith(s, r)
    ensures |r| < |s| ==> !IsDigit(s[|r|])
  {
    if |s| == 0 || !IsDigit(s[0]) then ""
    else [s[0]] + LeadingDigits(s[1..])
  }

  /** The longest prefix of `s` made of hexadecimal digits. */
  function LeadingHexDigits(s: string): (r: string)
    ensures forall i :: 0 <= i < |r| ==> IsHexDigit(r[i])
    ensures StartsWith(s, r)
    ensures |r| < |s| ==> !IsHexDigit(s[|r|])
  {
    if |s| == 0 || !IsHexDigit(s[0]) then ""
    else [s[0]] + LeadingHexDigits(s[1..])
  }

  function HexValue(s: string): nat
    requires forall i :: 0 <= i < |s| ==> IsHexDigit(s[i])
  {
    if |s| == 0 then 0 else 16 * HexValue(s[..|s| - 1]) + HexDigitValue(s[|s| - 1])
  }

  /**
   * `parseInt(s)` with no radix: an optional sign, then a `0x`/`0X` prefix
   * selects base 16, then the longest run of digits of that base is read and
   * the rest ignored. `None` stands for `NaN` (no digit at all).
   */
  function ParseInt(s: string): Option<int> {
    var negative := |s| > 0 && s[0] == '-';
    var unsigned := if |s| > 0 && (s[0] == '-' || s[0] == '+') then s[1..] else s;
    var sign := if negative then -1 else 1;
    if |unsigned| >= 2 && unsigned[0] == '0' && (unsigned[1] == 'x' || unsigned[1] == 'X') then
      var digits := LeadingHexDigits(unsigned[2..]);
      if |digits| == 0 then None else Some(sign * HexValue(digits))
    else
      var digits := LeadingDigits(unsigned);
      if |digits| == 0 then None else Some(sign * DigitsValue(digits))
  }

  lemma {:induction false} LeadingDigitsOfDigits(s: string)
    requires AllDigits(s)
    ensures LeadingDigits(s) == s
  {
    if |s| > 0 {
      LeadingDigitsOfDigits(s[1..]);
    }
  }

  /** `parseInt` reads back exactly the number `String(n)` printed. */
  lemma ParseIntOfNatToString(n: nat)
    ensures ParseInt(NatToString(n)) == Some(n)
  {
    var s := NatToString(n);
    LeadingDigitsOfDigits(s);
    assert !(|s| >= 2 && s[0] == '0');
  }
}
