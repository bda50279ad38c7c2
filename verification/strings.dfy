/**
 * The string functions of Boost and of the C++ standard library that the
 * texture packer relies on: `boost::split` without token compression,
 * `boost::to_lower_copy`, `boost::starts_with`, `std::stoi` and
 * `std::to_string`, all in the classic locale.
 */
module Strings {
  import opened Options
  import TextureAtlases

  // ---------------------------------------------------------------------
  // Splitting at every separator
  // ---------------------------------------------------------------------

  /** The number of times `c` occurs in `s`. */
  function Count(s: string, c: char): nat
  {
    if s == [] then 0 else (if s[0] == c then 1 else 0) + Count(s[1..], c)
  }

  /**
   * `boost::split(parts, s, is_any_of({sep}))`: the pieces between
   * separators; two separators in a row give an empty piece.
   */
  function SplitEach(s: string, sep: char): (parts: seq<string>)
    ensures |parts| >= 1
    decreases |s|
  {
    if sep !in s then [s]
    else
      var i := TextureAtlases.FirstIndex(s, sep);
      [s[..i]] + SplitEach(s[i + 1..], sep)
  }

  /** The pieces of `parts` with `sep` between each two. */
  function Join(parts: seq<string>, sep: char): string
  {
    if parts == [] then []
    else if |parts| == 1 then parts[0]
    else parts[0] + [sep] + Join(parts[1..], sep)
  }

  lemma {:induction false} CountSplit(s: string, i: nat, c: char)
    requires i <= |s|
    ensures Count(s, c) == Count(s[..i], c) + Count(s[i..], c)
  {
    if i > 0 {
      assert s[..i][1..] == s[1..][..i - 1];
      CountSplit(s[1..], i - 1, c);
    } else {
      assert s[i..] == s;
    }
  }

  lemma {:induction false} CountAbsent(s: string, c: char)
    requires c !in s
    ensures Count(s, c) == 0
  {
    if s != [] {
      CountAbsent(s[1..], c);
    }
  }

  /** There is one piece more than there are separators. */
  lemma {:induction false} SplitEachCount(s: string, sep: char)
    ensures |SplitEach(s, sep)| == Count(s, sep) + 1
    decreases |s|
  {
    if sep !in s {
      CountAbsent(s, sep);
    } else {
      var i := TextureAtlases.FirstIndex(s, sep);
      SplitEachCount(s[i + 1..], sep);
      CountSplit(s, i, sep);
      CountAbsent(s[..i], sep);
      assert s[i..][1..] == s[i + 1..];
    }
  }

  /** Joining the pieces with the separator gives the string back. */
  lemma {:induction false} SplitEachJoin(s: string, sep: char)
    ensures Join(SplitEach(s, sep), sep) == s
    decreases |s|
  {
    if sep in s {
      var i := TextureAtlases.FirstIndex(s, sep);
      var rest := SplitEach(s[i + 1..], sep);
      SplitEachJoin(s[i + 1..], sep);
      assert SplitEach(s, sep) == [s[..i]] + rest;
      assert s == s[..i] + [sep] + s[i + 1..];
    }
  }

  /** Pieces without the separator, joined with it, split back into the
      same pieces. */
  lemma {:induction false} JoinSplitEach(parts: seq<string>, sep: char)
    requires |parts| >= 1
    requires forall k :: 0 <= k < |parts| ==> sep !in parts[k]
    ensures SplitEach(Join(parts, sep), sep) == parts
    decreases |parts|
  {
    if |parts| > 1 {
      var head, tail := parts[0], Join(parts[1..], sep);
      var s := head + [sep] + tail;
      assert Join(parts, sep) == s;
      var i := TextureAtlases.FirstIndex(s, sep);
      assert s[|head|] == sep;
      assert s[..i] == head && s[i + 1..] == tail;
      JoinSplitEach(parts[1..], sep);
    }
  }

  // ---------------------------------------------------------------------
  // Case and prefixes
  // ---------------------------------------------------------------------

  /** The lower-case form of an ASCII capital; other characters are left as they are. */
  function LowerChar(c: char): char
  {
    if 'A' <= c <= 'Z' then (c as int + 32) as char else c
  }

  /** `boost::to_lower_copy`. */
  function Lower(s: string): (r: string)
    ensures |r| == |s|
  {
    seq(|s|, i requires 0 <= i < |s| => LowerChar(s[i]))
  }

  /** A string without capitals is its own lower-case form. */
  lemma LowerKeeps(s: string)
    requires forall i :: 0 <= i < |s| ==> !('A' <= s[i] <= 'Z')
    ensures Lower(s) == s
  {
  }

  /** Lower-casing does not change which characters are white space. */
  lemma LowerSpaces(s: string)
    ensures forall i :: 0 <= i < |s| ==> (TextureAtlases.IsSpace(Lower(s)[i]) <==> TextureAtlases.IsSpace(s[i]))
  {
  }

  /** `boost::starts_with`. */
  predicate StartsWith(s: string, prefix: string)
  {
    |prefix| <= |s| && s[..|prefix|] == prefix
  }

  // ---------------------------------------------------------------------
  // Numbers
  // ---------------------------------------------------------------------

  /** The range of a 32-bit `int`, which `std::stoi` returns. */
  const IntMin: int := -0x8000_0000
  const IntMax: int := 0x7FFF_FFFF

  predicate IsDigit(c: char) { '0' <= c <= '9' }

  /** The length of the run of digits `s` starts with. */
  function DigitRun(s: string): (n: nat)
    ensures n <= |s|
    ensures forall i :: 0 <= i < n ==> IsDigit(s[i])
    ensures n < |s| ==> !IsDigit(s[n])
  {
    if s != [] && IsDigit(s[0]) then 1 + DigitRun(s[1..]) else 0
  }

  function DigitValue(c: char): nat
    requires IsDigit(c)
  {
    c as int - '0' as int
  }

  /** The number a string of decimal digits stands for. */
  function DecimalValue(d: string): nat
    requires forall i :: 0 <= i < |d| ==> IsDigit(d[i])
  {
    if d == [] then 0 else 10 * DecimalValue(d[..|d| - 1]) + DigitValue(d[|d| - 1])
  }

  /**
   * `std::stoi(s)`: leading white space, an optional sign and the longest
   * run of digits after it; whatever follows the digits is ignored. It
   * throws (`None`) when there is no digit or the number is out of the range
   * of `int`.
   */
  function Stoi(s: string): (r: Option<int>)
    ensures r.Some? ==> IntMin <= r.value <= IntMax
  {
    var t := TextureAtlases.TrimStart(s);
    var signed := t != [] && (t[0] == '-' || t[0] == '+');
    var u := if signed then t[1..] else t;
    var n := DigitRun(u);
    if n == 0 then None
    else
      var magnitude: int := DecimalValue(u[..n]);
      var v: int := if signed && t[0] == '-' then -magnitude else magnitude;
      if v < IntMin || v > IntMax then None else Some(v)
  }

  function DigitChar(d: nat): (c: char)
    requires d < 10
    ensures IsDigit(c) && DigitValue(c) == d
  {
    ('0' as int + d) as char
  }

  /** `std::to_string` of a non-negative number: its decimal digits, without leading zeros. */
  function Decimal(n: nat): (s: string)
    ensures |s| >= 1 && forall i :: 0 <= i < |s| ==> IsDigit(s[i])
  {
    if n < 10 then [DigitChar(n)] else Decimal(n / 10) + [DigitChar(n % 10)]
  }

  lemma {:induction false} DecimalValueOfDecimal(n: nat)
    ensures DecimalValue(Decimal(n)) == n
  {
    if n >= 10 {
      var d := Decimal(n);
      assert d[..|d| - 1] == Decimal(n / 10);
      DecimalValueOfDecimal(n / 10);
    }
  }

  /** A string of digits is all one digit run. */
  lemma {:induction false} DigitRunOfDigits(s: string)
    requires forall i :: 0 <= i < |s| ==> IsDigit(s[i])
    ensures DigitRun(s) == |s|
  {
    if s != [] {
      DigitRunOfDigits(s[1..]);
    }
  }

  /** `std::stoi` reads back what `std::to_string` writes. */
  lemma StoiDecimal(n: nat)
    requires n <= IntMax
    ensures Stoi(Decimal(n)) == Some(n)
  {
    var s := Decimal(n);
    assert !TextureAtlases.IsSpace(s[0]);
    assert TextureAtlases.TrimStart(s) == s;
    DigitRunOfDigits(s);
    assert s[..|s|] == s;
    DecimalValueOfDecimal(n);
  }
}
