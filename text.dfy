/**
 * The few string operations of Python's `str` that the core relies on:
 * whitespace tests and stripping, `str(int)`, `str.lower()` on ASCII letters
 * and `str.join`.
 */
module Text {

  /** The characters that Python's `str.isspace()` and `str.strip()` treat as whitespace. */
  predicate IsSpace(c: char) {
    ('\t' <= c <= '\r') || ('\U{1c}' <= c <= '\U{1f}') || c == ' '
    || c == '\U{85}' || c == '\U{a0}' || c == '\U{1680}'
    || ('\U{2000}' <= c <= '\U{200a}') || c == '\U{2028}' || c == '\U{2029}'
    || c == '\U{202f}' || c == '\U{205f}' || c == '\U{3000}'
  }

  /** `not line or line.isspace()`: empty, or nothing but whitespace. */
  predicate IsBlank(s: string) {
    forall i :: 0 <= i < |s| ==> IsSpace(s[i])
  }

  /** `s.lstrip()`: the longest suffix of `s` that does not start with whitespace. */
  function LStrip(s: string): (r: string)
    ensures |r| <= |s| && r == s[|s| - |r|..]
    ensures forall i :: 0 <= i < |s| - |r| ==> IsSpace(s[i])
    ensures r == [] || !IsSpace(r[0])
  {
    if s != [] && IsSpace(s[0]) then LStrip(s[1..]) else s
  }

  /** `s.rstrip()`: the longest prefix of `s` that does not end with whitespace. */
  function RStrip(s: string): (r: string)
    ensures |r| <= |s| && r == s[..|r|]
    ensures forall i :: |r| <= i < |s| ==> IsSpace(s[i])
    ensures r == [] || !IsSpace(r[|r| - 1])
  {
    if s != [] && IsSpace(s[|s| - 1]) then RStrip(s[..|s| - 1]) else s
  }

  /** `s.strip()`. */
  function Strip(s: string): string {
    RStrip(LStrip(s))
  }

  /** A line that is not blank keeps a non-empty name once stripped. */
  lemma StripNonBlank(s: string)
    requires !IsBlank(s)
    ensures Strip(s) != []
    ensures !IsSpace(Strip(s)[0]) && !IsSpace(Strip(s)[|Strip(s)| - 1])
  {
    var k :| 0 <= k < |s| && !IsSpace(s[k]);
    var l := LStrip(s);
    assert l != [] && !IsSpace(l[0]) by {
      assert |s| - |l| <= k;
    }
    RStripKeepsHead(l);
  }

  lemma RStripKeepsHead(s: string)
    requires s != [] && !IsSpace(s[0])
    ensures RStrip(s) != [] && RStrip(s)[0] == s[0]
  {
  }

  // ---- str(int) -----------------------------------------------------------

  function DigitChar(d: nat): (c: char)
    requires d < 10
    ensures '0' <= c <= '9'
  {
    (('0' as int) + d) as char
  }

  predicate IsDigit(c: char) {
    '0' <= c <= '9'
  }

  /** Decimal digits of a natural number, most significant first, no leading zero. */
  function NatToString(n: nat): (r: string)
    ensures r != [] && (forall i :: 0 <= i < |r| ==> IsDigit(r[i]))
    ensures |r| > 1 ==> r[0] != '0'
  {
    if n < 10 then [DigitChar(n)] else NatToString(n / 10) + [DigitChar(n % 10)]
  }

  /** Python's `str(i)` for an `int`. */
  function IntToString(i: int): (r: string)
    ensures r != []
    ensures r[0] == '-' <==> i < 0
  {
    if i < 0 then "-" + NatToString(-i) else NatToString(i)
  }

  /** Reads back a string of decimal digits. */
  function ParseNat(s: string): nat
    requires forall i :: 0 <= i < |s| ==> IsDigit(s[i])
  {
    if s == [] then 0
    else
      assert IsDigit(s[|s| - 1]);
      ParseNat(s[..|s| - 1]) * 10 + (s[|s| - 1] as int - '0' as int)
  }

  /** Decimal text: digits after an optional leading minus sign. */
  predicate IsDecimal(s: string) {
    s != [] && forall i :: (if s[0] == '-' then 1 else 0) <= i < |s| ==> IsDigit(s[i])
  }

  /** Reads back what `IntToString` writes. */
  function ParseInt(s: string): int
    requires IsDecimal(s)
  {
    if s[0] == '-' then 0 - (ParseNat(s[1..]) as int) else ParseNat(s)
  }

  lemma {:induction false} NatToStringRoundTrip(n: nat)
    ensures ParseNat(NatToString(n)) == n
  {
    if n >= 10 {
      var s := NatToString(n);
      assert s[..|s| - 1] == NatToString(n / 10);
      NatToStringRoundTrip(n / 10);
    }
  }

  /** `str(i)` holds digits after an optional leading minus sign. */
  lemma IntDigits(i: int)
    ensures IsDecimal(IntToString(i))
  {
    var s := IntToString(i);
    if i < 0 {
      assert s == "-" + NatToString(-i);
      forall k | 1 <= k < |s|
        ensures IsDigit(s[k])
      {
        assert s[k] == NatToString(-i)[k - 1];
      }
    }
  }

  /** The decimal text of an integer determines the integer: the text in a query names exactly that value. */
  lemma IntToStringRoundTrip(i: int)
    ensures IsDecimal(IntToString(i)) && ParseInt(IntToString(i)) == i
  {
    IntDigits(i);
    if i < 0 {
      assert IntToString(i)[1..] == NatToString(-i);
      NatToStringRoundTrip(-i);
    } else {
      NatToStringRoundTrip(i);
    }
  }

  // ---- str.lower() ----------------------------------------------------------

  predicate IsUpper(c: char) {
    'A' <= c <= 'Z'
  }

  function LowerChar(c: char): char {
    if IsUpper(c) then ((c as int) + 32) as char else c
  }

  /** `s.lower()` restricted to ASCII letters. */
  function Lower(s: string): (r: string)
    ensures |r| == |s|
    ensures forall i :: 0 <= i < |r| ==> !IsUpper(r[i])
    ensures forall i :: 0 <= i < |r| ==> (r[i] == s[i] || (IsUpper(s[i]) && r[i] as int == s[i] as int + 32))
  {
    seq(|s|, i requires 0 <= i < |s| => LowerChar(s[i]))
  }

  // ---- str.join ------------------------------------------------------------

  /** `sep.join(parts)`. */
  function Join(sep: string, parts: seq<string>): string {
    if parts == [] then []
    else if |parts| == 1 then parts[0]
    else Join(sep, parts[..|parts| - 1]) + sep + parts[|parts| - 1]
  }

  /** A character that is in no part and not in the separator is not in the join. */
  lemma {:induction false} JoinAvoids(c: char, sep: string, parts: seq<string>)
    requires c !in sep && forall i :: 0 <= i < |parts| ==> c !in parts[i]
    ensures c !in Join(sep, parts)
  {
    if |parts| > 1 {
      JoinAvoids(c, sep, parts[..|parts| - 1]);
    }
  }

  /** Joining parts that are never empty gives the empty string only for no parts. */
  lemma JoinEmpty(sep: string, parts: seq<string>)
    requires forall i :: 0 <= i < |parts| ==> parts[i] != []
    ensures Join(sep, parts) == [] <==> parts == []
  {
    if |parts| > 1 {
      assert |Join(sep, parts)| >= |parts[|parts| - 1]|;
    }
  }

  /** Occurrences of `c` in `s`. */
  function Count(c: char, s: string): nat {
    if s == [] then 0 else (if s[0] == c then 1 else 0) + Count(c, s[1..])
  }

  lemma {:induction false} CountAppend(c: char, a: string, b: string)
    ensures Count(c, a + b) == Count(c, a) + Count(c, b)
  {
    if a == [] {
      assert a + b == b;
    } else {
      assert (a + b)[1..] == a[1..] + b;
      CountAppend(c, a[1..], b);
    }
  }

  /** Joining counts every occurrence of `c` in the parts and in the separators between them. */
  lemma {:induction false} CountJoin(c: char, sep: string, parts: seq<string>, each: nat)
    requires forall i :: 0 <= i < |parts| ==> Count(c, parts[i]) == each
    requires Count(c, sep) == 0
    ensures Count(c, Join(sep, parts)) == each * |parts|
  {
    var n := |parts|;
    if n > 1 {
      var init := parts[..n - 1];
      CountJoin(c, sep, init, each);
      CountAppend(c, Join(sep, init), sep);
      CountAppend(c, Join(sep, init) + sep, parts[n - 1]);
      MulSucc(each, n - 1);
    }
  }

  lemma MulSucc(a: nat, m: nat)
    ensures a * m + a == a * (m + 1)
  {
  }

  /** The parts of a join that are separated by one character can be cut apart again. */
  function Split(s: string, c: char): (r: seq<string>)
    ensures r != []
  {
    if s == [] then [[]]
    else
      var rest := Split(s[1..], c);
      if s[0] == c then [[]] + rest else [[s[0]] + rest[0]] + rest[1..]
  }

  /** Text without the separator is one piece. */
  lemma {:induction false} SplitNone(s: string, c: char)
    requires c !in s
    ensures Split(s, c) == [s]
  {
    if s != [] {
      assert s[0] != c && c !in s[1..];
      SplitNone(s[1..], c);
      assert [s[0]] + s[1..] == s;
    }
  }

  /** A separator followed by separator-free text ends the split with that text as one more piece. */
  lemma {:induction false} SplitLast(a: string, c: char, b: string)
    requires c !in b
    ensures Split(a + [c] + b, c) == Split(a, c) + [b]
  {
    if a == [] {
      assert a + [c] + b == [c] + b;
      assert ([c] + b)[1..] == b;
      SplitNone(b, c);
    } else {
      assert (a + [c] + b)[1..] == a[1..] + [c] + b;
      SplitLast(a[1..], c, b);
    }
  }

  /** Joining pieces with a one-character separator none of them contains, then splitting, gives the pieces back. */
  lemma {:induction false} SplitJoin(c: char, parts: seq<string>)
    requires parts != [] && forall i :: 0 <= i < |parts| ==> c !in parts[i]
    ensures Split(Join([c], parts), c) == parts
  {
    var n := |parts|;
    if n == 1 {
      SplitNone(parts[0], c);
    } else {
      var init := parts[..n - 1];
      SplitJoin(c, init);
      SplitLast(Join([c], init), c, parts[n - 1]);
      assert init + [parts[n - 1]] == parts;
    }
  }
}
