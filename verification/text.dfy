/**
  Text helpers used by the catalog filter and by the analytics display string:
  ASCII case folding, substring search, QString-style splitting, and decimal
  integer formatting and parsing.
*/
module Text {
  import opened Wrappers

  /** ASCII lower-casing; every other character is returned unchanged. */
  function LowerChar(c: char): char {
    if 'A' <= c <= 'Z' then (c as int + 32) as char else c
  }

  function Lower(s: string): (r: string)
    ensures |r| == |s|
    ensures forall i :: 0 <= i < |s| ==> r[i] == LowerChar(s[i])
  {
    seq(|s|, i requires 0 <= i < |s| => LowerChar(s[i]))
  }

  predicate StartsWith(s: string, p: string) {
    |p| <= |s| && s[..|p|] == p
  }

  predicate EndsWith(s: string, p: string) {
    |p| <= |s| && s[|s| - |p|..] == p
  }

  /** `needle` occurs in `hay` at index `i`. */
  predicate OccursAt(hay: string, needle: string, i: int) {
    0 <= i && i + |needle| <= |hay| && hay[i..i + |needle|] == needle
  }

  /** Case-sensitive containment; the empty needle is contained in every string. */
  predicate Contains(hay: string, needle: string)
    decreases |hay|
  {
    StartsWith(hay, needle) || (|hay| > 0 && Contains(hay[1..], needle))
  }

  /** Occurrences in `hay` are the prefix match at 0 and the occurrences in the tail, shifted by one. */
  lemma OccursStep(hay: string, needle: string)
    requires |hay| > 0
    ensures forall j :: OccursAt(hay, needle, j) <==>
      (j == 0 && StartsWith(hay, needle)) || (j >= 1 && OccursAt(hay[1..], needle, j - 1))
  {
    forall j ensures OccursAt(hay, needle, j) <==>
      (j == 0 && StartsWith(hay, needle)) || (j >= 1 && OccursAt(hay[1..], needle, j - 1))
    {
      if j >= 1 && j + |needle| <= |hay| {
        assert hay[1..][j - 1..j - 1 + |needle|] == hay[j..j + |needle|];
      }
    }
  }

  /** The scan that `Contains` performs finds exactly the positions where `needle` occurs. */
  lemma {:induction false} ContainsIffOccurs(hay: string, needle: string)
    ensures Contains(hay, needle) <==> exists i :: OccursAt(hay, needle, i)
    decreases |hay|
  {
    if |hay| == 0 {
      if StartsWith(hay, needle) {
        assert OccursAt(hay, needle, 0);
      }
    } else {
      ContainsIffOccurs(hay[1..], needle);
      OccursStep(hay, needle);
      if StartsWith(hay, needle) {
        assert OccursAt(hay, needle, 0);
      } else if Contains(hay[1..], needle) {
        var j :| OccursAt(hay[1..], needle, j);
        assert OccursAt(hay, needle, j + 1);
      }
    }
  }

  /** Index of the first occurrence of `needle` in `hay`, if any. */
  function FirstIndex(hay: string, needle: string): (r: Option<nat>)
    ensures r.Some? ==> OccursAt(hay, needle, r.value)
    ensures r.Some? ==> forall j :: 0 <= j < r.value ==> !OccursAt(hay, needle, j)
    ensures r.None? ==> forall j :: !OccursAt(hay, needle, j)
    decreases |hay|
  {
    if StartsWith(hay, needle) then
      Some(0)
    else if |hay| == 0 then
      None
    else
      OccursStep(hay, needle);
      match FirstIndex(hay[1..], needle)
      case None => None
      case Some(k) => Some(k + 1)
  }

  /** The first occurrence is the one `FirstIndex` reports. */
  lemma FirstIndexIs(hay: string, needle: string, i: nat)
    requires OccursAt(hay, needle, i)
    requires forall j :: 0 <= j < i ==> !OccursAt(hay, needle, j)
    ensures FirstIndex(hay, needle) == Some(i)
  {
  }

  /** A string lacking a character of `needle` holds no occurrence of `needle`. */
  lemma MissingCharNoOccurrence(hay: string, needle: string, c: char)
    requires c in needle && c !in hay
    ensures forall j :: !OccursAt(hay, needle, j)
  {
    forall j ensures !OccursAt(hay, needle, j) {
      var k :| 0 <= k < |needle| && needle[k] == c;
      if 0 <= j && j + |needle| <= |hay| {
        assert hay[j..j + |needle|][k] == hay[j + k];
      }
    }
  }

  /**
    QString::split with a non-empty separator and empty parts kept: the pieces
    between successive occurrences of `sep`, left to right.
  */
  function Split(s: string, sep: string): (parts: seq<string>)
    requires |sep| > 0
    ensures |parts| >= 1
    ensures FirstIndex(s, sep).None? ==> parts == [s]
    ensures FirstIndex(s, sep).Some? ==> |parts| >= 2 && parts[0] == s[..FirstIndex(s, sep).value]
    decreases |s|
  {
    match FirstIndex(s, sep)
    case None => [s]
    case Some(i) => [s[..i]] + Split(s[i + |sep|..], sep)
  }

  /** When `sep` does not occur inside `a`, splitting `a + sep + b` cuts first right after `a`. */
  lemma SplitAt(a: string, sep: string, b: string)
    requires |sep| > 0
    requires forall j :: 0 <= j < |a| ==> !OccursAt(a + sep + b, sep, j)
    ensures Split(a + sep + b, sep) == [a] + Split(b, sep)
  {
    var s := a + sep + b;
    assert s[|a|..|a| + |sep|] == sep;
    FirstIndexIs(s, sep, |a|);
    assert s[..|a|] == a;
    assert s[|a| + |sep|..] == b;
  }

  /** A piece free of the separator's first character is cut off whole. */
  lemma SplitAtFirstChar(a: string, sep: string, b: string)
    requires |sep| > 0 && sep[0] !in a
    ensures Split(a + sep + b, sep) == [a] + Split(b, sep)
  {
    var s := a + sep + b;
    forall j | 0 <= j < |a| ensures !OccursAt(s, sep, j) {
      if j + |sep| <= |s| {
        assert s[j..j + |sep|][0] == a[j];
      }
    }
    SplitAt(a, sep, b);
  }

  /**
    A piece free of the separator's second character is cut off whole, when
    that character differs from the first.
  */
  lemma SplitAtSecondChar(a: string, sep: string, b: string)
    requires |sep| >= 2 && sep[0] != sep[1] && sep[1] !in a
    ensures Split(a + sep + b, sep) == [a] + Split(b, sep)
  {
    var s := a + sep + b;
    forall j | 0 <= j < |a| ensures !OccursAt(s, sep, j) {
      if j + |sep| <= |s| {
        assert s[j..j + |sep|][1] == s[j + 1];
        if j + 1 < |a| {
          assert s[j + 1] == a[j + 1];
        } else {
          assert s[j + 1] == sep[0];
        }
      }
    }
    SplitAt(a, sep, b);
  }

  /**
    When `needle[k]` does not appear in `hay` from index `k` on, `needle`
    occurs nowhere in `hay`.
  */
  lemma LateCharNoOccurrence(hay: string, needle: string, k: nat)
    requires k < |needle|
    requires forall i :: k <= i < |hay| ==> hay[i] != needle[k]
    ensures forall j :: !OccursAt(hay, needle, j)
  {
    forall j ensures !OccursAt(hay, needle, j) {
      if 0 <= j && j + |needle| <= |hay| {
        assert hay[j..j + |needle|][k] == hay[j + k];
      }
    }
  }

  /** A string in which the separator occurs nowhere splits into itself alone. */
  lemma SplitNone(s: string, sep: string)
    requires |sep| > 0
    requires forall j :: !OccursAt(s, sep, j)
    ensures Split(s, sep) == [s]
  {
  }

  /** No character of `s` from index `k` on equals `sep[k]`: `s` splits into itself alone. */
  lemma SplitLateChar(s: string, sep: string, k: nat)
    requires k < |sep|
    requires forall i :: k <= i < |s| ==> s[i] != sep[k]
    ensures Split(s, sep) == [s]
  {
    LateCharNoOccurrence(s, sep, k);
    SplitNone(s, sep);
  }

  /** Two pieces free of the separator's second character split back into those two pieces. */
  lemma SplitPairSecondChar(d: string, sep: string, rest: string)
    requires |sep| >= 2 && sep[0] != sep[1] && sep[1] !in d && sep[1] !in rest
    ensures Split(d + sep + rest, sep) == [d, rest]
  {
    SplitAtSecondChar(d, sep, rest);
    SplitWithout(rest, sep, sep[1]);
  }

  /** Two leading pieces free of the separator's first character are cut off one after the other. */
  lemma SplitTwoFirstChar(x: string, y: string, sep: string, rest: string)
    requires |sep| > 0 && sep[0] !in x && sep[0] !in y
    ensures Split(x + sep + (y + sep + rest), sep) == [x, y] + Split(rest, sep)
  {
    SplitAtFirstChar(x, sep, y + sep + rest);
    SplitAtFirstChar(y, sep, rest);
  }

  /** A string lacking a character of the separator splits into itself alone. */
  lemma SplitWithout(s: string, sep: string, c: char)
    requires c in sep && c !in s
    ensures Split(s, sep) == [s]
  {
    MissingCharNoOccurrence(s, sep, c);
  }

  predicate IsDigit(c: char) {
    '0' <= c <= '9'
  }

  predicate AllDigits(s: string) {
    forall i :: 0 <= i < |s| ==> IsDigit(s[i])
  }

  function DigitChar(d: int): char
    requires 0 <= d < 10
  {
    ('0' as int + d) as char
  }

  function DigitValue(c: char): int
    requires IsDigit(c)
  {
    c as int - '0' as int
  }

  /** Decimal digits of a natural number, most significant first, without leading zeros. */
  function NatToString(n: nat): (r: string)
    ensures |r| >= 1 && AllDigits(r)
    decreases n
  {
    if n < 10 then [DigitChar(n)] else NatToString(n / 10) + [DigitChar(n % 10)]
  }

  /** QString::arg(int): decimal text with a leading '-' for negative values. */
  function IntToString(n: int): string {
    if n < 0 then "-" + NatToString(-n) else NatToString(n)
  }

  /** Value of a string of decimal digits. */
  function DigitsValue(s: string): nat
    requires AllDigits(s)
  {
    if |s| == 0 then 0 else DigitsValue(s[..|s| - 1]) * 10 + DigitValue(s[|s| - 1])
  }

  /**
    QChar::isSpace: the Unicode separators (Zs, Zl, Zp) and the control
    characters tab, line feed, vertical tab, form feed, carriage return and
    next line.
  */
  predicate IsSpace(c: char) {
    var n := c as int;
    n == 0x20 || 0x09 <= n <= 0x0D || n == 0x85 || n == 0xA0 || n == 0x1680
    || 0x2000 <= n <= 0x200A || n == 0x2028 || n == 0x2029 || n == 0x202F
    || n == 0x205F || n == 0x3000
  }

  /** `s` without its leading white space. */
  function TrimStart(s: string): (r: string)
    ensures |r| <= |s| && r == s[|s| - |r|..]
    ensures |r| > 0 ==> !IsSpace(r[0])
    ensures forall i :: 0 <= i < |s| - |r| ==> IsSpace(s[i])
  {
    if |s| > 0 && IsSpace(s[0]) then TrimStart(s[1..]) else s
  }

  /** `s` without its trailing white space. */
  function TrimEnd(s: string): (r: string)
    ensures |r| <= |s| && r == s[..|r|]
    ensures |r| > 0 ==> !IsSpace(r[|r| - 1])
    ensures forall i :: |r| <= i < |s| ==> IsSpace(s[i])
  {
    if |s| > 0 && IsSpace(s[|s| - 1]) then TrimEnd(s[..|s| - 1]) else s
  }

  /** QString::trimmed: white space removed from both ends. */
  function Trim(s: string): string {
    TrimEnd(TrimStart(s))
  }

  /** The number a sign and decimal digits spell, or 0 for any other text. */
  function ParseDigits(s: string): int {
    if |s| >= 2 && s[0] == '-' && AllDigits(s[1..]) then -(DigitsValue(s[1..]) as int)
    else if |s| >= 2 && s[0] == '+' && AllDigits(s[1..]) then DigitsValue(s[1..])
    else if |s| >= 1 && AllDigits(s) then DigitsValue(s)
    else 0
  }

  /**
    QString::toInt in base 10: white space around the number is skipped, and
    what is left must be an optional sign followed by at least one digit; any
    other text is a failed conversion, which yields 0.
  */
  function ParseInt(s: string): int {
    ParseDigits(Trim(s))
  }

  /** A text that neither starts nor ends with white space is its own trimmed form. */
  lemma TrimNoSpace(s: string)
    requires |s| > 0 ==> !IsSpace(s[0]) && !IsSpace(s[|s| - 1])
    ensures Trim(s) == s
  {
  }

  /** White space after a text is dropped by trimming. */
  lemma {:induction false} TrimStartSpaceAfter(s: string, c: char)
    requires IsSpace(c)
    ensures TrimStart(s) == [] ==> TrimStart(s + [c]) == []
    ensures TrimStart(s) != [] ==> TrimStart(s + [c]) == TrimStart(s) + [c]
    decreases |s|
  {
    if |s| > 0 && IsSpace(s[0]) {
      assert (s + [c])[1..] == s[1..] + [c];
      TrimStartSpaceAfter(s[1..], c);
    }
  }

  /** White space on either side of a text does not change the number it reads as. */
  lemma ParseIntSurroundingSpace(s: string, c: char)
    requires IsSpace(c)
    ensures ParseInt([c] + s) == ParseInt(s)
    ensures ParseInt(s + [c]) == ParseInt(s)
  {
    assert ([c] + s)[1..] == s;
    TrimStartSpaceAfter(s, c);
    var u := TrimStart(s);
    if u != [] {
      assert (u + [c])[..|u|] == u;
    }
  }

  lemma {:induction false} NatToStringValue(n: nat)
    ensures DigitsValue(NatToString(n)) == n
    decreases n
  {
    if n >= 10 {
      NatToStringValue(n / 10);
      var s := NatToString(n / 10) + [DigitChar(n % 10)];
      assert s[..|s| - 1] == NatToString(n / 10);
    }
  }

  /** Integer text read back by `ParseInt` gives the integer that was written. */
  lemma ParseIntRoundTrip(n: int)
    ensures ParseInt(IntToString(n)) == n
  {
    IntToStringTrimmed(n);
    ParseDigitsRoundTrip(n);
  }

  /** Integer text, untrimmed, read back as a sign and digits gives the integer. */
  lemma ParseDigitsRoundTrip(n: int)
    ensures ParseDigits(IntToString(n)) == n
  {
    var s := IntToString(n);
    if n < 0 {
      assert s[1..] == NatToString(-n);
      NatToStringValue(-n);
    } else {
      NatToStringValue(n);
    }
  }

  /** Integer text carries no white space at its ends. */
  lemma IntToStringTrimmed(n: int)
    ensures |IntToString(n)| > 0 && !IsSpace(IntToString(n)[|IntToString(n)| - 1])
    ensures Trim(IntToString(n)) == IntToString(n)
  {
    var s := IntToString(n);
    IntToStringChars(n);
    assert !IsSpace(s[0]) && !IsSpace(s[|s| - 1]);
    TrimNoSpace(s);
  }

  /** Text without white space at its ends and with a non-digit after its first character reads as 0. */
  lemma ParseIntNonDigit(s: string, k: nat)
    requires |s| > 0 && !IsSpace(s[0]) && !IsSpace(s[|s| - 1])
    requires 0 < k < |s| && !IsDigit(s[k])
    ensures ParseInt(s) == 0
  {
    TrimNoSpace(s);
    assert s[1..][k - 1] == s[k];
  }

  /** Integer text consists of digits and possibly a minus sign only. */
  lemma IntToStringChars(n: int)
    ensures forall i :: 0 <= i < |IntToString(n)| ==> IsDigit(IntToString(n)[i]) || IntToString(n)[i] == '-'
  {
  }
}
