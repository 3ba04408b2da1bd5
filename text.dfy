/**
 * The .NET string operations the resolver relies on: `String.Trim()`,
 * `String.Split(char)`, `String.Join(string, list)` and the decimal rendering
 * of an `int`, each with the properties the rest of the model needs.
 */
module Text {

  /** The characters `Char.IsWhiteSpace` accepts, which `String.Trim()` strips. */
  predicate IsWhiteSpace(c: char) {
    var n := c as int;
    (0x09 <= n <= 0x0D) || n == 0x20 || n == 0x85 || n == 0xA0 || n == 0x1680
    || (0x2000 <= n <= 0x200A) || n == 0x2028 || n == 0x2029 || n == 0x202F
    || n == 0x205F || n == 0x3000
  }

  /** The first index at or after `i` that does not hold white space, or `|s|`. */
  function SkipWhiteSpace(s: string, i: nat): (k: nat)
    requires i <= |s|
    ensures i <= k <= |s| && (k < |s| ==> !IsWhiteSpace(s[k]))
    decreases |s| - i
  {
    if i < |s| && IsWhiteSpace(s[i]) then SkipWhiteSpace(s, i + 1) else i
  }

  /** Everything `SkipWhiteSpace` passes over is white space. */
  lemma {:induction false} SkipWhiteSpacePassesWhite(s: string, i: nat)
    requires i <= |s|
    ensures forall m :: i <= m < SkipWhiteSpace(s, i) ==> IsWhiteSpace(s[m])
    decreases |s| - i
  {
    if i < |s| && IsWhiteSpace(s[i]) {
      SkipWhiteSpacePassesWhite(s, i + 1);
    }
  }

  /** The last end index at or before `j`, and not below `lo`, that does not follow white space. */
  function BackOverWhiteSpace(s: string, lo: nat, j: nat): (k: nat)
    requires lo <= j <= |s|
    ensures lo <= k <= j && (lo < k ==> !IsWhiteSpace(s[k - 1]))
    decreases j
  {
    if lo < j && IsWhiteSpace(s[j - 1]) then BackOverWhiteSpace(s, lo, j - 1) else j
  }

  /** Everything `BackOverWhiteSpace` passes over is white space. */
  lemma {:induction false} BackOverWhiteSpacePassesWhite(s: string, lo: nat, j: nat)
    requires lo <= j <= |s|
    ensures forall m :: BackOverWhiteSpace(s, lo, j) <= m < j ==> IsWhiteSpace(s[m])
    decreases j
  {
    if lo < j && IsWhiteSpace(s[j - 1]) {
      BackOverWhiteSpacePassesWhite(s, lo, j - 1);
    }
  }

  /** `String.Trim()`: white space is removed from both ends, so neither end of the result is white. */
  function Trim(s: string): (r: string)
    ensures |r| <= |s|
    ensures r == [] || (!IsWhiteSpace(r[0]) && !IsWhiteSpace(r[|r| - 1]))
  {
    var lo := SkipWhiteSpace(s, 0);
    s[lo..BackOverWhiteSpace(s, lo, |s|)]
  }

  /**
   * What `Trim` keeps is one slice of `s`, and everything before and after
   * that slice is white space.
   */
  lemma TrimSlice(s: string)
    ensures var lo := SkipWhiteSpace(s, 0);
      lo + |Trim(s)| <= |s| && Trim(s) == s[lo..lo + |Trim(s)|]
      && (forall i :: 0 <= i < lo ==> IsWhiteSpace(s[i]))
      && (forall i :: lo + |Trim(s)| <= i < |s| ==> IsWhiteSpace(s[i]))
  {
    var lo := SkipWhiteSpace(s, 0);
    SkipWhiteSpacePassesWhite(s, 0);
    BackOverWhiteSpacePassesWhite(s, lo, |s|);
  }

  /** A string with no white space at either end is its own trim. */
  lemma TrimOfTrimmed(s: string)
    requires s == [] || (!IsWhiteSpace(s[0]) && !IsWhiteSpace(s[|s| - 1]))
    ensures Trim(s) == s
  {
  }

  /** Trimming twice is trimming once. */
  lemma TrimIdempotent(s: string)
    ensures Trim(Trim(s)) == Trim(s)
  {
    TrimOfTrimmed(Trim(s));
  }

  /** The number of occurrences of `c` in `s`. */
  function Count(s: string, c: char): nat
    decreases |s|
  {
    if s == [] then 0 else Count(s[..|s| - 1], c) + (if s[|s| - 1] == c then 1 else 0)
  }

  lemma {:induction false} CountZero(s: string, c: char)
    ensures Count(s, c) == 0 <==> c !in s
    decreases |s|
  {
    if s != [] {
      CountZero(s[..|s| - 1], c);
      assert s == s[..|s| - 1] + [s[|s| - 1]];
    }
  }

  /**
   * `String.Split(c)`: the pieces of `s` between occurrences of `c`, in order.
   * There is one more piece than there are separators, and no piece holds one;
   * empty pieces are kept.
   */
  function Split(s: string, c: char): (r: seq<string>)
    ensures |r| == Count(s, c) + 1
    ensures forall i :: 0 <= i < |r| ==> c !in r[i]
    decreases |s|
  {
    if s == [] then [""]
    else
      var p := Split(s[..|s| - 1], c);
      if s[|s| - 1] == c then p + [""]
      else p[..|p| - 1] + [p[|p| - 1] + [s[|s| - 1]]]
  }

  /** `String.Join(sep, parts)`: the parts in order with `sep` between neighbours. */
  function Join(sep: string, parts: seq<string>): string
    decreases |parts|
  {
    if |parts| == 0 then ""
    else if |parts| == 1 then parts[0]
    else Join(sep, parts[..|parts| - 1]) + sep + parts[|parts| - 1]
  }

  /** Joining one more part adds the separator and that part at the end. */
  lemma JoinSnoc(sep: string, parts: seq<string>, x: string)
    requires |parts| >= 1
    ensures Join(sep, parts + [x]) == Join(sep, parts) + sep + x
  {
    assert (parts + [x])[..|parts|] == parts;
  }

  /** A character in neither the separator nor any part is not in the join. */
  lemma {:induction false} JoinAvoids(sep: string, parts: seq<string>, c: char)
    requires c !in sep
    requires forall i :: 0 <= i < |parts| ==> c !in parts[i]
    ensures c !in Join(sep, parts)
    decreases |parts|
  {
    if |parts| > 1 {
      var init := parts[..|parts| - 1];
      JoinAvoids(sep, init, c);
      assert init + [parts[|parts| - 1]] == parts;
      JoinSnoc(sep, init, parts[|parts| - 1]);
    }
  }

  /** Appending text to the last part appends it to the joined string. */
  lemma JoinExtendLast(sep: string, parts: seq<string>, y: string)
    requires |parts| >= 1
    ensures Join(sep, parts[..|parts| - 1] + [parts[|parts| - 1] + y]) == Join(sep, parts) + y
  {
    var init := parts[..|parts| - 1];
    if |parts| > 1 {
      JoinSnoc(sep, init, parts[|parts| - 1] + y);
    }
  }

  /** The separator is irrelevant when there are fewer than two parts. */
  lemma JoinShort(sep1: string, sep2: string, parts: seq<string>)
    requires |parts| <= 1
    ensures Join(sep1, parts) == Join(sep2, parts)
  {
  }

  /** Joining the pieces of a split with the separator gives the string back. */
  lemma {:induction false} JoinSplit(s: string, c: char)
    ensures Join([c], Split(s, c)) == s
    decreases |s|
  {
    if s != [] {
      var init, last := s[..|s| - 1], s[|s| - 1];
      var p := Split(init, c);
      JoinSplit(init, c);
      assert s == init + [last];
      if last == c {
        JoinSnoc([c], p, "");
      } else {
        JoinExtendLast([c], p, [last]);
      }
    }
  }

  /** One more character either starts a new piece (the separator) or extends the last one. */
  lemma SplitSnoc(s: string, ch: char, c: char)
    ensures var p := Split(s, c);
      Split(s + [ch], c) == if ch == c then p + [""] else p[..|p| - 1] + [p[|p| - 1] + [ch]]
  {
    assert (s + [ch])[..|s + [ch]| - 1] == s;
  }

  /** Extending the last piece twice is extending it once by both. */
  lemma ExtendLastPiece(p: seq<string>, y: string, ch: char)
    requires |p| >= 1
    ensures var q := p[..|p| - 1] + [p[|p| - 1] + y];
      q[..|q| - 1] + [q[|q| - 1] + [ch]] == p[..|p| - 1] + [p[|p| - 1] + (y + [ch])]
  {
    var q := p[..|p| - 1] + [p[|p| - 1] + y];
    assert q[..|q| - 1] == p[..|p| - 1];
    assert q[|q| - 1] + [ch] == p[|p| - 1] + (y + [ch]);
  }

  /** Appending text free of the separator extends the last piece only. */
  lemma {:induction false} SplitAppendNoSep(s: string, x: string, c: char)
    requires forall i :: 0 <= i < |x| ==> x[i] != c
    ensures var p := Split(s, c); Split(s + x, c) == p[..|p| - 1] + [p[|p| - 1] + x]
    decreases |x|
  {
    if x == [] {
      assert s + x == s;
      var p := Split(s, c);
      assert p[|p| - 1] + x == p[|p| - 1];
      assert p[..|p| - 1] + [p[|p| - 1]] == p;
    } else {
      var x0, last := x[..|x| - 1], x[|x| - 1];
      assert x == x0 + [last];
      assert s + x == (s + x0) + [last];
      SplitAppendNoSep(s, x0, c);
      SplitSnoc(s + x0, last, c);
      ExtendLastPiece(Split(s, c), x0, last);
    }
  }

  /** A string without the separator is a single piece. */
  lemma SplitNoSep(s: string, c: char)
    requires c !in s
    ensures Split(s, c) == [s]
  {
    assert forall i :: 0 <= i < |s| ==> s[i] != c;
    SplitAppendNoSep("", s, c);
    assert "" + s == s;
  }

  /** Splitting a join of separator-free parts gives the parts back. */
  lemma {:induction false} SplitJoin(parts: seq<string>, c: char)
    requires |parts| >= 1
    requires forall i :: 0 <= i < |parts| ==> c !in parts[i]
    ensures Split(Join([c], parts), c) == parts
    decreases |parts|
  {
    if |parts| == 1 {
      SplitNoSep(parts[0], c);
    } else {
      var init, last := parts[..|parts| - 1], parts[|parts| - 1];
      assert init + [last] == parts;
      assert forall i :: 0 <= i < |init| ==> init[i] == parts[i];
      SplitJoin(init, c);
      var j := Join([c], init);
      SplitSnoc(j, c, c);
      assert forall i :: 0 <= i < |last| ==> last[i] != c;
      SplitAppendNoSep(j + [c], last, c);
      JoinSnoc([c], init, last);
      FillEmptyLast(init, last);
    }
  }

  /** Extending an empty last piece replaces it. */
  lemma FillEmptyLast(init: seq<string>, last: string)
    ensures var p := init + [""]; p[..|p| - 1] + [p[|p| - 1] + last] == init + [last]
  {
    var p := init + [""];
    assert p[..|p| - 1] == init;
    assert p[|p| - 1] + last == last;
  }

  /** The character of a decimal digit. */
  function DigitChar(d: nat): (c: char)
    requires d < 10
    ensures '0' <= c <= '9' && c as int - '0' as int == d
  {
    (('0' as int) + d) as char
  }

  /** `Int32.ToString()` for a non-negative value: its decimal digits, most significant first. */
  function NatToString(n: nat): (r: string)
    ensures |r| >= 1 && '0' <= r[0] <= '9'
    ensures r[0] == '0' ==> n == 0
    decreases n
  {
    if n < 10 then [DigitChar(n)] else NatToString(n / 10) + [DigitChar(n % 10)]
  }

  /** A rendered natural number is decimal digits only. */
  lemma {:induction false} NatToStringDigits(n: nat)
    ensures forall i :: 0 <= i < |NatToString(n)| ==> '0' <= NatToString(n)[i] <= '9'
    decreases n
  {
    if n >= 10 {
      NatToStringDigits(n / 10);
    }
  }

  /** The value a string of decimal digits denotes, each character counted by its distance from '0'. */
  function DigitsValue(s: string): int
    decreases |s|
  {
    if s == [] then 0
    else DigitsValue(s[..|s| - 1]) * 10 + (s[|s| - 1] as int - '0' as int)
  }

  /** Reading the rendered digits back gives the number: the rendering loses nothing. */
  lemma {:induction false} NatToStringRoundTrip(n: nat)
    ensures DigitsValue(NatToString(n)) == n
    decreases n
  {
    if n >= 10 {
      NatToStringRoundTrip(n / 10);
      var r := NatToString(n);
      assert r[..|r| - 1] == NatToString(n / 10);
    }
  }

  /** `Int32.ToString()`: a minus sign exactly for negative values, then the digits of the magnitude. */
  function IntToString(n: int): (r: string)
    ensures |r| >= 1 && (r[0] == '-' <==> n < 0)
  {
    if n < 0 then "-" + NatToString(-n) else NatToString(n)
  }

  /** After the sign, a rendered integer is decimal digits that read back to its magnitude. */
  lemma IntToStringDigits(n: int)
    ensures var r, start := IntToString(n), if n < 0 then 1 else 0;
      start < |r| && (forall i :: start <= i < |r| ==> '0' <= r[i] <= '9')
      && DigitsValue(r[start..]) == (if n < 0 then -n else n)
  {
    var magnitude := if n < 0 then -n else n;
    NatToStringDigits(magnitude);
    NatToStringRoundTrip(magnitude);
    var r := IntToString(n);
    if n < 0 {
      assert r[1..] == NatToString(magnitude);
    } else {
      assert r[0..] == r;
    }
  }

  /** A rendered integer holds only a sign and digits, so no comma, quote or line break. */
  lemma IntToStringPlain(n: int)
    ensures ',' !in IntToString(n) && '"' !in IntToString(n) && '\n' !in IntToString(n)
  {
    var r := IntToString(n);
    IntToStringDigits(n);
    assert forall i :: 0 <= i < |r| ==> r[i] == '-' || '0' <= r[i] <= '9';
  }
}
