/**
 * The string operations the scraper takes from Python's `str`: `strip`,
 * `startswith`, the substring test `in`, `split` and `join` on one separator,
 * and the decimal rendering of an `int` inside an f-string.
 */
module Text {

  /** The characters for which Python 3's `str.isspace` holds: what `str.strip()` removes. */
  predicate IsSpace(c: char)
  {
    || ('\t' <= c <= '\r')
    || ('\U{1C}' <= c <= ' ')
    || c == '\U{85}' || c == '\U{A0}' || c == '\U{1680}'
    || ('\U{2000}' <= c <= '\U{200A}')
    || c == '\U{2028}' || c == '\U{2029}' || c == '\U{202F}' || c == '\U{205F}'
    || c == '\U{3000}'
  }

  predicate AllSpace(s: string)
  {
    forall k :: 0 <= k < |s| ==> IsSpace(s[k])
  }

  /** `s.lstrip()`. */
  function TrimStart(s: string): string
  {
    if s != [] && IsSpace(s[0]) then TrimStart(s[1..]) else s
  }

  /** `s.rstrip()`. */
  function TrimEnd(s: string): string
  {
    if s != [] && IsSpace(s[|s| - 1]) then TrimEnd(s[..|s| - 1]) else s
  }

  /** `s.strip()`. */
  function Trim(s: string): string
  {
    TrimEnd(TrimStart(s))
  }

  /** `lstrip` drops the leading whitespace and nothing else. */
  lemma {:induction false} TrimStartDropsLeadingSpace(s: string)
    ensures var r := TrimStart(s);
      && |r| <= |s| && r == s[|s| - |r|..]
      && AllSpace(s[..|s| - |r|])
      && (r == [] || !IsSpace(r[0]))
  {
    if s != [] && IsSpace(s[0]) {
      TrimStartDropsLeadingSpace(s[1..]);
      var r := TrimStart(s);
      assert s[..|s| - |r|] == [s[0]] + s[1..][..|s| - 1 - |r|];
    }
  }

  /** `rstrip` drops the trailing whitespace and nothing else. */
  lemma {:induction false} TrimEndDropsTrailingSpace(s: string)
    ensures var r := TrimEnd(s);
      && |r| <= |s| && r == s[..|r|]
      && AllSpace(s[|r|..])
      && (r == [] || !IsSpace(r[|r| - 1]))
  {
    if s != [] && IsSpace(s[|s| - 1]) {
      TrimEndDropsTrailingSpace(s[..|s| - 1]);
      var r := TrimEnd(s);
      assert s[|r|..] == s[..|s| - 1][|r|..] + [s[|s| - 1]];
    }
  }

  /**
   * `strip` leaves neither end of the text as whitespace, keeps a run of the
   * original, and gives the empty string exactly when the text is all whitespace.
   */
  lemma TrimSpec(s: string)
    ensures var r := Trim(s);
      && |r| <= |s|
      && (r == [] || (!IsSpace(r[0]) && !IsSpace(r[|r| - 1])))
      && (r == [] <==> AllSpace(s))
      && exists i, j :: 0 <= i <= j <= |s| && r == s[i..j] && AllSpace(s[..i]) && AllSpace(s[j..])
  {
    var t := TrimStart(s);
    var r := TrimEnd(t);
    TrimStartDropsLeadingSpace(s);
    TrimEndDropsTrailingSpace(t);
    var i := |s| - |t|;
    var j := i + |r|;
    assert s[i..j] == t[..|r|] == r;
    assert s[j..] == t[|r|..];
    assert r != [] ==> r[0] == t[0];
    assert t == [] ==> s == s[..|s|];
    assert t != [] ==> !AllSpace(s) by {
      if t != [] {
        assert s[|s| - |t|] == t[0];
      }
    }
  }

  /** `s.startswith(p)`. */
  predicate StartsWith(s: string, p: string)
  {
    |p| <= |s| && s[..|p|] == p
  }

  /** `pat` occurs in `s` starting at index `i`. */
  predicate OccursAt(s: string, pat: string, i: int)
  {
    0 <= i && i + |pat| <= |s| && s[i..i + |pat|] == pat
  }

  /** Python's substring test `pat in s`. */
  function Contains(s: string, pat: string): (r: bool)
    ensures r <==> exists i :: OccursAt(s, pat, i)
    decreases |s|
  {
    if |s| < |pat| then
      assert forall i :: !OccursAt(s, pat, i);
      false
    else if s[..|pat|] == pat then
      assert OccursAt(s, pat, 0);
      true
    else
      var r := Contains(s[1..], pat);
      assert forall i :: OccursAt(s[1..], pat, i) ==> OccursAt(s, pat, i + 1) by {
        forall i | OccursAt(s[1..], pat, i) ensures OccursAt(s, pat, i + 1) {
          assert s[1..][i..i + |pat|] == s[i + 1..i + 1 + |pat|];
        }
      }
      assert forall i :: OccursAt(s, pat, i) ==> i >= 1 && OccursAt(s[1..], pat, i - 1) by {
        forall i | OccursAt(s, pat, i) ensures i >= 1 && OccursAt(s[1..], pat, i - 1) {
          assert s[1..][i - 1..i - 1 + |pat|] == s[i..i + |pat|];
        }
      }
      r
  }

  /** `sep.join(parts)` for a one-character separator. */
  function Join(parts: seq<string>, sep: char): string
  {
    if parts == [] then []
    else if |parts| == 1 then parts[0]
    else parts[0] + [sep] + Join(parts[1..], sep)
  }

  /**
   * `s.split(sep)` for a one-character separator: at least one part, no part
   * holds the separator, and joining the parts gives `s` back.
   */
  function Split(s: string, sep: char): (parts: seq<string>)
    ensures |parts| >= 1
    ensures forall i :: 0 <= i < |parts| ==> sep !in parts[i]
    ensures Join(parts, sep) == s
  {
    if s == [] then [[]]
    else
      var rest := Split(s[1..], sep);
      if s[0] == sep then
        [[]] + rest
      else
        assert [s[0]] + rest[0] + [sep] + Join(rest[1..], sep) == [s[0]] + (rest[0] + [sep] + Join(rest[1..], sep));
        [[s[0]] + rest[0]] + rest[1..]
  }

  /** A piece without the separator, then the separator, splits into that piece and the split of the remainder. */
  lemma {:induction false} SplitAfterPiece(a: string, b: string, sep: char)
    requires sep !in a
    ensures Split(a + [sep] + b, sep) == [a] + Split(b, sep)
  {
    if a == [] {
      assert a + [sep] + b == [sep] + b;
      assert ([sep] + b)[1..] == b;
    } else {
      SplitAfterPiece(a[1..], b, sep);
      assert (a + [sep] + b)[1..] == a[1..] + [sep] + b;
      assert [a[0]] + a[1..] == a;
    }
  }

  /** A string without the separator splits into itself alone. */
  lemma {:induction false} SplitOfPiece(a: string, sep: char)
    requires sep !in a
    ensures Split(a, sep) == [a]
  {
    if a != [] {
      SplitOfPiece(a[1..], sep);
      assert [a[0]] + a[1..] == a;
    }
  }

  /** The other half of the round trip: splitting a join of separator-free parts gives the parts back. */
  lemma {:induction false} SplitOfJoin(parts: seq<string>, sep: char)
    requires |parts| >= 1
    requires forall i :: 0 <= i < |parts| ==> sep !in parts[i]
    ensures Split(Join(parts, sep), sep) == parts
  {
    if |parts| == 1 {
      SplitOfPiece(parts[0], sep);
    } else {
      SplitOfJoin(parts[1..], sep);
      SplitAfterPiece(parts[0], Join(parts[1..], sep), sep);
      assert [parts[0]] + parts[1..] == parts;
    }
  }

  /** Joining two non-empty runs of parts puts one separator between their joins. */
  lemma {:induction false} JoinConcat(a: seq<string>, b: seq<string>, sep: char)
    requires a != [] && b != []
    ensures Join(a + b, sep) == Join(a, sep) + [sep] + Join(b, sep)
  {
    if |a| > 1 {
      JoinConcat(a[1..], b, sep);
      assert (a + b)[1..] == a[1..] + b;
    } else {
      assert (a + b)[1..] == b;
    }
  }

  function DigitChar(d: int): char
    requires 0 <= d < 10
  {
    (48 + d) as char
  }

  /** The decimal rendering of `n`, as `str(n)` or `f"{n}"` gives it. */
  function Decimal(n: int): string
    decreases if n < 0 then 1 - n else n
  {
    if n < 0 then "-" + Decimal(-n)
    else if n < 10 then [DigitChar(n)]
    else Decimal(n / 10) + [DigitChar(n % 10)]
  }
}
