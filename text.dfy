/**
  The three Python string operations the quiz parser relies on, on `string`
  (a sequence of Unicode characters):
  - `str.strip()` with no argument, which removes leading and trailing
    whitespace as `str.isspace()` defines it;
  - `str.split('\n')`, which cuts at every newline and keeps empty pieces;
  - `needle in haystack`, substring containment;
  and `"\n".join`, the inverse of the split, used to state results.
 */
module Text {

  /** The characters for which Python's `str.isspace()` holds: the ones
      `str.strip()` removes (ASCII controls 9-13 and 28-31, the space, NEL,
      NO-BREAK SPACE and the Unicode space separators, up to the
      ideographic space U+3000). */
  predicate IsSpace(c: char)
  {
    ('\U{9}' <= c <= '\U{D}') || ('\U{1C}' <= c <= '\U{1F}') || c == ' ' ||
    c == '\U{85}' || c == '\U{A0}' || c == '\U{1680}' ||
    ('\U{2000}' <= c <= '\U{200A}') || c == '\U{2028}' || c == '\U{2029}' ||
    c == '\U{202F}' || c == '\U{205F}' || c == '\U{3000}'
  }

  predicate AllSpace(s: string)
  {
    forall i :: 0 <= i < |s| ==> IsSpace(s[i])
  }

  /** A string that `str.strip()` leaves as it is: empty, or neither its first
      nor its last character is whitespace. */
  predicate IsStripped(s: string)
  {
    s == [] || (!IsSpace(s[0]) && !IsSpace(s[|s| - 1]))
  }

  /** `str.lstrip()`: drops whitespace from the front. */
  function TrimStart(s: string): string
  {
    if s != [] && IsSpace(s[0]) then TrimStart(s[1..]) else s
  }

  /** `str.lstrip()` keeps the longest suffix of `s` that does not start with
      whitespace: what it drops is whitespace only. */
  lemma {:induction false} TrimStartSpec(s: string)
    ensures |TrimStart(s)| <= |s|
    ensures TrimStart(s) == s[|s| - |TrimStart(s)|..]
    ensures AllSpace(s[..|s| - |TrimStart(s)|])
    ensures TrimStart(s) == [] || !IsSpace(TrimStart(s)[0])
  {
    if s != [] && IsSpace(s[0]) {
      var t := s[1..];
      TrimStartSpec(t);
      var k := |s| - |TrimStart(t)|;
      assert t[k - 1..] == s[k..];
      forall i | 0 <= i < k
        ensures IsSpace(s[..k][i])
      {
        if i > 0 {
          assert s[..k][i] == t[..k - 1][i - 1];
        }
      }
    }
  }

  /** `str.rstrip()`: drops whitespace from the back. */
  function TrimEnd(s: string): string
  {
    if s != [] && IsSpace(s[|s| - 1]) then TrimEnd(s[..|s| - 1]) else s
  }

  /** `str.rstrip()` keeps the longest prefix of `s` that does not end with
      whitespace: what it drops is whitespace only. */
  lemma {:induction false} TrimEndSpec(s: string)
    ensures |TrimEnd(s)| <= |s|
    ensures TrimEnd(s) == s[..|TrimEnd(s)|]
    ensures AllSpace(s[|TrimEnd(s)|..])
    ensures TrimEnd(s) == [] || !IsSpace(TrimEnd(s)[|TrimEnd(s)| - 1])
  {
    if s != [] && IsSpace(s[|s| - 1]) {
      var t := s[..|s| - 1];
      TrimEndSpec(t);
      var k := |TrimEnd(t)|;
      assert t[..k] == s[..k];
      forall i | 0 <= i < |s| - k
        ensures IsSpace(s[k..][i])
      {
        if i < |s| - 1 - k {
          assert s[k..][i] == t[k..][i];
        }
      }
    }
  }

  /** `str.strip()`: `s` without its whitespace margins; the result has no
      whitespace at either end and is no longer than `s`. */
  function Strip(s: string): (r: string)
    ensures IsStripped(r)
    ensures |r| <= |s|
  {
    TrimStartSpec(s);
    TrimEndSpec(TrimStart(s));
    TrimEnd(TrimStart(s))
  }

  /** What `str.strip()` cuts away is whitespace on both sides: `s` is some
      whitespace, then `Strip(s)`, then some whitespace. */
  lemma StripMargins(s: string)
    ensures exists i :: Framed(s, Strip(s), i)
  {
    var t := TrimStart(s);
    var r := TrimEnd(t);
    TrimStartSpec(s);
    TrimEndSpec(t);
    var i := |s| - |t|;
    assert r == s[i..i + |r|] by { assert t == s[i..]; }
    assert AllSpace(s[i + |r|..]) by { assert s[i + |r|..] == t[|r|..]; }
    assert r == Strip(s);
    assert Framed(s, r, i);
  }

  /** `s` is `core` with whitespace-only text of length `i` before it and
      whitespace-only text after it. */
  ghost predicate Framed(s: string, core: string, i: int)
  {
    0 <= i <= |s| - |core| && s[i..i + |core|] == core &&
    AllSpace(s[..i]) && AllSpace(s[i + |core|..])
  }

  /** Stripping a string that has no whitespace margins changes nothing, so
      `str.strip()` is idempotent. */
  lemma StripStripped(s: string)
    requires IsStripped(s)
    ensures Strip(s) == s
  {
  }

  /** `"\n".join(ls)`. */
  function JoinLines(ls: seq<string>): string
  {
    if |ls| == 0 then ""
    else if |ls| == 1 then ls[0]
    else ls[0] + "\n" + JoinLines(ls[1..])
  }

  /** `s.split('\n')`: the pieces of `s` between newlines, empty ones included. */
  function SplitLines(s: string): (r: seq<string>)
    ensures |r| >= 1
  {
    if s == [] then [[]]
    else
      var rest := SplitLines(s[1..]);
      if s[0] == '\n' then [[]] + rest
      else [[s[0]] + rest[0]] + rest[1..]
  }

  /** No piece of `s.split('\n')` holds a newline, and joining the pieces
      with newlines gives `s` back. */
  lemma {:induction false} SplitLinesSpec(s: string)
    ensures forall i :: 0 <= i < |SplitLines(s)| ==> '\n' !in SplitLines(s)[i]
    ensures JoinLines(SplitLines(s)) == s
  {
    if s != [] {
      var rest := SplitLines(s[1..]);
      SplitLinesSpec(s[1..]);
      assert s == [s[0]] + s[1..];
      if s[0] != '\n' {
        if |rest| > 1 {
          assert JoinLines(rest) == rest[0] + "\n" + JoinLines(rest[1..]);
        }
      }
    }
  }

  /** `needle in haystack` for strings: "" is in every string, and only a
      string at least as long can contain `needle`. */
  function Contains(haystack: string, needle: string): (r: bool)
    ensures needle == [] ==> r
    ensures r ==> |needle| <= |haystack|
  {
    |needle| <= |haystack| &&
    (haystack[..|needle|] == needle || Contains(haystack[1..], needle))
  }

  /** `needles[0] in s or needles[1] in s or ...` */
  function ContainsAny(s: string, needles: seq<string>): bool
  {
    |needles| > 0 && (Contains(s, needles[0]) || ContainsAny(s, needles[1..]))
  }

  /** The `or`-chain holds exactly when one of the needles occurs in `s`. */
  lemma {:induction false} ContainsAnySpec(s: string, needles: seq<string>)
    ensures ContainsAny(s, needles) <==> exists i :: 0 <= i < |needles| && Contains(s, needles[i])
  {
    if |needles| > 0 {
      ContainsAnySpec(s, needles[1..]);
      if ContainsAny(s, needles[1..]) && !Contains(s, needles[0]) {
        var i :| 0 <= i < |needles| - 1 && Contains(s, needles[1..][i]);
        assert Contains(s, needles[i + 1]);
      }
      if exists i :: 0 <= i < |needles| && Contains(s, needles[i]) {
        var i :| 0 <= i < |needles| && Contains(s, needles[i]);
        if i > 0 {
          assert Contains(s, needles[1..][i - 1]);
        }
      }
    }
  }

  /** `haystack` can only contain `needle` if it is at least as long. */
  lemma ContainsLength(haystack: string, needle: string)
    requires Contains(haystack, needle)
    ensures |needle| <= |haystack|
  {
  }

  /** A non-empty needle without a newline cannot straddle a newline: if it
      occurs in `a + "\n" + b`, it occurs in `a` or in `b`. */
  lemma {:induction false} ContainsAcrossNewline(a: string, b: string, needle: string)
    requires needle != [] && '\n' !in needle
    requires Contains(a + "\n" + b, needle)
    ensures Contains(a, needle) || Contains(b, needle)
  {
    var s := a + "\n" + b;
    if s[..|needle|] == needle {
      assert |needle| <= |a| by {
        assert s[|a|] == '\n';
      }
      assert a[..|needle|] == needle;
    } else if a == [] {
      assert s[1..] == b;
    } else {
      assert s[1..] == a[1..] + "\n" + b;
      ContainsAcrossNewline(a[1..], b, needle);
      if Contains(a[1..], needle) {
        ContainsLength(a[1..], needle);
      }
    }
  }

  /** A needle of that kind occurs in a newline-joined text only if it occurs
      in one of the joined lines. */
  lemma {:induction false} ContainsInJoin(ls: seq<string>, needle: string)
    requires needle != [] && '\n' !in needle
    requires Contains(JoinLines(ls), needle)
    ensures exists k :: 0 <= k < |ls| && Contains(ls[k], needle)
  {
    if |ls| == 0 {
      assert false;
    } else if |ls| == 1 {
      assert Contains(ls[0], needle);
    } else {
      ContainsAcrossNewline(ls[0], JoinLines(ls[1..]), needle);
      if !Contains(ls[0], needle) {
        ContainsInJoin(ls[1..], needle);
        var k :| 0 <= k < |ls| - 1 && Contains(ls[1..][k], needle);
        assert Contains(ls[k + 1], needle);
      }
    }
  }

  /** Splitting a newline-free line followed by a newline yields that line
      and then the pieces of the rest. */
  lemma {:induction false} SplitAfterLine(x: string, t: string)
    requires '\n' !in x
    ensures SplitLines(x + "\n" + t) == [x] + SplitLines(t)
  {
    if x == [] {
      assert (x + "\n" + t)[1..] == t;
    } else {
      assert (x + "\n" + t)[1..] == x[1..] + "\n" + t;
      SplitAfterLine(x[1..], t);
      assert [x[0]] + x[1..] == x;
    }
  }

  /** A newline-free string splits into itself. */
  lemma {:induction false} SplitSingleLine(x: string)
    requires '\n' !in x
    ensures SplitLines(x) == [x]
  {
    if x != [] {
      SplitSingleLine(x[1..]);
      assert [x[0]] + x[1..] == x;
    }
  }

  /** `s.split('\n')` undoes `"\n".join(ls)` when no line holds a newline. */
  lemma {:induction false} SplitJoinLines(ls: seq<string>)
    requires |ls| >= 1
    requires forall k :: 0 <= k < |ls| ==> '\n' !in ls[k]
    ensures SplitLines(JoinLines(ls)) == ls
  {
    if |ls| == 1 {
      SplitSingleLine(ls[0]);
    } else {
      SplitAfterLine(ls[0], JoinLines(ls[1..]));
      SplitJoinLines(ls[1..]);
    }
  }

  /** Joining lines that are each non-empty and stripped gives a stripped text. */
  lemma {:induction false} JoinLinesStripped(ls: seq<string>)
    requires forall k :: 0 <= k < |ls| ==> ls[k] != [] && IsStripped(ls[k])
    ensures IsStripped(JoinLines(ls))
    ensures JoinLines(ls) == [] <==> ls == []
  {
    if |ls| > 1 {
      JoinLinesStripped(ls[1..]);
    }
  }

  /** `"\n".join(ls + [x]) == "\n".join(ls) + "\n" + x` for non-empty `ls`. */
  lemma {:induction false} JoinLinesSnoc(ls: seq<string>, x: string)
    requires ls != []
    ensures JoinLines(ls + [x]) == JoinLines(ls) + "\n" + x
  {
    if |ls| > 1 {
      assert (ls + [x])[1..] == ls[1..] + [x];
      JoinLinesSnoc(ls[1..], x);
    }
  }

  /** Stripping a stripped, non-empty text with one trailing newline gives the text. */
  lemma StripTrailingNewline(x: string)
    requires x != [] && IsStripped(x)
    ensures Strip(x + "\n") == x
  {
    var y := x + "\n";
    assert TrimStart(y) == y;
    assert y[..|y| - 1] == x;
    assert TrimEnd(y) == TrimEnd(x);
  }

  /** A needle found in a prefix of `s` is found in `s`. */
  lemma {:induction false} ContainsInPrefix(s: string, k: nat, needle: string)
    requires k <= |s| && Contains(s[..k], needle)
    ensures Contains(s, needle)
  {
    if s[..k][..|needle|] != needle {
      assert s[..k][1..] == s[1..][..k - 1];
      ContainsInPrefix(s[1..], k - 1, needle);
    }
  }

  /** A needle found in a suffix of `s` is found in `s`. */
  lemma {:induction false} ContainsInSuffix(s: string, k: nat, needle: string)
    requires k <= |s| && Contains(s[k..], needle)
    ensures Contains(s, needle)
  {
    if k > 0 {
      assert s[k..] == s[1..][k - 1..];
      ContainsInSuffix(s[1..], k - 1, needle);
      ContainsLength(s[1..], needle);
    } else {
      assert s[k..] == s;
    }
  }

  /** A needle found in the stripped string is found in the string. */
  lemma ContainsInStripped(s: string, needle: string)
    ensures Contains(Strip(s), needle) ==> Contains(s, needle)
  {
    if Contains(Strip(s), needle) {
      StripMargins(s);
      var i :| Framed(s, Strip(s), i);
      assert Strip(s) == s[i..][..|Strip(s)|];
      ContainsInPrefix(s[i..], |Strip(s)|, needle);
      ContainsInSuffix(s, i, needle);
    }
  }
}
