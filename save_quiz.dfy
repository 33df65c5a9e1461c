/**
  The name of the file `save_quiz_to_file` writes a quiz to:
  `<output_dir>/quiz_<timestamp>_<company name>.json`. The timestamp is the
  wall-clock time formatted as `%Y%m%d_%H%M%S`. Full-width parentheses are
  removed from the company name first.

  The clock reading is a parameter. Creating the directory and writing the
  JSON are not modelled.
 */
module SaveQuiz {
  import opened QuizParser

  /** FULLWIDTH LEFT PARENTHESIS and FULLWIDTH RIGHT PARENTHESIS. */
  const FullWidthOpen: char := '\U{FF08}'
  const FullWidthClose: char := '\U{FF09}'

  /** The directory used when the caller names none. */
  const DefaultOutputDir: string := "output"

  /** `s.replace(c, '')`: `s` without any occurrence of `c`. */
  function RemoveChar(s: string, c: char): (r: string)
    ensures c !in r
    ensures |r| <= |s|
    ensures forall d :: d != c ==> multiset(r)[d] == multiset(s)[d]
  {
    if s == [] then []
    else
      assert s == [s[0]] + s[1..];
      (if s[0] == c then [] else [s[0]]) + RemoveChar(s[1..], c)
  }

  /** Removing a character works piece by piece: the other characters keep
      their order. */
  lemma {:induction false} RemoveCharConcat(a: string, b: string, c: char)
    ensures RemoveChar(a + b, c) == RemoveChar(a, c) + RemoveChar(b, c)
  {
    if a != [] {
      assert (a + b)[1..] == a[1..] + b;
      RemoveCharConcat(a[1..], b, c);
    } else {
      assert a + b == b;
    }
  }

  /** A string without `c` is left as it is. */
  lemma {:induction false} RemoveAbsentChar(s: string, c: char)
    requires c !in s
    ensures RemoveChar(s, c) == s
  {
    if s != [] {
      RemoveAbsentChar(s[1..], c);
    }
  }

  /** The company name as it appears in the file name: both full-width
      parentheses removed, every other character (ASCII parentheses
      included) kept, as often as before. */
  function SanitizeCompanyName(name: string): (r: string)
    ensures FullWidthOpen !in r && FullWidthClose !in r
    ensures forall d :: d != FullWidthOpen && d != FullWidthClose ==> multiset(r)[d] == multiset(name)[d]
  {
    var inner := RemoveChar(name, FullWidthOpen);
    assert multiset(inner)[FullWidthOpen] == 0;
    RemoveChar(inner, FullWidthClose)
  }

  /** Sanitising keeps the order of what it keeps: it maps a concatenation
      to the concatenation of the sanitised parts. */
  lemma SanitizeConcat(a: string, b: string)
    ensures SanitizeCompanyName(a + b) == SanitizeCompanyName(a) + SanitizeCompanyName(b)
  {
    RemoveCharConcat(a, b, FullWidthOpen);
    RemoveCharConcat(RemoveChar(a, FullWidthOpen), RemoveChar(b, FullWidthOpen), FullWidthClose);
  }

  /** A name without full-width parentheses is kept exactly. */
  lemma SanitizeClean(name: string)
    requires FullWidthOpen !in name && FullWidthClose !in name
    ensures SanitizeCompanyName(name) == name
  {
    RemoveAbsentChar(name, FullWidthOpen);
    RemoveAbsentChar(name, FullWidthClose);
  }

  /** Sanitising twice is sanitising once. */
  lemma SanitizeIdempotent(name: string)
    ensures SanitizeCompanyName(SanitizeCompanyName(name)) == SanitizeCompanyName(name)
  {
    SanitizeClean(SanitizeCompanyName(name));
  }

  /** A reading of `datetime.now()`: the wall-clock fields down to the
      microsecond, and `fold`, which tells apart the two passes through a
      local hour repeated when the clock is set back. */
  datatype DateTime = DateTime(year: int, month: int, day: int, hour: int, minute: int, second: int,
                               microsecond: int, fold: int)

  /** The readings a `datetime` can hold, restricted to four-digit years. */
  predicate ValidDateTime(t: DateTime)
  {
    1000 <= t.year <= 9999 && 1 <= t.month <= 12 && 1 <= t.day <= 31 &&
    0 <= t.hour <= 23 && 0 <= t.minute <= 59 && 0 <= t.second <= 59 &&
    0 <= t.microsecond <= 999999 && 0 <= t.fold <= 1
  }

  /** The reading cut down to the fields `%Y%m%d_%H%M%S` shows: the
      microsecond and the fold are dropped. */
  function WholeSecond(t: DateTime): DateTime
  {
    t.(microsecond := 0, fold := 0)
  }

  function Pow10(n: nat): nat
  {
    if n == 0 then 1 else 10 * Pow10(n - 1)
  }

  /** The decimal digit character for `d`. */
  function Digit(d: int): char
    requires 0 <= d <= 9
  {
    (48 + d) as char
  }

  /** Every character of `s` is one of '0' to '9'. */
  predicate IsDigits(s: string)
  {
    forall i :: 0 <= i < |s| ==> '0' <= s[i] <= '9'
  }

  lemma DigitsConcat(a: string, b: string)
    requires IsDigits(a) && IsDigits(b)
    ensures IsDigits(a + b)
  {
  }

  /** The number a string of decimal digits spells, most significant first:
      how the fields of a timestamp are read back. */
  function DecimalValue(s: string): int
  {
    if s == [] then 0 else 10 * DecimalValue(s[..|s| - 1]) + (s[|s| - 1] as int - 48)
  }

  /** The last `width` decimal digits of `n`, zero-padded on the left, as
      `strftime` writes a field; for `n` below 10^width, reading them back
      gives `n`. */
  function Decimal(n: nat, width: nat): (r: string)
    ensures |r| == width
    ensures IsDigits(r)
    ensures n < Pow10(width) ==> DecimalValue(r) == n
  {
    if width == 0 then []
    else
      var r := Decimal(n / 10, width - 1) + [Digit(n % 10)];
      assert r[..width - 1] == Decimal(n / 10, width - 1);
      r
  }

  /** `t.strftime('%Y%m%d_%H%M%S')`. */
  function FormatTimestamp(t: DateTime): (r: string)
    requires ValidDateTime(t)
    ensures |r| == 15 && r[8] == '_'
  {
    Decimal(t.year, 4) + Decimal(t.month, 2) + Decimal(t.day, 2) + "_" +
    Decimal(t.hour, 2) + Decimal(t.minute, 2) + Decimal(t.second, 2)
  }

  /** Where the six fields of `%Y%m%d_%H%M%S` sit. */
  lemma StampPieces(y: string, mo: string, d: string, h: string, mi: string, sec: string)
    requires |y| == 4 && |mo| == 2 && |d| == 2 && |h| == 2 && |mi| == 2 && |sec| == 2
    ensures var r := y + mo + d + "_" + h + mi + sec;
      r[..8] == y + mo + d && r[9..] == h + mi + sec &&
      r[0..4] == y && r[4..6] == mo && r[6..8] == d &&
      r[9..11] == h && r[11..13] == mi && r[13..15] == sec
  {
    var r := y + mo + d + "_" + h + mi + sec;
    assert r[..8] == y + mo + d;
    assert r[9..] == h + mi + sec;
  }

  /** The timestamp is eight digits, '_' and six digits; read back, the
      digits give the year, month, day, hour, minute and second of `t`. */
  lemma FormatTimestampFields(t: DateTime)
    requires ValidDateTime(t)
    ensures IsDigits(FormatTimestamp(t)[..8]) && IsDigits(FormatTimestamp(t)[9..])
    ensures DecimalValue(FormatTimestamp(t)[0..4]) == t.year
    ensures DecimalValue(FormatTimestamp(t)[4..6]) == t.month
    ensures DecimalValue(FormatTimestamp(t)[6..8]) == t.day
    ensures DecimalValue(FormatTimestamp(t)[9..11]) == t.hour
    ensures DecimalValue(FormatTimestamp(t)[11..13]) == t.minute
    ensures DecimalValue(FormatTimestamp(t)[13..15]) == t.second
  {
    assert Pow10(2) == 100 && Pow10(4) == 10000;
    var y, mo, d := Decimal(t.year, 4), Decimal(t.month, 2), Decimal(t.day, 2);
    var h, mi, sec := Decimal(t.hour, 2), Decimal(t.minute, 2), Decimal(t.second, 2);
    StampPieces(y, mo, d, h, mi, sec);
    DigitsConcat(y, mo);
    DigitsConcat(y + mo, d);
    DigitsConcat(h, mi);
    DigitsConcat(h + mi, sec);
  }

  /** Two readings give the same timestamp exactly when they fall in the
      same second: the microsecond and the fold are lost. */
  lemma FormatTimestampInjective(t1: DateTime, t2: DateTime)
    requires ValidDateTime(t1) && ValidDateTime(t2)
    ensures FormatTimestamp(t1) == FormatTimestamp(t2) <==> WholeSecond(t1) == WholeSecond(t2)
  {
    var r1 := FormatTimestamp(t1);
    var r2 := FormatTimestamp(t2);
    if r1 == r2 {
      FormatTimestampFields(t1);
      FormatTimestampFields(t2);
      assert t1.year == t2.year && t1.month == t2.month && t1.day == t2.day;
      assert t1.hour == t2.hour && t1.minute == t2.minute && t1.second == t2.second;
    }
  }

  /** The `company` entry a generated quiz carries. */
  datatype QuizCompany = QuizCompany(name: string, industry: string, fiscalPeriod: string)

  /** A generated quiz: the parsed sections and the company it is about. */
  datatype Quiz = Quiz(sections: Sections, company: QuizCompany)

  /** Where the pieces of `head + stamp + "_" + name + ".json"` sit. */
  lemma NamePieces(head: string, stamp: string, name: string)
    ensures var f := head + stamp + "_" + name + ".json";
      f[..|head|] == head && f[|head|..|head| + |stamp|] == stamp && f[|head| + |stamp|] == '_' &&
      f[|head| + |stamp| + 1..|f| - 5] == name && f[|f| - 5..] == ".json"
  {
  }

  /** The path `save_quiz_to_file(quiz, outputDir)` writes to at clock reading
      `now`, and returns: `outputDir`, then "/quiz_", the timestamp, "_", the
      sanitised company name and ".json". */
  function SaveQuizToFile(quiz: Quiz, now: DateTime, outputDir: string := DefaultOutputDir): (filename: string)
    requires ValidDateTime(now)
    ensures |filename| == |outputDir| + 27 + |SanitizeCompanyName(quiz.company.name)|
    ensures filename[..|outputDir| + 6] == outputDir + "/quiz_"
    ensures filename[|outputDir| + 6..|outputDir| + 21] == FormatTimestamp(now)
    ensures filename[|outputDir| + 21] == '_'
    ensures filename[|outputDir| + 22..|filename| - 5] == SanitizeCompanyName(quiz.company.name)
    ensures filename[|filename| - 5..] == ".json"
  {
    var head, stamp, name := outputDir + "/quiz_", FormatTimestamp(now), SanitizeCompanyName(quiz.company.name);
    NamePieces(head, stamp, name);
    head + stamp + "_" + name + ".json"
  }

  /** Two saves in different seconds use different files, whatever the
      quizzes and the directory. */
  lemma DistinctTimesDistinctFiles(q1: Quiz, q2: Quiz, outputDir: string, t1: DateTime, t2: DateTime)
    requires ValidDateTime(t1) && ValidDateTime(t2) && WholeSecond(t1) != WholeSecond(t2)
    ensures SaveQuizToFile(q1, t1, outputDir) != SaveQuizToFile(q2, t2, outputDir)
  {
    var f1 := SaveQuizToFile(q1, t1, outputDir);
    var f2 := SaveQuizToFile(q2, t2, outputDir);
    FormatTimestampInjective(t1, t2);
    assert f1[|outputDir| + 6..|outputDir| + 21] != f2[|outputDir| + 6..|outputDir| + 21];
  }

  /** Two saves within the same second, of companies whose names agree once
      sanitised, use the same file, so the second write replaces the first
      quiz. */
  lemma SameSecondSameFile(q1: Quiz, q2: Quiz, outputDir: string, t1: DateTime, t2: DateTime)
    requires ValidDateTime(t1) && ValidDateTime(t2) && WholeSecond(t1) == WholeSecond(t2)
    requires SanitizeCompanyName(q1.company.name) == SanitizeCompanyName(q2.company.name)
    ensures SaveQuizToFile(q1, t1, outputDir) == SaveQuizToFile(q2, t2, outputDir)
  {
    FormatTimestampInjective(t1, t2);
  }

  /** A full-width bracketed part, as in "トヨタ自動車（株）", loses its
      brackets and keeps its text: `x（y）` becomes `xy`. */
  lemma SanitizeBracketed(x: string, y: string)
    requires FullWidthOpen !in x && FullWidthClose !in x
    requires FullWidthOpen !in y && FullWidthClose !in y
    ensures SanitizeCompanyName(x + [FullWidthOpen] + y + [FullWidthClose]) == x + y
  {
    var withOpen := x + [FullWidthOpen];
    var withY := withOpen + y;
    assert SanitizeCompanyName([FullWidthOpen]) == [] && SanitizeCompanyName([FullWidthClose]) == [];
    assert SanitizeCompanyName(withOpen) == x by {
      SanitizeConcat(x, [FullWidthOpen]);
      SanitizeClean(x);
    }
    assert SanitizeCompanyName(withY) == x + y by {
      SanitizeConcat(withOpen, y);
      SanitizeClean(y);
    }
    SanitizeConcat(withY, [FullWidthClose]);
  }
}
