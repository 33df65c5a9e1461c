/**
  What `_parse_quiz` promises, proved about the fold `Run` and the parser
  `Parse` of module QuizParser.

  The reference definition is `Collected(ls, s)`: the stripped, non-empty,
  non-header lines whose most recent header line (`LastHeader` of the lines
  before them) belongs to section `s`, in input order. The central theorem
  `ParseCollects` says every value of the result is those lines joined by
  single newlines; the other lemmas follow from it or from the fold.
 */
module QuizParserProofs {
  import opened Wrappers
  import opened Text
  import opened QuizParser

  /** The section of the last header line among `ls`; None if no line is a header. */
  function LastHeader(ls: seq<ScannedLine>): Option<Section>
  {
    if |ls| == 0 then None
    else if ls[|ls| - 1].header.Some? then ls[|ls| - 1].header
    else LastHeader(ls[..|ls| - 1])
  }

  /** A line that is copied into the open section: not a header and not blank. */
  predicate IsContent(l: ScannedLine)
  {
    l.header.None? && l.text != ""
  }

  /** The content lines that follow a header of `s` up to the next header
      line, in input order. */
  function Collected(ls: seq<ScannedLine>, s: Section): seq<string>
  {
    if |ls| == 0 then []
    else
      var prefix := ls[..|ls| - 1];
      var last := ls[|ls| - 1];
      Collected(prefix, s) + (if IsContent(last) && LastHeader(prefix) == Some(s) then [last.text] else [])
  }

  /** No line of `ls` is a header line. */
  ghost predicate NoHeader(ls: seq<ScannedLine>)
  {
    forall j :: 0 <= j < |ls| ==> ls[j].header.None?
  }

  /** Line `j` is a header line and no header line follows it. */
  ghost predicate IsLastHeaderLine(ls: seq<ScannedLine>, j: int)
  {
    0 <= j < |ls| && ls[j].header.Some? &&
    forall k :: j < k < |ls| ==> ls[k].header.None?
  }

  /** `LastHeader` is None exactly when no line is a header. */
  lemma {:induction false} LastHeaderNone(ls: seq<ScannedLine>)
    ensures LastHeader(ls).None? <==> NoHeader(ls)
  {
    if |ls| > 0 {
      var prefix := ls[..|ls| - 1];
      LastHeaderNone(prefix);
    }
  }

  /** Otherwise it is the section of the header line after which no header
      line follows. */
  lemma {:induction false} LastHeaderSome(ls: seq<ScannedLine>)
    requires LastHeader(ls).Some?
    ensures exists j :: IsLastHeaderLine(ls, j) && ls[j].header == LastHeader(ls)
  {
    var n := |ls| - 1;
    if ls[n].header.Some? {
      assert IsLastHeaderLine(ls, n);
    } else {
      var prefix := ls[..n];
      LastHeaderSome(prefix);
      var j :| IsLastHeaderLine(prefix, j) && prefix[j].header == LastHeader(prefix);
      assert IsLastHeaderLine(ls, j);
    }
  }

  /** The text the loop accumulates for a list of lines: each line followed by "\n". */
  function Terminated(ls: seq<string>): string
  {
    if ls == [] then "" else JoinLines(ls) + "\n"
  }

  lemma TerminatedSnoc(ls: seq<string>, x: string)
    ensures Terminated(ls + [x]) == Terminated(ls) + x + "\n"
  {
    if ls != [] {
      JoinLinesSnoc(ls, x);
    }
  }

  /** The current section of the loop is the section of the last header so far. */
  lemma {:induction false} RunCurrent(ls: seq<ScannedLine>)
    ensures Run(ls).current == LastHeader(ls)
  {
    if |ls| > 0 {
      RunCurrent(ls[..|ls| - 1]);
    }
  }

  /** The loop invariant: every section holds its collected lines, each
      followed by a newline. */
  lemma {:induction false} RunTracksCollected(ls: seq<ScannedLine>, s: Section)
    ensures Run(ls).sections.Get(s) == Terminated(Collected(ls, s))
  {
    if |ls| > 0 {
      var prefix := ls[..|ls| - 1];
      var last := ls[|ls| - 1];
      RunTracksCollected(prefix, s);
      RunCurrent(prefix);
      var st := Run(prefix);
      if IsContent(last) && LastHeader(prefix) == Some(s) {
        TerminatedSnoc(Collected(prefix, s), last.text);
      } else if IsContent(last) && st.current.Some? {
        assert Run(ls) == Step(st, last);
        assert Collected(ls, s) == Collected(prefix, s);
        assert Run(ls).sections == st.sections.With(st.current.value, st.sections.Get(st.current.value) + last.text + "\n");
        assert st.current.value != s;
      } else {
        assert Collected(ls, s) == Collected(prefix, s);
        assert Run(ls).sections == st.sections;
      }
    }
  }

  /** A line as the loop scans it: stripped, and its header is the header
      test on its text. */
  predicate WellScanned(l: ScannedLine)
  {
    IsStripped(l.text) && l.header == Classify(l.text)
  }

  /** Every collected line is the text of a well-scanned content line: non-empty,
      stripped, and with no header marker. */
  lemma {:induction false} CollectedLinesClean(ls: seq<ScannedLine>, s: Section)
    requires forall i :: 0 <= i < |ls| ==> WellScanned(ls[i])
    ensures forall k :: 0 <= k < |Collected(ls, s)| ==>
      Collected(ls, s)[k] != [] && IsStripped(Collected(ls, s)[k]) && Classify(Collected(ls, s)[k]).None?
    ensures (forall i :: 0 <= i < |ls| ==> '\n' !in ls[i].text) ==>
      forall k :: 0 <= k < |Collected(ls, s)| ==> '\n' !in Collected(ls, s)[k]
  {
    if |ls| > 0 {
      CollectedLinesClean(ls[..|ls| - 1], s);
    }
  }

  /** Stripping adds no character. */
  lemma StripKeepsCharacters(s: string)
    ensures forall c :: c in Strip(s) ==> c in s
  {
    var t := TrimStart(s);
    TrimStartSpec(s);
    TrimEndSpec(t);
    assert t == s[|s| - |t|..];
    assert Strip(s) == t[..|Strip(s)|];
  }

  /** Scanning yields well-scanned lines, without newlines if the input lines have none. */
  lemma ScanAllWellScanned(lines: seq<string>)
    ensures forall i :: 0 <= i < |lines| ==> WellScanned(ScanAll(lines)[i])
    ensures (forall i :: 0 <= i < |lines| ==> '\n' !in lines[i]) ==>
      forall i :: 0 <= i < |lines| ==> '\n' !in ScanAll(lines)[i].text
  {
    forall i | 0 <= i < |lines|
      ensures '\n' !in lines[i] ==> '\n' !in ScanAll(lines)[i].text
    {
      StripKeepsCharacters(lines[i]);
    }
  }

  /** Central theorem on lines: every section of the result is its collected
      lines joined by single newlines. */
  lemma ParseLinesCollects(lines: seq<string>, s: Section)
    ensures ParseLines(lines).Get(s) == JoinLines(Collected(ScanAll(lines), s))
  {
    var ls := ScanAll(lines);
    var c := Collected(ls, s);
    RunTracksCollected(ls, s);
    assert ParseLines(lines).Get(s) == Strip(Run(ls).sections.Get(s));
    ScanAllWellScanned(lines);
    CollectedLinesClean(ls, s);
    if c != [] {
      JoinLinesStripped(c);
      StripTrailingNewline(JoinLines(c));
    }
  }

  /** `_parse_quiz(text)[s]` is "\n".join of the stripped, non-empty lines of
      `text` that follow a header of `s` up to the next header, in input
      order; lines after a repeated header of `s` are added, not substituted. */
  lemma ParseCollects(text: string, s: Section)
    ensures Parse(text).Get(s) == JoinLines(Collected(ScanAll(SplitLines(text)), s))
  {
    ParseLinesCollects(SplitLines(text), s);
  }

  /** Every returned value is stripped; when it is not empty, its lines are
      exactly the collected lines, and each is non-empty and stripped. */
  lemma ParseValuesClean(text: string, s: Section)
    ensures IsStripped(Parse(text).Get(s))
    ensures Parse(text).Get(s) != [] ==>
      SplitLines(Parse(text).Get(s)) == Collected(ScanAll(SplitLines(text)), s) &&
      forall k :: 0 <= k < |SplitLines(Parse(text).Get(s))| ==>
        SplitLines(Parse(text).Get(s))[k] != [] && IsStripped(SplitLines(Parse(text).Get(s))[k])
  {
    var lines := SplitLines(text);
    var c := Collected(ScanAll(lines), s);
    ParseCollects(text, s);
    SplitLinesSpec(text);
    ScanAllWellScanned(lines);
    CollectedLinesClean(ScanAll(lines), s);
    JoinLinesStripped(c);
    if c != [] {
      SplitJoinLines(c);
    }
  }

  /** Every header marker is a non-empty text without a newline. */
  lemma MarkersSingleLine(t: Section, m: string)
    requires m in Markers(t)
    ensures m != [] && '\n' !in m
  {
  }

  /** No returned value contains any header marker as a substring. */
  lemma ParseValuesHaveNoMarker(text: string, s: Section, t: Section, m: string)
    requires m in Markers(t)
    ensures !Contains(Parse(text).Get(s), m)
  {
    var lines := SplitLines(text);
    var c := Collected(ScanAll(lines), s);
    var j :| 0 <= j < |Markers(t)| && Markers(t)[j] == m;
    ParseCollects(text, s);
    MarkersSingleLine(t, m);
    if Contains(JoinLines(c), m) {
      ContainsInJoin(c, m);
      var k :| 0 <= k < |c| && Contains(c[k], m);
      assert Classify(c[k]).None? by {
        ScanAllWellScanned(lines);
        CollectedLinesClean(ScanAll(lines), s);
      }
      ContainsAnySpec(c[k], Markers(t));
      assert false;
    }
  }

  /** Lines with no header leave the loop where it started. */
  lemma {:induction false} NoHeaderKeepsInitial(ls: seq<ScannedLine>)
    requires NoHeader(ls)
    ensures Run(ls) == Initial
  {
    if |ls| > 0 {
      NoHeaderKeepsInitial(ls[..|ls| - 1]);
    }
  }

  /** A line that contains no header marker is not a header line once stripped. */
  lemma NoMarkerNoHeader(raw: string)
    requires forall t :: !HasMarker(raw, t)
    ensures Scan(raw).header.None?
  {
    var line := Strip(raw);
    forall t
      ensures !HasMarker(line, t)
    {
      var ms := Markers(t);
      assert !HasMarker(raw, t);
      ContainsAnySpec(raw, ms);
      ContainsAnySpec(line, ms);
      forall i | 0 <= i < |ms|
        ensures !Contains(line, ms[i])
      {
        ContainsInStripped(raw, ms[i]);
      }
    }
    assert Classify(line).None?;
  }

  /** A text in which no line contains a header marker parses to four empty values. */
  lemma NoHeaderAllEmpty(text: string)
    requires forall i, t :: 0 <= i < |SplitLines(text)| ==> !HasMarker(SplitLines(text)[i], t)
    ensures Parse(text) == Sections("", "", "", "")
  {
    var lines := SplitLines(text);
    forall i | 0 <= i < |lines|
      ensures ScanAll(lines)[i].header.None?
    {
      NoMarkerNoHeader(lines[i]);
    }
    NoHeaderKeepsInitial(ScanAll(lines));
  }

  /** Mapping works element by element. */
  lemma MapConcat<A, B>(f: A -> B, a: seq<A>, b: seq<A>)
    ensures Map(f, a + b) == Map(f, a) + Map(f, b)
  {
  }

  /** Lines before the first header are dropped: a header-free prefix changes nothing. */
  lemma {:induction false} HeaderFreePrefixDropped(pre: seq<ScannedLine>, rest: seq<ScannedLine>)
    requires NoHeader(pre)
    ensures Run(pre + rest) == Run(rest)
  {
    if |rest| == 0 {
      assert pre + rest == pre;
      NoHeaderKeepsInitial(pre);
    } else {
      var front := rest[..|rest| - 1];
      HeaderFreePrefixDropped(pre, front);
      assert (pre + rest)[..|pre + rest| - 1] == pre + front;
    }
  }

  /** Hence the parse result ignores lines that come before the first header line. */
  lemma ParseIgnoresLinesBeforeFirstHeader(pre: seq<string>, rest: seq<string>)
    requires forall i :: 0 <= i < |pre| ==> Scan(pre[i]).header.None?
    ensures ParseLines(pre + rest) == ParseLines(rest)
  {
    MapConcat(Scan, pre, rest);
    HeaderFreePrefixDropped(ScanAll(pre), ScanAll(rest));
  }

  /** A header line is never copied: it switches the current section to its
      own and leaves every section's text as it was, even when text follows
      the marker on that line. */
  lemma HeaderLineSwitchesOnly(pre: seq<ScannedLine>, h: ScannedLine)
    requires h.header.Some?
    ensures Run(pre + [h]).current == h.header
    ensures Run(pre + [h]).sections == Run(pre).sections
  {
  }

  /** What the loop has collected for a section is never replaced by later
      lines, a repeated header included: they can only add to it. */
  lemma {:induction false} CollectedOnlyGrows(a: seq<ScannedLine>, b: seq<ScannedLine>, s: Section)
    ensures Collected(a, s) <= Collected(a + b, s)
  {
    if |b| > 0 {
      var front := b[..|b| - 1];
      CollectedOnlyGrows(a, front, s);
      assert (a + b)[..|a + b| - 1] == a + front;
    } else {
      assert a + b == a;
    }
  }

  /** Four header lines, one per section in order, each followed by one
      content line: each section is exactly its line. */
  lemma OneLinePerSectionScanned(hq: ScannedLine, q: ScannedLine, hh: ScannedLine, h: ScannedLine,
                          ha: ScannedLine, a: ScannedLine, he: ScannedLine, e: ScannedLine)
    requires hq.header == Some(Question) && hh.header == Some(Hint)
    requires ha.header == Some(Answer) && he.header == Some(Explanation)
    requires IsContent(q) && IsContent(h) && IsContent(a) && IsContent(e)
    ensures Run([hq, q, hh, h, ha, a, he, e]).sections ==
            Sections(q.text + "\n", h.text + "\n", a.text + "\n", e.text + "\n")
  {
    var ls := [hq, q, hh, h, ha, a, he, e];
    assert ls[..8] == ls;
    assert ls[..8][..7] == ls[..7];
    assert ls[..7][..6] == ls[..6];
    assert ls[..6][..5] == ls[..5];
    assert ls[..5][..4] == ls[..4];
    assert ls[..4][..3] == ls[..3];
    assert ls[..3][..2] == ls[..2];
    assert ls[..2][..1] == ls[..1];
    assert ls[..1][..0] == [];
    assert Run(ls[..1]) == ParseState(Some(Question), NoSections);
    assert Run(ls[..2]) == ParseState(Some(Question), Sections(q.text + "\n", "", "", ""));
    assert Run(ls[..3]) == ParseState(Some(Hint), Sections(q.text + "\n", "", "", ""));
    assert Run(ls[..4]) == ParseState(Some(Hint), Sections(q.text + "\n", h.text + "\n", "", ""));
    assert Run(ls[..5]) == ParseState(Some(Answer), Sections(q.text + "\n", h.text + "\n", "", ""));
    assert Run(ls[..6]) == ParseState(Some(Answer), Sections(q.text + "\n", h.text + "\n", a.text + "\n", ""));
    assert Run(ls[..7]) == ParseState(Some(Explanation), Sections(q.text + "\n", h.text + "\n", a.text + "\n", ""));
  }

  /** `Map` over a list of eight elements. */
  lemma MapEight<A, B>(f: A -> B, x0: A, x1: A, x2: A, x3: A, x4: A, x5: A, x6: A, x7: A)
    ensures Map(f, [x0, x1, x2, x3, x4, x5, x6, x7]) == [f(x0), f(x1), f(x2), f(x3), f(x4), f(x5), f(x6), f(x7)]
  {
  }

  /** The parser on four headers in order, each followed by one content
      line: each section is exactly its line, stripped. */
  lemma OneLinePerSection(hq: string, q: string, hh: string, h: string,
                          ha: string, a: string, he: string, e: string)
    requires Scan(hq).header == Some(Question) && Scan(hh).header == Some(Hint)
    requires Scan(ha).header == Some(Answer) && Scan(he).header == Some(Explanation)
    requires IsContent(Scan(q)) && IsContent(Scan(h)) && IsContent(Scan(a)) && IsContent(Scan(e))
    ensures ParseLines([hq, q, hh, h, ha, a, he, e]) == Sections(Strip(q), Strip(h), Strip(a), Strip(e))
  {
    var lines := [hq, q, hh, h, ha, a, he, e];
    var scanned := [Scan(hq), Scan(q), Scan(hh), Scan(h), Scan(ha), Scan(a), Scan(he), Scan(e)];
    MapEight(Scan, hq, q, hh, h, ha, a, he, e);
    OneLinePerSectionScanned(scanned[0], scanned[1], scanned[2], scanned[3],
                             scanned[4], scanned[5], scanned[6], scanned[7]);
    var raw := Run(scanned).sections;
    assert raw == Sections(Strip(q) + "\n", Strip(h) + "\n", Strip(a) + "\n", Strip(e) + "\n");
    StripTrailingNewline(Strip(q));
    StripTrailingNewline(Strip(h));
    StripTrailingNewline(Strip(a));
    StripTrailingNewline(Strip(e));
  }
}
