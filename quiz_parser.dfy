/**
  The response parser of `QuizGenerator._parse_quiz`: it turns the free text
  returned by the generation service into the four quiz sections question,
  hint, answer and explanation.

  The parser reads the text line by line with a "current section, or none"
  state. A stripped line that contains a header marker of some section
  switches to that section and is dropped; any other non-empty stripped line
  is appended, followed by a newline, to the current section (or dropped
  while there is none). Finally every section is stripped.

  `Run` states that scan as a fold over the lines, `Parse` is the whole
  parser as a function, and the method `ParseQuiz` is the loop of the source,
  proved equal to `Parse`. Properties of `Parse` are proved in
  quiz_parser_proofs.dfy.
 */
module QuizParser {
  import opened Wrappers
  import opened Text

  /** The four keys of the result: 'question', 'hint', 'answer', 'explanation'. */
  datatype Section = Question | Hint | Answer | Explanation

  /** The order in which the header tests are made (and the dict's key order). */
  function Rank(s: Section): nat
  {
    match s
    case Question => 0
    case Hint => 1
    case Answer => 2
    case Explanation => 3
  }

  /** The keys in the dict's order. */
  const SectionOrder: seq<Section> := [Question, Hint, Answer, Explanation]

  /** The header spellings recognised for each section, with half-width and
      full-width colons and in bracketed form. */
  const QuestionMarkers: seq<string> := ["問題文:", "問題：", "【問題】", "問題:"]
  const HintMarkers: seq<string> := ["ヒント:", "ヒント：", "【ヒント】"]
  const AnswerMarkers: seq<string> := ["模範解答:", "模範解答：", "解答:", "【解答】", "【模範解答】", "解答："]
  const ExplanationMarkers: seq<string> := ["解説:", "解説：", "【解説】"]

  function Markers(s: Section): seq<string>
  {
    match s
    case Question => QuestionMarkers
    case Hint => HintMarkers
    case Answer => AnswerMarkers
    case Explanation => ExplanationMarkers
  }

  /** `line` contains (as a substring) one of the header markers of `s`. */
  predicate HasMarker(line: string, s: Section)
  {
    ContainsAny(line, Markers(s))
  }

  /** The header test of one stripped line: the first section, in the order
      question, hint, answer, explanation, one of whose markers the line
      contains; None when it contains no marker at all. */
  function Classify(line: string): (r: Option<Section>)
    ensures r.None? <==> forall s :: !HasMarker(line, s)
    ensures r.Some? ==> HasMarker(line, r.value)
    ensures r.Some? ==> forall t :: Rank(t) < Rank(r.value) ==> !HasMarker(line, t)
  {
    if HasMarker(line, Question) then Some(Question)
    else if HasMarker(line, Hint) then Some(Hint)
    else if HasMarker(line, Answer) then Some(Answer)
    else if HasMarker(line, Explanation) then Some(Explanation)
    else None
  }

  /** One input line as the loop sees it: stripped, with the result of the
      header test on the stripped text. */
  datatype ScannedLine = ScannedLine(text: string, header: Option<Section>)

  /** `line.strip()` and the header test on the stripped line. */
  function Scan(raw: string): (r: ScannedLine)
    ensures IsStripped(r.text) && |r.text| <= |raw|
  {
    var line := Strip(raw);
    ScannedLine(line, Classify(line))
  }

  /** `f` applied to every element of `xs`, in order. */
  function Map<A, B>(f: A -> B, xs: seq<A>): (r: seq<B>)
    ensures |r| == |xs|
    ensures forall i :: 0 <= i < |xs| ==> r[i] == f(xs[i])
  {
    seq(|xs|, i requires 0 <= i < |xs| => f(xs[i]))
  }

  /** Every line of the input, scanned. */
  function ScanAll(lines: seq<string>): (r: seq<ScannedLine>)
    ensures |r| == |lines|
  {
    Map(Scan, lines)
  }

  /** The `sections` dict of the source. Its keys are always exactly the four
      sections, so it is a record with one text per section. */
  datatype Sections = Sections(question: string, hint: string, answer: string, explanation: string)
  {
    /** `sections[s]` */
    function Get(s: Section): string
    {
      match s
      case Question => question
      case Hint => hint
      case Answer => answer
      case Explanation => explanation
    }

    /** `sections[s] = v`: section `s` now holds `v`, the others are unchanged. */
    function With(s: Section, v: string): (r: Sections)
      ensures r.Get(s) == v
      ensures forall t :: t != s ==> r.Get(t) == Get(t)
    {
      match s
      case Question => this.(question := v)
      case Hint => this.(hint := v)
      case Answer => this.(answer := v)
      case Explanation => this.(explanation := v)
    }
  }

  /** The dict the parser starts from: every section "". */
  const NoSections: Sections := Sections("", "", "", "")

  /** The scanner's state: the current section, or none, and the `sections` dict. */
  datatype ParseState = ParseState(current: Option<Section>, sections: Sections)

  /** Before the first line. */
  const Initial: ParseState := ParseState(None, NoSections)

  /** One iteration of the loop: a header line switches the current section
      and is dropped; another non-empty line is appended, with a newline, to
      the current section if there is one. A step that ends with no current
      section changes nothing. */
  function Step(st: ParseState, line: ScannedLine): (r: ParseState)
    ensures r.current.None? ==> r == st
  {
    match line.header
    case Some(s) => ParseState(Some(s), st.sections)
    case None =>
      if st.current.Some? && line.text != "" then
        var key := st.current.value;
        ParseState(st.current, st.sections.With(key, st.sections.Get(key) + line.text + "\n"))
      else
        st
  }

  /** The loop as a left fold over the scanned lines, written from the last
      line back. As long as no section is current, nothing has been
      collected. */
  function Run(lines: seq<ScannedLine>): (r: ParseState)
    ensures r.current.None? ==> r.sections == NoSections
  {
    if |lines| == 0 then Initial
    else Step(Run(lines[..|lines| - 1]), lines[|lines| - 1])
  }

  /** One more iteration of the loop is one more `Step`. */
  lemma RunExtend(lines: seq<ScannedLine>, i: nat)
    requires i < |lines|
    ensures Run(lines[..i + 1]) == Step(Run(lines[..i]), lines[i])
  {
    assert lines[..i + 1][..i] == lines[..i];
  }

  /** The final pass that strips every section: no value keeps whitespace
      at either end. */
  function StripAll(raw: Sections): (r: Sections)
    ensures IsStripped(r.question) && IsStripped(r.hint) && IsStripped(r.answer) && IsStripped(r.explanation)
  {
    Sections(Strip(raw.question), Strip(raw.hint), Strip(raw.answer), Strip(raw.explanation))
  }

  /** The parser on a list of lines. */
  function ParseLines(lines: seq<string>): Sections
  {
    StripAll(Run(ScanAll(lines)).sections)
  }

  /** `_parse_quiz(text)`. */
  function Parse(text: string): Sections
  {
    ParseLines(SplitLines(text))
  }

  /** The parsing loop of the source, on a `sections` dict and a
      `current_section` variable, followed by the loop that strips every
      value; it computes exactly `Parse(text)`. */
  method ParseQuiz(text: string) returns (sections: Sections)
    ensures sections == Parse(text)
  {
    sections := NoSections;
    var current: Option<Section> := None;
    var lines := SplitLines(text);
    ghost var scanned := ScanAll(lines);
    for i := 0 to |lines|
      invariant ParseState(current, sections) == Run(scanned[..i])
    {
      RunExtend(scanned, i);
      var line := Strip(lines[i]);
      assert scanned[i] == ScannedLine(line, Classify(line));
      if HasMarker(line, Question) {
        assert Classify(line) == Some(Question);
        current := Some(Question);
        continue;
      } else if HasMarker(line, Hint) {
        assert Classify(line) == Some(Hint);
        current := Some(Hint);
        continue;
      } else if HasMarker(line, Answer) {
        assert Classify(line) == Some(Answer);
        current := Some(Answer);
        continue;
      } else if HasMarker(line, Explanation) {
        assert Classify(line) == Some(Explanation);
        current := Some(Explanation);
        continue;
      }
      assert Classify(line) == None;
      if current.Some? && line != "" {
        sections := sections.With(current.value, sections.Get(current.value) + line + "\n");
      }
    }
    assert scanned[..|lines|] == scanned;
    sections := StripSections(sections);
  }

  /** The closing loop of the parser, which replaces every value of the
      `sections` dict by its stripped form. */
  method StripSections(raw: Sections) returns (sections: Sections)
    ensures sections == StripAll(raw)
  {
    sections := raw;
    for k := 0 to |SectionOrder|
      invariant sections.question == if 0 < k then Strip(raw.question) else raw.question
      invariant sections.hint == if 1 < k then Strip(raw.hint) else raw.hint
      invariant sections.answer == if 2 < k then Strip(raw.answer) else raw.answer
      invariant sections.explanation == if 3 < k then Strip(raw.explanation) else raw.explanation
    {
      var key := SectionOrder[k];
      sections := sections.With(key, Strip(sections.Get(key)));
    }
  }
}
