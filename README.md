# financial-quiz-dojo: the quiz parser, the company lookup and the quiz file name

financial-quiz-dojo builds a daily financial-literacy quiz about a listed
company. It picks a company record, asks a text-generation service for a
question, hint, model answer and explanation, parses the reply, and then
publishes the result or saves it to a JSON file. This project models the
three parts of that pipeline that hold logic, and proves what each promises:

- **The response parser** `QuizGenerator._parse_quiz`
  (`quiz_parser.dfy`, `quiz_parser_proofs.dfy`, `text.dfy`). The parser splits
  the reply into lines and strips each one. It keeps a "current section, or
  none" state. A line that contains one of the header markers of a section
  (for example `問題：`, `【ヒント】`, `模範解答:` or `解説：`) switches to that
  section and is dropped. Any other non-empty line is appended, with a
  newline, to the current section. Finally every section is stripped.
  - The Python loop is the method `ParseQuiz`. Its closing strip loop is
    `StripSections`.
  - `ParseQuiz` is proved equal to `Parse`, a left fold (`Run`) of one
    `Step` per line.
  - The properties of the parser are proved about `Parse`. The central
    one: each returned value is the "\n"-join of the collected lines of its
    section (`Collected`). These are the stripped, non-empty, non-header
    lines whose most recent header belongs to that section, in input order.
  - The Python string operations the parser relies on are modelled in
    `text.dfy`: `str.strip()`, `split('\n')`, `"\n".join` and `in`.
    `IsSpace` is the exact set of characters for which `str.isspace()`
    holds, including the ideographic space U+3000.
- **The company store** `CompanyDataLoader` (`data_loader.dfy`). It is a
  class whose `companies` field is set by the constructor. On it are:
  - a first-match search by code (`GetCompanyByCode`);
  - a pick of some record, or None for an empty list (`GetRandomCompany`);
  - the list itself (`GetAllCompanies`).
- **The file name of a saved quiz** in `save_quiz_to_file` (`save_quiz.dfy`):
  `<output_dir>/quiz_<YYYYMMDD_HHMMSS>_<company name>.json`. Full-width
  parentheses are removed from the company name first. The clock reading is
  a parameter.

The modules are `Wrappers` (Option), `Text`, `QuizParser`, `QuizParserProofs`,
`CompanyData` and `SaveQuiz`.

Three behaviours of the code worth knowing:
- A header followed by no non-empty line before the next header leaves that
  section "": `Collected` is then empty and `ParseCollects` gives "".
- Company codes are not checked for uniqueness. `GetCompanyByCode` returns
  the first match in list order.
- The file name shows the clock only to the second. Two saves within the
  same second, of companies whose names agree once sanitised, get the same
  name, and the second write replaces the first quiz
  (`SameSecondSameFile`).

## Model

| member | source | states |
|---|---|---|
| Text.IsSpace | quiz_generator_gemini.py:118 | the characters for which `str.isspace()` holds, which `strip()` removes: ASCII controls 9-13 and 28-31, the space, NEL, NO-BREAK SPACE and the Unicode space separators up to the ideographic space U+3000 |
| Text.TrimStart | quiz_generator_gemini.py:118 | the leading half of `strip()`: whitespace is dropped from the front one character at a time (its properties are `TrimStartSpec`) |
| Text.TrimEnd | quiz_generator_gemini.py:118 | the trailing half of `strip()`: whitespace is dropped from the back one character at a time (its properties are `TrimEndSpec`) |
| Text.Strip | quiz_generator_gemini.py:118 | `str.strip()` leaves no whitespace (as `str.isspace()` defines it) at either end and never lengthens the line |
| Text.StripMargins | quiz_generator_gemini.py:118 | the stripped text is a contiguous slice of the line, and everything cut away on either side is whitespace |
| Text.StripStripped | quiz_generator_gemini.py:136-137 | stripping a text without whitespace margins changes nothing, so the final strip is idempotent |
| Text.TrimStartSpec | quiz_generator_gemini.py:118 | the leading half of `strip()` removes a whitespace-only prefix, and what it keeps does not start with whitespace |
| Text.TrimEndSpec | quiz_generator_gemini.py:118 | the trailing half of `strip()` removes a whitespace-only suffix, and what it keeps does not end with whitespace |
| Text.SplitLines | quiz_generator_gemini.py:117 | `split('\n')` always yields at least one piece, even for "" |
| Text.SplitLinesSpec | quiz_generator_gemini.py:117 | no piece of `split('\n')` contains a newline, and joining the pieces with "\n" gives the text back |
| Text.SplitJoinLines | quiz_generator_gemini.py:117 | `split('\n')` undoes `"\n".join` of newline-free lines |
| Text.Contains | quiz_generator_gemini.py:120 | `needle in line`: "" is in every line, and a needle longer than the line never is |
| Text.ContainsAny | quiz_generator_gemini.py:120-129 | one `or`-chain of `marker in line` tests, false for no markers (what it means is `ContainsAnySpec`) |
| Text.ContainsAnySpec | quiz_generator_gemini.py:120 | an `or`-chain of `marker in line` tests holds exactly when some marker of the list occurs in the line |
| Text.ContainsInStripped | quiz_generator_gemini.py:118-120 | a marker found in the stripped line occurs in the raw line |
| Text.ContainsInJoin | quiz_generator_gemini.py:133-134 | a newline-free marker in newline-joined lines occurs within one of those lines |
| Text.JoinLinesStripped | quiz_generator_gemini.py:133-137 | joining non-empty stripped lines gives a stripped text, empty exactly when there are no lines |
| Text.StripTrailingNewline | quiz_generator_gemini.py:134-137 | stripping a stripped text plus its trailing newline gives the text |
| QuizParser.Markers | quiz_generator_gemini.py:120-129 | the spellings tested for each section, character for character: four for the question, three for the hint, six for the answer, three for the explanation |
| QuizParser.HasMarker | quiz_generator_gemini.py:120-129 | one `elif` condition: the line contains one of the section's markers |
| QuizParser.Classify | quiz_generator_gemini.py:120-131 | a line is a header line exactly when it contains some marker; the section chosen has a marker in the line, and no section tested earlier (question, hint, answer, explanation) has one, so the first in that order wins |
| QuizParser.Sections.With | quiz_generator_gemini.py:134 | assigning `sections[key]` changes that key's value and leaves the other three as they were |
| QuizParser.Scan | quiz_generator_gemini.py:118-129 | a line as the loop sees it: stripped (so with no whitespace margins and no longer than the raw line), with the result of the header tests on the stripped text |
| QuizParser.Step | quiz_generator_gemini.py:118-134 | one loop iteration: a header line switches the section and is dropped, a non-empty line is appended with "\n" to the current section; an iteration that leaves no section current changes nothing |
| QuizParser.Run | quiz_generator_gemini.py:117-134 | the loop as a fold of `Step` over the lines; while no section is current, every value is still "" |
| QuizParser.StripAll | quiz_generator_gemini.py:136-137 | the final pass; no value keeps whitespace at either end |
| QuizParser.ParseLines | quiz_generator_gemini.py:117-139 | the parser on the list of lines: `Run`, then `StripAll` (what it returns is `ParseLinesCollects`) |
| QuizParser.Parse | quiz_generator_gemini.py:106-139 | `_parse_quiz(text)`: `ParseLines` on `text.split('\n')` (what it returns is `ParseCollects`) |
| QuizParser.RunExtend | quiz_generator_gemini.py:117-134 | one more loop iteration is one more `Step` of the fold |
| QuizParser.ParseQuiz | quiz_generator_gemini.py:106-139 | the loop over the lines with `current_section`, then the strip loop, returns exactly `Parse(text)`; the result always has the four keys, starting from "" |
| QuizParser.StripSections | quiz_generator_gemini.py:136-137 | the final loop replaces every value by its stripped form |
| QuizParserProofs.LastHeaderNone | quiz_generator_gemini.py:115-131 | the current section is unset exactly when no line so far is a header |
| QuizParserProofs.LastHeaderSome | quiz_generator_gemini.py:120-131 | otherwise it is the section of the last header line so far |
| QuizParserProofs.RunCurrent | quiz_generator_gemini.py:115-131 | after any number of lines, `current_section` is the section of the last header line, or unset |
| QuizParserProofs.RunTracksCollected | quiz_generator_gemini.py:133-134 | before the final strip, each value is its collected lines, each followed by "\n" |
| QuizParserProofs.CollectedLinesClean | quiz_generator_gemini.py:118-134 | every collected line is non-empty, stripped and contains no header marker |
| QuizParserProofs.ParseLinesCollects | quiz_generator_gemini.py:117-139 | on a list of lines, each returned value is the collected lines of its section joined by single "\n" |
| QuizParserProofs.ParseCollects | quiz_generator_gemini.py:106-139 | each returned value is the stripped, non-empty, non-header lines after a header of its section up to the next header, in input order, joined by "\n"; a repeated header appends |
| QuizParserProofs.ParseValuesClean | quiz_generator_gemini.py:118-137 | each returned value has no leading or trailing whitespace; when non-empty, its lines are exactly the collected lines, none of them empty or with whitespace margins |
| QuizParserProofs.ParseValuesHaveNoMarker | quiz_generator_gemini.py:120-134 | no returned value contains any header marker of any section |
| QuizParserProofs.NoHeaderKeepsInitial | quiz_generator_gemini.py:115-133 | lines none of which is a header leave the state at "no section, all values empty" |
| QuizParserProofs.NoMarkerNoHeader | quiz_generator_gemini.py:118-131 | a raw line with no marker is not a header line after stripping |
| QuizParserProofs.NoHeaderAllEmpty | quiz_generator_gemini.py:108-139 | if no line contains any header marker, all four values are "" |
| QuizParserProofs.HeaderFreePrefixDropped | quiz_generator_gemini.py:115-133 | header-free lines in front of the rest do not change the scan |
| QuizParserProofs.ParseIgnoresLinesBeforeFirstHeader | quiz_generator_gemini.py:115-134 | lines before the first header line are dropped: the result is as if they were absent |
| QuizParserProofs.HeaderLineSwitchesOnly | quiz_generator_gemini.py:120-131 | a header line switches the current section to its own and copies nothing, not even text after the marker |
| QuizParserProofs.CollectedOnlyGrows | quiz_generator_gemini.py:133-134 | later lines, a repeated header included, only add to what a section has collected and never replace it |
| QuizParserProofs.OneLinePerSection | quiz_generator_gemini.py:117-139 | on raw lines: four header lines in order, each followed by one content line, make the parser return for each section exactly its line, stripped |
| CompanyData.CompanyDataLoader.constructor | data_loader.py:8-14 | the loader keeps the path, "company_data.json" unless the caller names one, and the records loaded from it |
| CompanyData.CompanyDataLoader.GetRandomCompany | data_loader.py:35-41 | None exactly when the list is empty, otherwise an element of the list |
| CompanyData.CompanyDataLoader.GetCompanyByCode | data_loader.py:43-50 | None exactly when no record has the code; otherwise a record with that code, and no record before it in the list has it |
| CompanyData.CompanyDataLoader.GetAllCompanies | data_loader.py:52-54 | returns the loaded list unchanged |
| SaveQuiz.RemoveChar | save_quiz.py:17 | `replace(c, '')` leaves no `c` and keeps every other character as often as before |
| SaveQuiz.RemoveCharConcat | save_quiz.py:17 | `replace(c, '')` works piece by piece, so the characters it keeps stay in their order |
| SaveQuiz.RemoveAbsentChar | save_quiz.py:17 | `replace(c, '')` leaves a string without `c` as it is |
| SaveQuiz.SanitizeCompanyName | save_quiz.py:17 | the sanitised name contains neither '（' nor '）', and every other character, ASCII parentheses included, occurs as often as in the name |
| SaveQuiz.SanitizeConcat | save_quiz.py:17 | sanitising maps a concatenation to the concatenation of the sanitised parts, so the kept characters stay in their original order |
| SaveQuiz.SanitizeClean | save_quiz.py:17 | a name without full-width parentheses is kept exactly |
| SaveQuiz.SanitizeIdempotent | save_quiz.py:17 | sanitising a sanitised name changes nothing |
| SaveQuiz.SanitizeBracketed | save_quiz.py:17 | a full-width bracketed part, as in "トヨタ自動車（株）", loses only its brackets: `x（y）` becomes `xy` |
| SaveQuiz.Decimal | save_quiz.py:16 | a zero-padded field of `strftime` has exactly its width and only digits, and for a number below 10^width reading the digits back gives the number |
| SaveQuiz.FormatTimestamp | save_quiz.py:16 | `%Y%m%d_%H%M%S` is 15 characters with '_' at position 8 |
| SaveQuiz.FormatTimestampFields | save_quiz.py:16 | the timestamp is eight digits, '_' and six digits, and they read back as the year, month, day, hour, minute and second of the clock reading |
| SaveQuiz.FormatTimestampInjective | save_quiz.py:16 | two clock readings give the same timestamp exactly when they fall in the same second: the microsecond and the fold are lost |
| SaveQuiz.SaveQuizToFile | save_quiz.py:7-25 | the returned name is the output directory ("output" unless the caller names one), "/quiz_", the timestamp, "_", the sanitised company name and ".json", in that order, so it starts with `output_dir + "/quiz_"` and ends with ".json" |
| SaveQuiz.DistinctTimesDistinctFiles | save_quiz.py:16-18 | saves in different seconds into one directory use different file names |
| SaveQuiz.SameSecondSameFile | save_quiz.py:16-22 | saves in the same second, of companies whose names agree once sanitised, use the same file name, so the second `open(filename, 'w')` replaces the first quiz |

## Left out

- The prompt and the call to the text-generation service in `generate_quiz`
  are not modelled. They are a foreign network call. `Parse` takes the reply
  text as its input.
- Reading and decoding `company_data.json` (`_load_data`) is not modelled.
  It is file and JSON I/O. The constructor is given the records it yields,
  an empty list when loading fails.
- `GetRandomCompany` does not model `random.choice`'s uniform distribution.
  Randomness is outside the model, so the choice is "some element of the
  list".
- `Company` keeps `code`, `name` and `industry`. The financial figures are
  used only by the prompt and the display code, which are not part of this
  model.
- A record without a `code` key raises `KeyError` in the source. That is
  not modelled: every `Company` has a code.
- The `sections` dict is the record `Sections`. It has exactly the four
  keys by construction, so "the result has exactly these keys" needs no
  separate proof.
- `save_quiz_to_file` does not model creating the directory or writing the
  JSON (I/O). `datetime.now()` is the parameter `now`, a reading with
  microsecond and fold; its time zone is not modelled.
- `quiz['company']['name']` is a field of the `Quiz` record. A quiz
  without a company name (a `KeyError` in the source) is not modelled.
- SaveQuiz.FormatTimestamp: requires a four-digit year, because how
  `strftime('%Y')` pads years below 1000 depends on the platform.
- Console output is not modelled: `print` calls, `display_quiz` and
  `display_company_info`.
- `daily_quiz.py`, `slack_notifier.py` and `check_models.py` are not part of
  this model. They are orchestration, webhook posting and a model listing
  over network calls.
