/**
 * The segmenter of backend/api.py: `segmentar_texto` cuts the text extracted
 * from the document into numbered sections, `format_section` reshapes each
 * section for storage, and the build step lists the section titles that are
 * handed to the embedding model.
 */
module Segmenter {
  import opened Wrappers
  import opened PyText

  /** A section while it is being built: the `{'title', 'answer'}` dict. */
  datatype QA = QA(title: string, answer: string)

  /** A section as stored and returned: the `{'title', 'text'}` dict. */
  datatype Section = Section(title: string, text: string)

  predicate IsDigit(c: char) {
    '0' <= c <= '9'
  }

  predicate AllDigits(s: string) {
    forall i :: 0 <= i < |s| ==> IsDigit(s[i])
  }

  /** The first position at or after `i` that does not hold a digit (or `|s|`). */
  function SkipDigits(s: string, i: nat): (k: nat)
    requires i <= |s|
    ensures i <= k <= |s|
    ensures forall m :: i <= m < k ==> IsDigit(s[m])
    ensures k < |s| ==> !IsDigit(s[k])
    decreases |s| - i
  {
    if i == |s| || !IsDigit(s[i]) then i else SkipDigits(s, i + 1)
  }

  /**
   * `re.match(r'^\d+\.\s.*', line)` on one line: the digit run at the front
   * is followed by a period and one whitespace character.
   */
  predicate IsTitle(line: string) {
    var k := SkipDigits(line, 0);
    1 <= k && k + 2 <= |line| && line[k] == '.' && IsSpace(line[k + 1])
  }

  /** The title pattern read as a regex engine reads it: some prefix matches `\d+\.\s`. */
  ghost predicate MatchesTitlePattern(line: string) {
    exists k :: 1 <= k && k + 2 <= |line| && AllDigits(line[..k]) && line[k] == '.' && IsSpace(line[k + 1])
  }

  /** The one-pass test agrees with the pattern in both directions. */
  lemma {:induction false} TitleTestMatchesPattern(line: string)
    ensures IsTitle(line) <==> MatchesTitlePattern(line)
  {
    var d := SkipDigits(line, 0);
    if IsTitle(line) {
      assert AllDigits(line[..d]) by {
        forall m | 0 <= m < d ensures IsDigit(line[..d][m]) {
          assert line[..d][m] == line[m];
        }
      }
      assert 1 <= d && d + 2 <= |line| && AllDigits(line[..d]) && line[d] == '.' && IsSpace(line[d + 1]);
    }
    if MatchesTitlePattern(line) {
      var k :| 1 <= k && k + 2 <= |line| && AllDigits(line[..k]) && line[k] == '.' && IsSpace(line[k + 1]);
      assert forall m :: 0 <= m < k ==> line[..k][m] == line[m];
      assert d == k;
    }
  }

  /** Every line stripped, as the loop strips each line before looking at it. */
  function StripAll(lines: seq<string>): (stripped: seq<string>)
    ensures |stripped| == |lines|
  {
    seq(|lines|, k requires 0 <= k < |lines| => Strip(lines[k]))
  }

  /** The lines the segmenter examines: newline runs collapsed, split on newlines, stripped. */
  function DocumentLines(text: string): seq<string> {
    StripAll(SplitLines(CollapseNewlines(text)))
  }

  /** Every document line is stripped and holds no newline. */
  lemma {:induction false} DocumentLinesAreClean(text: string)
    ensures forall l :: l in DocumentLines(text) ==> IsStripped(l) && '\n' !in l
  {
    var pieces := SplitLines(CollapseNewlines(text));
    var ls := DocumentLines(text);
    SplitLinesHaveNoNewline(CollapseNewlines(text));
    forall l | l in ls ensures IsStripped(l) && '\n' !in l {
      var k :| 0 <= k < |ls| && ls[k] == l;
      assert l == Strip(pieces[k]);
      StripKeepsCharacters(pieces[k]);
    }
  }

  /** The answer built from body lines: each non-empty line followed by one space. */
  function Answer(body: seq<string>): string {
    if body == [] then ""
    else
      var line := body[|body| - 1];
      Answer(body[..|body| - 1]) + (if line == "" then "" else line + " ")
  }

  /**
   * The sections of `lines` after the loop of `segmentar_texto` has read them
   * all; the last section is the one the loop still holds open.
   */
  function Segments(lines: seq<string>): (qas: seq<QA>)
    ensures |qas| == |TitlePositions(lines)|
  {
    if lines == [] then [] else Feed(Segments(lines[..|lines| - 1]), lines[|lines| - 1])
  }

  /**
   * One turn of the loop: a title line opens a new section, a non-empty line
   * is added to the open section's answer, anything else is dropped.
   */
  function Feed(qas: seq<QA>, line: string): seq<QA> {
    if IsTitle(line) then qas + [QA(line, "")]
    else if qas != [] && line != "" then
      var open := qas[|qas| - 1];
      qas[..|qas| - 1] + [open.(answer := open.answer + (line + " "))]
    else qas
  }

  lemma {:induction false} SegmentsOfPrefix(lines: seq<string>, i: nat)
    requires i < |lines|
    ensures Segments(lines[..i + 1]) == Feed(Segments(lines[..i]), lines[i])
  {
    assert lines[..i + 1][..i] == lines[..i];
  }

  /** The positions of the title lines, in increasing order. */
  function TitlePositions(lines: seq<string>): (ps: seq<nat>)
    ensures forall k :: 0 <= k < |ps| ==> ps[k] < |lines|
    ensures forall k :: 0 < k < |ps| ==> ps[k - 1] < ps[k]
  {
    if lines == [] then []
    else
      var ps := TitlePositions(lines[..|lines| - 1]);
      if IsTitle(lines[|lines| - 1]) then ps + [|lines| - 1] else ps
  }

  /** Exactly the title lines are listed: every listed line is a title line ... */
  lemma {:induction false} TitlePositionsSound(lines: seq<string>, k: nat)
    requires k < |TitlePositions(lines)|
    ensures IsTitle(lines[TitlePositions(lines)[k]])
  {
    var init := lines[..|lines| - 1];
    if k < |TitlePositions(init)| {
      TitlePositionsSound(init, k);
    }
  }

  /** ... and every title line's position is listed. */
  lemma {:induction false} TitlePositionsComplete(lines: seq<string>, j: nat)
    requires j < |lines| && IsTitle(lines[j])
    ensures j in TitlePositions(lines)
  {
    if j < |lines| - 1 {
      TitlePositionsComplete(lines[..|lines| - 1], j);
    }
  }

  /** Where section `k` ends: at the next title line, or at the end of the text. */
  function SectionEnd(ps: seq<nat>, k: nat, n: nat): nat
    requires k < |ps|
  {
    if k + 1 < |ps| then ps[k + 1] else n
  }

  /** The lines of section `k` after its title. */
  function Body(lines: seq<string>, k: nat): seq<string>
    requires k < |TitlePositions(lines)|
  {
    var ps := TitlePositions(lines);
    lines[ps[k] + 1 .. SectionEnd(ps, k, |lines|)]
  }

  /**
   * `qas` has one section per title line, in the order of the lines; each
   * section's title is its title line and its answer is built from the lines
   * between that title and the next one.
   */
  ghost predicate IsSegmentation(qas: seq<QA>, lines: seq<string>) {
    |qas| == |TitlePositions(lines)|
    && forall k :: 0 <= k < |qas| ==> IsSectionAt(qas, lines, k)
  }

  /** Section `k` is title line `k` with the answer built from the lines under it. */
  ghost predicate IsSectionAt(qas: seq<QA>, lines: seq<string>, k: nat)
    requires k < |qas| == |TitlePositions(lines)|
  {
    qas[k] == QA(lines[TitlePositions(lines)[k]], Answer(Body(lines, k)))
  }

  /** The sections the loop has produced so far: the closed ones, then the open one. */
  function Pending(done: seq<QA>, current: Option<QA>): seq<QA> {
    done + (if current.Some? then [current.value] else [])
  }

  /** A title line closes the open section and opens a new one. */
  lemma {:induction false} FeedTitleLine(done: seq<QA>, current: Option<QA>, line: string)
    requires IsTitle(line)
    ensures Feed(Pending(done, current), line) == Pending(Pending(done, current), Some(QA(line, "")))
  {
  }

  /** A non-empty other line grows the open section's answer. */
  lemma {:induction false} FeedBodyLine(done: seq<QA>, open: QA, line: string)
    requires !IsTitle(line) && line != ""
    ensures Feed(Pending(done, Some(open)), line) == Pending(done, Some(open.(answer := open.answer + (line + " "))))
  {
    var qs := Pending(done, Some(open));
    assert qs[..|qs| - 1] == done;
  }

  /** An empty line, or any line before the first title, changes nothing. */
  lemma {:induction false} FeedSkippedLine(done: seq<QA>, current: Option<QA>, line: string)
    requires current.None? ==> done == []
    requires !IsTitle(line) && (current.None? || line == "")
    ensures Feed(Pending(done, current), line) == Pending(done, current)
  {
  }

  /** Line `i` of the document is line `i` of the split, stripped. */
  lemma {:induction false} DocumentLineAt(text: string, i: nat)
    requires i < |SplitLines(CollapseNewlines(text))|
    ensures |DocumentLines(text)| == |SplitLines(CollapseNewlines(text))|
    ensures DocumentLines(text)[i] == Strip(SplitLines(CollapseNewlines(text))[i])
  {
  }

  /** `segmentar_texto`, as the Python loop runs it. */
  method SegmentText(text: string) returns (questionsAnswers: seq<QA>)
    ensures questionsAnswers == Segments(DocumentLines(text))
    ensures IsSegmentation(questionsAnswers, DocumentLines(text))
  {
    var lines := SplitLines(CollapseNewlines(text));
    ghost var stripped := DocumentLines(text);
    questionsAnswers := [];
    var current: Option<QA> := None;
    var i := 0;
    while i < |lines|
      invariant 0 <= i <= |lines| == |stripped|
      invariant current.None? ==> questionsAnswers == []
      invariant Pending(questionsAnswers, current) == Segments(stripped[..i])
    {
      var line := Strip(lines[i]);
      DocumentLineAt(text, i);
      SegmentsOfPrefix(stripped, i);
      if IsTitle(line) {
        FeedTitleLine(questionsAnswers, current, line);
        questionsAnswers := Pending(questionsAnswers, current);
        current := Some(QA(line, ""));
      } else if current.Some? && line != "" {
        FeedBodyLine(questionsAnswers, current.value, line);
        current := Some(current.value.(answer := current.value.answer + (line + " ")));
      } else {
        FeedSkippedLine(questionsAnswers, current, line);
      }
      i := i + 1;
    }
    questionsAnswers := Pending(questionsAnswers, current);
    assert stripped[..|lines|] == stripped;
    SegmentsCharacterized(stripped);
  }

  /** The loop's result is exactly the segmentation described by `IsSegmentation`. */
  lemma {:induction false} SegmentsCharacterized(lines: seq<string>)
    ensures IsSegmentation(Segments(lines), lines)
  {
    if lines != [] {
      var init := lines[..|lines| - 1];
      SegmentsCharacterized(init);
      var qs := Segments(init);
      if IsTitle(lines[|lines| - 1]) {
        forall k | 0 <= k < |qs| + 1 ensures IsSectionAt(Segments(lines), lines, k) {
          if k < |qs| {
            assert IsSectionAt(qs, init, k);
            TitleStepAt(lines, k);
          } else {
            assert Body(lines, k) == [];
          }
        }
      } else if qs != [] {
        forall k | 0 <= k < |qs| ensures IsSectionAt(Segments(lines), lines, k) {
          assert IsSectionAt(qs, init, k);
          if k + 1 < |qs| {
            BodyStepEarlier(lines, k);
          } else {
            BodyStepOpen(lines);
          }
        }
      }
    }
  }

  /** Sections before the open one keep their bodies when a line is appended. */
  lemma {:induction false} EarlierBodiesKept(lines: seq<string>, k: nat)
    requires lines != []
    requires k + 1 < |TitlePositions(lines[..|lines| - 1])|
    ensures TitlePositions(lines)[k] == TitlePositions(lines[..|lines| - 1])[k]
    ensures Body(lines, k) == Body(lines[..|lines| - 1], k)
  {
    var init := lines[..|lines| - 1];
    var ps := TitlePositions(init);
    assert init[ps[k] + 1 .. ps[k + 1]] == lines[ps[k] + 1 .. ps[k + 1]];
  }

  /** A title line opens a new, empty section after the existing ones. */
  lemma {:induction false} SegmentsAfterTitleLine(lines: seq<string>)
    requires lines != [] && IsTitle(lines[|lines| - 1])
    ensures Segments(lines) == Segments(lines[..|lines| - 1]) + [QA(lines[|lines| - 1], "")]
    ensures TitlePositions(lines) == TitlePositions(lines[..|lines| - 1]) + [|lines| - 1]
  {
  }

  /** After a title line, the sections before it are unchanged. */
  lemma {:induction false} TitleStepAt(lines: seq<string>, k: nat)
    requires lines != [] && IsTitle(lines[|lines| - 1])
    requires k < |Segments(lines[..|lines| - 1])|
    requires IsSectionAt(Segments(lines[..|lines| - 1]), lines[..|lines| - 1], k)
    ensures IsSectionAt(Segments(lines), lines, k)
  {
    var init := lines[..|lines| - 1];
    var ps := TitlePositions(init);
    SegmentsAfterTitleLine(lines);
    assert init[ps[k]] == lines[ps[k]];
    if k + 1 < |ps| {
      EarlierBodiesKept(lines, k);
    } else {
      ClosedBodyKept(lines);
    }
  }

  /** A title line closes the previously open section without changing its body. */
  lemma {:induction false} ClosedBodyKept(lines: seq<string>)
    requires lines != [] && IsTitle(lines[|lines| - 1])
    requires TitlePositions(lines[..|lines| - 1]) != []
    ensures var k := |TitlePositions(lines[..|lines| - 1])| - 1;
      Body(lines, k) == Body(lines[..|lines| - 1], k)
  {
    var init := lines[..|lines| - 1];
    var ps := TitlePositions(init);
    var k, n := |ps| - 1, |init|;
    assert lines[ps[k] + 1 .. n] == init[ps[k] + 1 .. n];
    assert Body(init, k) == init[ps[k] + 1 .. n];
    TitlePositionsAfterTitleLine(lines);
    var qs := TitlePositions(lines);
    assert qs[k] == ps[k] && SectionEnd(qs, k, |lines|) == n;
  }

  lemma {:induction false} TitlePositionsAfterTitleLine(lines: seq<string>)
    requires lines != [] && IsTitle(lines[|lines| - 1])
    ensures TitlePositions(lines) == TitlePositions(lines[..|lines| - 1]) + [|lines| - 1]
  {
  }

  lemma {:induction false} AnswerAppend(body: seq<string>, line: string)
    ensures Answer(body + [line]) == Answer(body) + (if line == "" then "" else line + " ")
  {
    assert (body + [line])[..|body|] == body;
  }

  /** A non-title line extends the body of the open section. */
  lemma {:induction false} LastBodyExtended(lines: seq<string>)
    requires lines != [] && !IsTitle(lines[|lines| - 1])
    requires TitlePositions(lines[..|lines| - 1]) != []
    ensures TitlePositions(lines) == TitlePositions(lines[..|lines| - 1])
    ensures var last := |TitlePositions(lines)| - 1;
      Body(lines, last) == Body(lines[..|lines| - 1], last) + [lines[|lines| - 1]]
  {
    var init := lines[..|lines| - 1];
    var ps := TitlePositions(init);
    var p := ps[|ps| - 1];
    assert Body(lines, |ps| - 1) == lines[p + 1 ..];
    assert Body(init, |ps| - 1) == init[p + 1 ..];
    assert lines[p + 1 ..] == init[p + 1 ..] + [lines[|lines| - 1]];
  }

  /** After a non-title line, only the open (last) section may change: its answer grows. */
  lemma {:induction false} SegmentsAfterBodyLine(lines: seq<string>)
    requires lines != [] && !IsTitle(lines[|lines| - 1])
    requires Segments(lines[..|lines| - 1]) != []
    ensures var qs, line := Segments(lines[..|lines| - 1]), lines[|lines| - 1];
      Segments(lines) == qs[..|qs| - 1] + [qs[|qs| - 1].(answer := qs[|qs| - 1].answer + (if line == "" then "" else line + " "))]
  {
    var qs, line := Segments(lines[..|lines| - 1]), lines[|lines| - 1];
    if line == "" {
      assert qs[|qs| - 1].answer + "" == qs[|qs| - 1].answer;
      assert qs == qs[..|qs| - 1] + [qs[|qs| - 1]];
    }
  }

  /** After a body line, the sections before the open one are unchanged. */
  lemma {:induction false} BodyStepEarlier(lines: seq<string>, k: nat)
    requires lines != [] && !IsTitle(lines[|lines| - 1])
    requires Segments(lines[..|lines| - 1]) != []
    requires IsSegmentation(Segments(lines[..|lines| - 1]), lines[..|lines| - 1])
    requires k + 1 < |Segments(lines[..|lines| - 1])|
    requires IsSectionAt(Segments(lines[..|lines| - 1]), lines[..|lines| - 1], k)
    ensures |Segments(lines)| == |TitlePositions(lines)| && IsSectionAt(Segments(lines), lines, k)
  {
    var init := lines[..|lines| - 1];
    var qs, ps := Segments(init), TitlePositions(init);
    LastBodyExtended(lines);
    SegmentsAfterBodyLine(lines);
    assert init[ps[k]] == lines[ps[k]];
    assert Segments(lines)[k] == qs[k];
    EarlierBodiesKept(lines, k);
  }

  /** After a body line, the open section's answer grows by that line. */
  lemma {:induction false} BodyStepOpen(lines: seq<string>)
    requires lines != [] && !IsTitle(lines[|lines| - 1])
    requires Segments(lines[..|lines| - 1]) != []
    requires IsSegmentation(Segments(lines[..|lines| - 1]), lines[..|lines| - 1])
    requires IsSectionAt(Segments(lines[..|lines| - 1]), lines[..|lines| - 1], |Segments(lines[..|lines| - 1])| - 1)
    ensures |Segments(lines)| == |TitlePositions(lines)|
    ensures IsSectionAt(Segments(lines), lines, |Segments(lines)| - 1)
  {
    var init := lines[..|lines| - 1];
    var qs, ps := Segments(init), TitlePositions(init);
    var last := |ps| - 1;
    LastBodyExtended(lines);
    SegmentsAfterBodyLine(lines);
    assert init[ps[last]] == lines[ps[last]];
    AnswerAppend(Body(init, last), lines[|lines| - 1]);
  }

  /** There are no sections exactly when there is no title line: everything else is dropped. */
  lemma {:induction false} NoTitleNoSections(lines: seq<string>)
    ensures Segments(lines) == [] <==> forall j :: 0 <= j < |lines| ==> !IsTitle(lines[j])
  {
    SegmentsCharacterized(lines);
    if Segments(lines) == [] {
      forall j | 0 <= j < |lines| ensures !IsTitle(lines[j]) {
        if IsTitle(lines[j]) {
          TitlePositionsComplete(lines, j);
        }
      }
    } else {
      TitlePositionsSound(lines, 0);
    }
  }

  /** Lines before the first title line never reach any section. */
  lemma {:induction false} PreambleDropped(preamble: seq<string>, rest: seq<string>)
    requires forall j :: 0 <= j < |preamble| ==> !IsTitle(preamble[j])
    ensures Segments(preamble + rest) == Segments(rest)
  {
    if rest == [] {
      assert preamble + rest == preamble;
      NoTitleNoSections(preamble);
      assert Segments(preamble) == [];
    } else {
      var all, init, last := preamble + rest, rest[..|rest| - 1], rest[|rest| - 1];
      assert all[..|all| - 1] == preamble + init && all[|all| - 1] == last;
      assert Segments(all) == Feed(Segments(preamble + init), last);
      PreambleDropped(preamble, init);
      assert Segments(rest) == Feed(Segments(init), last);
    }
  }

  /** Empty lines never change the sections. */
  lemma {:induction false} SegmentsIgnoreEmptyLines(lines: seq<string>)
    ensures Segments(lines) == Segments(NonEmpty(lines))
  {
    if lines != [] {
      var init, line := lines[..|lines| - 1], lines[|lines| - 1];
      SegmentsIgnoreEmptyLines(init);
      if line != "" {
        var ne := NonEmpty(init);
        assert NonEmpty(lines) == ne + [line];
        assert (ne + [line])[..|ne|] == ne;
      }
    }
  }

  lemma {:induction false} StripAllKeepsEmptiness(xs: seq<string>)
    ensures NonEmpty(StripAll(xs)) == NonEmpty(StripAll(NonEmpty(xs)))
  {
    if xs != [] {
      var init, x := xs[..|xs| - 1], xs[|xs| - 1];
      assert xs == init + [x];
      StripAllKeepsEmptiness(init);
      StripAllSnoc(init, x);
      NonEmptyAppend(StripAll(init), [Strip(x)]);
      if x != "" {
        var ne := NonEmpty(init);
        assert NonEmpty(xs) == ne + [x];
        StripAllSnoc(ne, x);
        NonEmptyAppend(StripAll(ne), [Strip(x)]);
      }
    }
  }

  lemma {:induction false} StripAllSnoc(xs: seq<string>, x: string)
    ensures StripAll(xs + [x]) == StripAll(xs) + [Strip(x)]
  {
  }

  /**
   * Collapsing runs of newlines before splitting cannot change the sections:
   * it only removes empty lines, which the loop skips anyway.
   */
  lemma {:induction false} CollapseIsInvisible(text: string)
    ensures Segments(DocumentLines(text)) == Segments(StripAll(SplitLines(text)))
  {
    var x, y := SplitLines(CollapseNewlines(text)), SplitLines(text);
    SegmentsIgnoreEmptyLines(StripAll(x));
    SegmentsIgnoreEmptyLines(StripAll(y));
    StripAllKeepsEmptiness(x);
    StripAllKeepsEmptiness(y);
    CollapseKeepsNonEmptyLines(text);
  }

  /** Each section's title is a stripped, newline-free line matching the title pattern. */
  lemma {:induction false} SectionTitlesAreTitleLines(text: string, k: nat)
    requires k < |Segments(DocumentLines(text))|
    ensures var t := Segments(DocumentLines(text))[k].title;
      MatchesTitlePattern(t) && IsStripped(t) && '\n' !in t && t in DocumentLines(text)
  {
    var ls := DocumentLines(text);
    SegmentsCharacterized(ls);
    assert IsSectionAt(Segments(ls), ls, k);
    TitlePositionsSound(ls, k);
    TitleTestMatchesPattern(ls[TitlePositions(ls)[k]]);
    DocumentLinesAreClean(text);
  }

  /** `" ".join(words)`. */
  function JoinWords(words: seq<string>): string {
    if |words| == 0 then ""
    else if |words| == 1 then words[0]
    else JoinWords(words[..|words| - 1]) + " " + words[|words| - 1]
  }

  /** `format_section`: the title as is, the answer stripped. */
  function FormatSection(qa: QA): (section: Section)
    ensures section.title == qa.title
    ensures IsStripped(section.text)
    ensures forall c :: c in section.text ==> c in qa.answer
  {
    StripKeepsCharacters(qa.answer);
    Section(qa.title, Strip(qa.answer))
  }

  /** An answer is its non-empty lines, each followed by a space. */
  lemma {:induction false} AnswerIsJoinedWords(body: seq<string>)
    ensures Answer(body) == if NonEmpty(body) == [] then "" else JoinWords(NonEmpty(body)) + " "
  {
    if body != [] {
      var init, line := body[..|body| - 1], body[|body| - 1];
      AnswerIsJoinedWords(init);
      if line != "" {
        var ne := NonEmpty(init);
        assert NonEmpty(body) == ne + [line];
        assert (ne + [line])[..|ne|] == ne;
        if ne != [] {
          assert JoinWords(ne) + " " + line + " " == JoinWords(ne) + " " + (line + " ");
        }
      }
    }
  }

  /** Joining clean non-empty words gives clean, non-empty text. */
  lemma {:induction false} JoinWordsClean(words: seq<string>)
    requires forall k :: 0 <= k < |words| ==> words[k] != "" && IsStripped(words[k]) && '\n' !in words[k]
    ensures IsStripped(JoinWords(words)) && '\n' !in JoinWords(words)
    ensures words != [] ==> JoinWords(words) != ""
  {
    if |words| > 1 {
      var init := words[..|words| - 1];
      JoinWordsClean(init);
      var j := JoinWords(init) + " " + words[|words| - 1];
      assert j[0] == JoinWords(init)[0];
      assert j[|j| - 1] == words[|words| - 1][|words[|words| - 1]| - 1];
    }
  }

  /** Stripping an answer built from clean lines gives those lines joined by single spaces. */
  lemma {:induction false} StrippedAnswer(body: seq<string>)
    requires forall l :: l in body ==> IsStripped(l) && '\n' !in l
    ensures Strip(Answer(body)) == JoinWords(NonEmpty(body))
  {
    var words := NonEmpty(body);
    NonEmptyIsFilter(body);
    AnswerIsJoinedWords(body);
    JoinWordsClean(words);
    if words != [] {
      StripUnique("", JoinWords(words), " ");
      assert "" + JoinWords(words) + " " == JoinWords(words) + " ";
    }
  }

  /**
   * The stored text of section `k` is the non-empty lines under its title
   * joined by single spaces: no whitespace at either end and no newline.
   */
  lemma {:induction false} SectionTextIsJoinedBody(text: string, k: nat)
    requires k < |Segments(DocumentLines(text))|
    ensures var ls := DocumentLines(text);
      var section := FormatSection(Segments(ls)[k]);
      && section.title == ls[TitlePositions(ls)[k]]
      && section.text == JoinWords(NonEmpty(Body(ls, k)))
      && IsStripped(section.text) && '\n' !in section.text
  {
    var ls := DocumentLines(text);
    SegmentsCharacterized(ls);
    assert IsSectionAt(Segments(ls), ls, k);
    DocumentLinesAreClean(text);
    BodyLinesAreLines(ls, k);
    StrippedAnswer(Body(ls, k));
    NonEmptyIsFilter(Body(ls, k));
    JoinWordsClean(NonEmpty(Body(ls, k)));
  }

  lemma {:induction false} BodyLinesAreLines(lines: seq<string>, k: nat)
    requires k < |TitlePositions(lines)|
    ensures forall l :: l in Body(lines, k) ==> l in lines
  {
    var body := Body(lines, k);
    forall l | l in body ensures l in lines {
      var j :| 0 <= j < |body| && body[j] == l;
      assert l == lines[TitlePositions(lines)[k] + 1 + j];
    }
  }

  /** `entries = [format_section(qa) for qa in questions_answers]`. */
  function Entries(qas: seq<QA>): seq<Section> {
    seq(|qas|, k requires 0 <= k < |qas| => FormatSection(qas[k]))
  }

  /** `titles = [entry['title'] for entry in entries]`. */
  function Titles(entries: seq<Section>): seq<string> {
    seq(|entries|, k requires 0 <= k < |entries| => entries[k].title)
  }

  /**
   * The titles handed to the embedding model run parallel to the stored
   * entries, and are exactly the document's title lines, in document order.
   */
  lemma {:induction false} EmbeddedTitlesAreTitleLines(text: string)
    ensures var ls := DocumentLines(text);
      var entries := Entries(Segments(ls));
      var titles := Titles(entries);
      && |titles| == |entries| == |TitlePositions(ls)|
      && forall k :: 0 <= k < |titles| ==> titles[k] == entries[k].title == ls[TitlePositions(ls)[k]]
  {
    var ls := DocumentLines(text);
    SegmentsCharacterized(ls);
    forall k | 0 <= k < |Segments(ls)| ensures Segments(ls)[k].title == ls[TitlePositions(ls)[k]] {
      assert IsSectionAt(Segments(ls), ls, k);
    }
  }

  /**
   * Segmenting a stored section again need not give it back. The body line
   * "12." is no title (no whitespace follows the period), so it joins the
   * answer; stripped, the stored text "12. foo" starts like a title, and the
   * title line followed by that text segments into two sections.
   */
  lemma {:induction false} ResegmentingCanSplitSection()
    ensures Segments(["1. A", "12.", "foo"]) == [QA("1. A", "12. foo ")]
    ensures Entries([QA("1. A", "12. foo ")]) == [Section("1. A", "12. foo")]
    ensures Segments(["1. A", "12. foo"]) == [QA("1. A", ""), QA("12. foo", "")]
  {
    ExampleFirstPass();
    ExampleStrip();
    ExampleSecondPass();
  }

  /** The first pass: "12." and "foo" both join the answer of "1. A". */
  lemma {:induction false} ExampleFirstPass()
    ensures Segments(["1. A", "12.", "foo"]) == [QA("1. A", "12. foo ")]
  {
    ExampleBodyLines();
    ExampleAnswer();
    ExampleTwoLines();
    SegmentsSnoc(["1. A", "12."], "foo");
    assert |"foo"| == 3;
    FeedBodyLine([], QA("1. A", "12. "), "foo");
    assert Pending([], Some(QA("1. A", "12. "))) == [QA("1. A", "12. ")];
    assert ["1. A", "12."] + ["foo"] == ["1. A", "12.", "foo"];
  }

  /** The second pass: the stored text starts a section of its own. */
  lemma {:induction false} ExampleSecondPass()
    ensures Segments(["1. A", "12. foo"]) == [QA("1. A", ""), QA("12. foo", "")]
  {
    ExampleTitleLines();
    ExampleOneLine();
    SegmentsSnoc(["1. A"], "12. foo");
    assert ["1. A"] + ["12. foo"] == ["1. A", "12. foo"];
  }

  lemma {:induction false} ExampleAnswer()
    ensures "" + ("12." + " ") == "12. "
    ensures "12. " + ("foo" + " ") == "12. foo "
  {
  }

  lemma {:induction false} ExampleTwoLines()
    ensures Segments(["1. A", "12."]) == [QA("1. A", "12. ")]
  {
    ExampleBodyLines();
    ExampleAnswer();
    ExampleOneLine();
    SegmentsSnoc(["1. A"], "12.");
    assert ["1. A"] + ["12."] == ["1. A", "12."];
    assert |"12."| == 3;
    FeedBodyLine([], QA("1. A", ""), "12.");
    assert Pending([], Some(QA("1. A", ""))) == [QA("1. A", "")];
  }

  lemma {:induction false} ExampleOneLine()
    ensures Segments(["1. A"]) == [QA("1. A", "")]
  {
    ExampleTitleLines();
    SegmentsSnoc([], "1. A");
    assert [] + ["1. A"] == ["1. A"];
  }

  lemma {:induction false} SegmentsSnoc(lines: seq<string>, line: string)
    ensures Segments(lines + [line]) == Feed(Segments(lines), line)
  {
    assert (lines + [line])[..|lines|] == lines;
  }

  lemma {:induction false} ExampleTitleLines()
    ensures IsTitle("1. A") && IsTitle("12. foo")
  {
    assert SkipDigits("1. A", 1) == 1;
    assert SkipDigits("12. foo", 2) == 2;
  }

  lemma {:induction false} ExampleBodyLines()
    ensures !IsTitle("12.") && !IsTitle("foo")
  {
    assert SkipDigits("12.", 2) == 2;
  }

  lemma {:induction false} ExampleStrip()
    ensures Strip("12. foo ") == "12. foo"
  {
    var answer := "12. foo ";
    assert SkipSpaces(answer, 0) == 0;
    assert SkipSpacesBack(answer, 7) == 7;
    assert SkipSpacesBack(answer, 8) == 7;
  }
}
