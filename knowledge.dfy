/**
  The knowledge base and its loader `read_Q_A` (faq_skeleton.py:17-67),
  over the lines of the file. Blank lines are skipped; the remaining
  lines, stripped, come in blocks of four: a pattern, two question
  phrasings, one answer.
 */
module Knowledge {
  import opened Text

  /** Three parallel lists indexed by the intent id (`regEx`, `questions`, `answers`). */
  datatype KnowledgeBase = KnowledgeBase(patterns: seq<string>, questions: seq<seq<string>>, answers: seq<seq<string>>)

  /** `current_section` of the loader: 0, 1 and 2 in the source. */
  datatype Section = PatternLine | QuestionLines | AnswerLine

  /** The stripped non-blank lines, in order: the lines the loader acts on. */
  function Content(lines: seq<string>): seq<string> {
    if lines == [] then []
    else
      var line := Strip(lines[|lines| - 1]);
      Content(lines[..|lines| - 1]) + (if line == "" then [] else [line])
  }

  /** One more line adds its stripped form to the content, unless it is blank. */
  lemma ContentStep(lines: seq<string>, i: nat)
    requires i < |lines|
    ensures Content(lines[..i + 1]) ==
      Content(lines[..i]) + (if Strip(lines[i]) == "" then [] else [Strip(lines[i])])
  {
    assert lines[..i + 1][..i] == lines[..i];
  }

  /** Every line is non-empty and already stripped. */
  predicate StrippedLines(c: seq<string>) {
    forall k :: 0 <= k < |c| ==> c[k] != "" && Strip(c[k]) == c[k]
  }

  lemma StrippedAppend(c: seq<string>, line: string)
    requires StrippedLines(c) && line != "" && Strip(line) == line
    ensures StrippedLines(c + [line])
  {
    var d := c + [line];
    forall k | 0 <= k < |d| ensures d[k] != "" && Strip(d[k]) == d[k] {
      if k < |c| {
        assert d[k] == c[k];
      }
    }
  }

  /** Each content line is non-empty and already stripped. */
  lemma {:induction false} ContentStripped(lines: seq<string>)
    ensures StrippedLines(Content(lines))
  {
    if lines != [] {
      var p := lines[..|lines| - 1];
      ContentStripped(p);
      var line := Strip(lines[|lines| - 1]);
      StripIdempotent(lines[|lines| - 1]);
      if line != "" {
        StrippedAppend(Content(p), line);
      }
    }
  }

  /** The section the loader is in after `n` content lines. */
  function SectionAfter(n: nat): Section {
    if n % 4 == 0 then PatternLine else if n % 4 == 3 then AnswerLine else QuestionLines
  }

  /** Content line `4k` is the pattern of intent `k`. */
  function PatternsOf(c: seq<string>): seq<string> {
    seq((|c| + 3) / 4, k requires 0 <= k < (|c| + 3) / 4 => c[4 * k])
  }

  /** Content lines `4k+1` and `4k+2` are the two phrasings of intent `k`. */
  function QuestionsOf(c: seq<string>): seq<seq<string>> {
    seq((|c| + 1) / 4, k requires 0 <= k < (|c| + 1) / 4 => [c[4 * k + 1], c[4 * k + 2]])
  }

  /** Content line `4k+3` is the answer of intent `k`. */
  function AnswersOf(c: seq<string>): seq<seq<string>> {
    seq(|c| / 4, k requires 0 <= k < |c| / 4 => [c[4 * k + 3]])
  }

  /** The knowledge base the block structure gives to a file's lines. */
  function Parse(lines: seq<string>): KnowledgeBase {
    var c := Content(lines);
    KnowledgeBase(PatternsOf(c), QuestionsOf(c), AnswersOf(c))
  }

  lemma PatternsOfAppend(c: seq<string>, x: string)
    ensures PatternsOf(c + [x]) == if |c| % 4 == 0 then PatternsOf(c) + [x] else PatternsOf(c)
  {
    var d := c + [x];
    if |c| % 4 == 0 {
      assert (|d| + 3) / 4 == (|c| + 3) / 4 + 1;
      assert d[4 * ((|c| + 3) / 4)] == x;
    } else {
      assert (|d| + 3) / 4 == (|c| + 3) / 4;
    }
  }

  lemma QuestionsOfAppend(c: seq<string>, x: string)
    ensures QuestionsOf(c + [x]) ==
      if |c| % 4 == 2 then QuestionsOf(c) + [[c[|c| - 1], x]] else QuestionsOf(c)
  {
    var d := c + [x];
    if |c| % 4 == 2 {
      var n := (|c| + 1) / 4;
      assert (|d| + 1) / 4 == n + 1;
      assert 4 * n + 1 == |c| - 1 && 4 * n + 2 == |c|;
    } else {
      assert (|d| + 1) / 4 == (|c| + 1) / 4;
    }
  }

  lemma AnswersOfAppend(c: seq<string>, x: string)
    ensures AnswersOf(c + [x]) == if |c| % 4 == 3 then AnswersOf(c) + [[x]] else AnswersOf(c)
  {
    var d := c + [x];
    if |c| % 4 == 3 {
      var n := |c| / 4;
      assert |d| / 4 == n + 1;
      assert 4 * n + 3 == |c|;
    } else {
      assert |d| / 4 == |c| / 4;
    }
  }

  /**
    The loader's variables after the content lines `c`: the section is the
    one for the next line, the three lists are those of the blocks read so
    far, `current_questions` holds the first phrasing of a half-read pair,
    and `current_answers` is empty.
   */
  predicate Loaded(c: seq<string>, section: Section, patterns: seq<string>, questions: seq<seq<string>>,
                   answers: seq<seq<string>>, currentQuestions: seq<string>, currentAnswers: seq<string>)
  {
    && section == SectionAfter(|c|)
    && patterns == PatternsOf(c) && questions == QuestionsOf(c) && answers == AnswersOf(c)
    && currentQuestions == (if |c| % 4 == 2 then [c[|c| - 1]] else [])
    && currentAnswers == []
  }

  /** A pattern line starts a block (faq_skeleton.py:48-50). */
  lemma LoadPattern(c: seq<string>, line: string, patterns: seq<string>, questions: seq<seq<string>>,
                    answers: seq<seq<string>>, currentQuestions: seq<string>, currentAnswers: seq<string>)
    requires Loaded(c, PatternLine, patterns, questions, answers, currentQuestions, currentAnswers)
    ensures Loaded(c + [line], QuestionLines, patterns + [line], questions, answers, currentQuestions, currentAnswers)
  {
    PatternsOfAppend(c, line);
    QuestionsOfAppend(c, line);
    AnswersOfAppend(c, line);
  }

  /** A question line; the second one closes the pair (faq_skeleton.py:53-58). */
  lemma LoadQuestion(c: seq<string>, line: string, patterns: seq<string>, questions: seq<seq<string>>,
                     answers: seq<seq<string>>, currentQuestions: seq<string>, currentAnswers: seq<string>)
    requires Loaded(c, QuestionLines, patterns, questions, answers, currentQuestions, currentAnswers)
    ensures var pair := currentQuestions + [line];
      if |pair| == 2 then Loaded(c + [line], AnswerLine, patterns, questions + [pair], answers, [], currentAnswers)
      else Loaded(c + [line], QuestionLines, patterns, questions, answers, pair, currentAnswers)
  {
    PatternsOfAppend(c, line);
    QuestionsOfAppend(c, line);
    AnswersOfAppend(c, line);
    var d := c + [line];
    assert d[|d| - 1] == line;
    if |c| % 4 == 2 {
      assert currentQuestions + [line] == [c[|c| - 1], line];
    } else {
      assert currentQuestions + [line] == [line];
    }
  }

  /** The answer line closes the block (faq_skeleton.py:61-65). */
  lemma LoadAnswer(c: seq<string>, line: string, patterns: seq<string>, questions: seq<seq<string>>,
                   answers: seq<seq<string>>, currentQuestions: seq<string>, currentAnswers: seq<string>)
    requires Loaded(c, AnswerLine, patterns, questions, answers, currentQuestions, currentAnswers)
    ensures Loaded(c + [line], PatternLine, patterns, questions, answers + [currentAnswers + [line]], currentQuestions, [])
  {
    PatternsOfAppend(c, line);
    QuestionsOfAppend(c, line);
    AnswersOfAppend(c, line);
    assert currentAnswers + [line] == [line];
  }

  /**
    `read_Q_A` over the file's lines: the three lists it returns are those of
    the block structure.
   */
  method ReadQA(lines: seq<string>) returns (patterns: seq<string>, questions: seq<seq<string>>, answers: seq<seq<string>>)
    ensures KnowledgeBase(patterns, questions, answers) == Parse(lines)
  {
    patterns, questions, answers := [], [], [];
    var section := PatternLine;
    var currentQuestions: seq<string> := [];
    var currentAnswers: seq<string> := [];
    ghost var c: seq<string> := [];
    for i := 0 to |lines|
      invariant c == Content(lines[..i])
      invariant Loaded(c, section, patterns, questions, answers, currentQuestions, currentAnswers)
    {
      ContentStep(lines, i);
      var line := Strip(lines[i]);
      if line == "" {
        assert c + [] == c;
        continue;
      }
      match section {
        case PatternLine =>
          LoadPattern(c, line, patterns, questions, answers, currentQuestions, currentAnswers);
          patterns := patterns + [line];
          section := QuestionLines;
        case QuestionLines =>
          LoadQuestion(c, line, patterns, questions, answers, currentQuestions, currentAnswers);
          currentQuestions := currentQuestions + [line];
          if |currentQuestions| == 2 {
            questions := questions + [currentQuestions];
            currentQuestions := [];
            section := AnswerLine;
          }
        case AnswerLine =>
          LoadAnswer(c, line, patterns, questions, answers, currentQuestions, currentAnswers);
          currentAnswers := currentAnswers + [line];
          answers := answers + [currentAnswers];
          currentAnswers := [];
          section := PatternLine;
      }
      c := c + [line];
    }
    assert lines[..|lines|] == lines;
  }

  /**
    Every question group holds two phrasings and every answer group one line;
    the pattern list runs one ahead of the answers except at a block boundary,
    and the question list one ahead only while an answer is awaited.
   */
  lemma ParseShape(lines: seq<string>)
    ensures var kb := Parse(lines);
      var section := SectionAfter(|Content(lines)|);
      && (forall k :: 0 <= k < |kb.questions| ==> |kb.questions[k]| == 2)
      && (forall k :: 0 <= k < |kb.answers| ==> |kb.answers[k]| == 1)
      && |kb.patterns| == |kb.answers| + (if section != PatternLine then 1 else 0)
      && |kb.questions| == |kb.answers| + (if section == AnswerLine then 1 else 0)
  {
  }

  /** A file of whole blocks gives three lists of equal length. */
  lemma CompleteBlocksAligned(lines: seq<string>)
    requires |Content(lines)| % 4 == 0
    ensures var kb := Parse(lines);
      |kb.patterns| == |kb.questions| == |kb.answers| == |Content(lines)| / 4
  {
  }

  lemma AnswerAt(c: seq<string>, i: int)
    requires StrippedLines(c)
    requires 0 <= i < |c| / 4
    ensures i < |AnswersOf(c)| && AnswersOf(c)[i] == [c[4 * i + 3]]
    ensures Strip(c[4 * i + 3]) == c[4 * i + 3]
  {
    assert 4 * i + 3 < |c|;
  }

  /** In a file of whole blocks, the answer of intent `i` is the block's last content line, already stripped. */
  lemma StoredAnswerLine(lines: seq<string>, i: int)
    requires 0 <= i < |Content(lines)| / 4
    ensures i < |Parse(lines).answers|
    ensures Parse(lines).answers[i] == [Content(lines)[4 * i + 3]]
    ensures Strip(Content(lines)[4 * i + 3]) == Content(lines)[4 * i + 3]
  {
    ContentStripped(lines);
    AnswerAt(Content(lines), i);
  }

  lemma {:induction false} ContentConcat(a: seq<string>, b: seq<string>)
    ensures Content(a + b) == Content(a) + Content(b)
    decreases |b|
  {
    if b != [] {
      var n := |b| - 1;
      var tail := var line := Strip(b[n]); if line == "" then [] else [line];
      assert (a + b)[..|a + b| - 1] == a + b[..n];
      assert (a + b)[|a + b| - 1] == b[n];
      calc {
        Content(a + b);
        Content(a + b[..n]) + tail;
        { ContentConcat(a, b[..n]); }
        Content(a) + Content(b[..n]) + tail;
        Content(a) + Content(b);
      }
    } else {
      assert a + b == a;
    }
  }

  /** A blank line anywhere in the file changes nothing. */
  lemma BlankLineIgnored(before: seq<string>, blank: string, after: seq<string>)
    requires forall k :: 0 <= k < |blank| ==> IsSpace(blank[k])
    ensures Parse(before + [blank] + after) == Parse(before + after)
  {
    assert Content([blank]) == [] by {
      StripEmptyIffBlank(blank);
      assert [blank][..0] == [];
    }
    calc {
      Content(before + [blank] + after);
      { ContentConcat(before + [blank], after); }
      Content(before + [blank]) + Content(after);
      { ContentConcat(before, [blank]); }
      Content(before) + Content([blank]) + Content(after);
      Content(before) + Content(after);
      { ContentConcat(before, after); }
      Content(before + after);
    }
  }
}
