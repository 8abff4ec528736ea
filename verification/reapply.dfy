/** Running the conversion a second time is not a no-op. In a run of Hangul
    syllables a rule rewrites only the rightmost occurrence of its ending, so an
    ending that occurs twice in one run is rewritten once per pass. Hence a
    reshaped reply, whose `general` texts have been converted once, changes
    again when it is reshaped again (`Normalizer.ReshapeTwice` needs an
    idempotent converter). */
module Reapply {
  import opened Wrappers
  import opened Text
  import opened Register
  import Normalizer

  /** Example content with the ending `해요` twice in one run, and what one and
      two passes of the ending rules make of it. */
  const Casual: string := "가해요해요"
  const FormalOnce: string := "가해요합니다"
  const FormalTwice: string := "가합니다합니다"

  // ---------------------------------------------------------------------------
  // The ending rules on the content

  /** The first rule rewrites only the second `해요`. */
  lemma FirstRuleOnce(s: string)
    requires s == Casual
    ensures ApplyRule(s, Rules[0]) == FormalOnce
  {
    assert RunEnd(s, 0) == 5;
    assert SuffixMatch(s, 0, "해요") == Some(3);
    RuleFromAtMatch(s, 0, "해요", "합니다", 3);
    assert s[0..3] + "합니다" + [] == FormalOnce;
  }

  /** Past the first `해요` of `FormalOnce` no match can start. */
  lemma NoMatchAfterFirst(s: string, p: nat)
    requires s == FormalOnce && 3 <= p < 6
    ensures SuffixMatch(s, p, "해요").None?
  {
  }

  /** In `FormalOnce` the rightmost `해요` of the run is the one at 1. */
  lemma SecondMatch(s: string)
    requires s == FormalOnce
    ensures SuffixMatch(s, 0, "해요") == Some(1)
  {
    assert RunEnd(s, 0) == 6;
    assert OccursAt(s, 1, "해요");
    assert LastOccurrence(s, "해요", 1, 1) == Some(1);
    assert LastOccurrence(s, "해요", 1, 3) == Some(1);
    assert LastOccurrence(s, "해요", 1, 6) == Some(1);
  }

  /** On its second pass the first rule rewrites the remaining `해요`. */
  lemma FirstRuleTwice(s: string)
    requires s == FormalOnce
    ensures ApplyRule(s, Rules[0]) == FormalTwice
  {
    SecondMatch(s);
    RuleFromAtMatch(s, 0, "해요", "합니다", 1);
    forall p | 3 <= p < 6
      ensures SuffixMatch(s, p, "해요").None?
    {
      NoMatchAfterFirst(s, p);
    }
    CopiesWithoutMatch(s, 3, 6, "해요", "합니다");
    assert s[0..1] + "합니다" + (s[3..6] + []) == FormalTwice;
  }

  /** The rules are the first one, then ten whose endings start with a
      character of neither text, then `해도 돼요`, then five more. */
  lemma RulesSplit()
    ensures Rules[1..] == Rules[1..11] + Rules[11..]
    ensures Rules[11..] != [] && Rules[11..][0] == Rule("해도 돼요", "해도 됩니다") && Rules[11..][1..] == Rules[12..]
  {
  }

  lemma MiddleRulesSkip(s: string)
    requires s == FormalOnce
    ensures ApplyRules(s, Rules[1..11]) == s
  {
    RulesWithoutSuffixes(s, Rules[1..11]);
  }

  /** `해도 돼요` holds a space, which `FormalOnce` lacks. */
  lemma SpacedRuleSkips(s: string)
    requires s == FormalOnce
    ensures ApplyRule(s, Rule("해도 돼요", "해도 됩니다")) == s
  {
    AbsentChar(s, "해도 돼요", ' ');
    RuleWithoutSuffix(s, "해도 돼요", "해도 됩니다");
  }

  lemma LastRulesSkip(s: string)
    requires s == FormalOnce
    ensures ApplyRules(s, Rules[12..]) == s
  {
    RulesWithoutSuffixes(s, Rules[12..]);
  }

  /** The rules after the first leave `FormalOnce` alone. */
  lemma LaterRulesSkipOnce(s: string)
    requires s == FormalOnce
    ensures ApplyRules(s, Rules[1..]) == s
  {
    RulesSplit();
    ApplyRulesAppend(s, Rules[1..11], Rules[11..]);
    MiddleRulesSkip(s);
    ApplyRulesStep(s, Rules[11..]);
    SpacedRuleSkips(s);
    LastRulesSkip(s);
  }

  /** The rules after the first leave `FormalTwice` alone. */
  lemma LaterRulesSkipTwice(s: string)
    requires s == FormalTwice
    ensures ApplyRules(s, Rules[1..]) == s
  {
    RulesWithoutSuffixes(s, Rules[1..]);
  }

  /** One pass of the ending rules over `Casual`. */
  lemma EndingsOnce(s: string)
    requires s == Casual
    ensures FormalEndings(s) == FormalOnce
  {
    ApplyRulesStep(s, Rules);
    FirstRuleOnce(s);
    LaterRulesSkipOnce(FormalOnce);
  }

  /** A second pass over its result changes it again. */
  lemma EndingsTwice(s: string)
    requires s == FormalOnce
    ensures FormalEndings(s) == FormalTwice
  {
    ApplyRulesStep(s, Rules);
    FirstRuleTwice(s);
    LaterRulesSkipTwice(FormalTwice);
  }

  // ---------------------------------------------------------------------------
  // The whole conversion on an example line, with either reinsertion

  /** Both reinsertions put content `c` after the label of `예시: x` when `x`
      does not start with a character of the label and `c` holds no `$`: the
      first occurrence of `x` in the match is then the one after the label. */
  lemma SpliceExample(x: string, c: string)
    requires x != [] && x[0] !in Labels[0] && '$' !in c
    ensures SpliceLabel(Labels[0] + x, x, c) == Labels[0] + c
    ensures SpliceFirst(Labels[0] + x, x, c) == Labels[0] + c
  {
    var m := Labels[0] + x;
    assert m[..|m| - |x|] == Labels[0];
    assert OccursAt(m, 4, x) by {
      assert m[4..4 + |x|] == x;
    }
    forall j | 0 <= j < 4
      ensures m[j] != x[0]
    {
      assert m[j] == Labels[0][j];
    }
    IndexOfFirst(m, x, 0, 4);
    ExpandLiteral(c, x, m[..4], m[4 + |x|..]);
    assert m[..4] == Labels[0] && m[4 + |x|..] == [];
  }

  /** A one-line example `예시: x` is the labelled span of the first label pattern. */
  lemma ExampleLinePass(x: string, inner: string -> string, splice: Splice)
    requires x != [] && '\n' !in x
    ensures LabelPass(Labels[0] + x, Labels[0], inner, splice) == splice(Labels[0] + x, x, inner(x))
  {
    var s := Labels[0] + x;
    assert s[..4] == Labels[0];
    assert s[4] == x[0];
    forall k | 4 <= k < |s|
      ensures s[k] != '\n'
    {
      assert s[k] == x[k - 4];
    }
    IndexOfFromSkip(s, 4, |s|, '\n');
    LabelPassAtLabel(s, Labels[0], inner, splice);
    assert s[..|s|] == s && s[4..|s|] == x && s[|s|..] == [];
  }

  /** The example lines before and after each pass. */
  const CasualLine: string := "예시: 가해요해요"
  const OnceLine: string := "예시: 가해요합니다"
  const TwiceLine: string := "예시: 가합니다합니다"

  lemma LinesLabelled()
    ensures CasualLine == Labels[0] + Casual
    ensures OnceLine == Labels[0] + FormalOnce
    ensures TwiceLine == Labels[0] + FormalTwice
  {
  }

  /** The label patterns after the first find nothing in the converted lines. */
  lemma LaterLabelsAbsent(t: string, splice: Splice)
    requires t == OnceLine || t == TwiceLine
    ensures LabelPasses(t, Labels[1..], splice) == t
  {
    LabelPassesWithoutLabels(t, Labels[1..], "를이음음이이이음이", splice);
  }

  /** The first label pattern over `예시: 가해요해요` converts its content,
      given a reinsertion that puts it after the label. */
  lemma FirstLabelOnce(text: string, splice: Splice)
    requires text == CasualLine
    requires splice(CasualLine, Casual, FormalOnce) == OnceLine
    ensures LabelPass(text, Labels[0], FormalEndings, splice) == OnceLine
  {
    LinesLabelled();
    ExampleLinePass(Casual, FormalEndings, splice);
    EndingsOnce(Casual);
  }

  lemma FirstLabelAgain(text: string, splice: Splice)
    requires text == OnceLine
    requires splice(OnceLine, FormalOnce, FormalTwice) == TwiceLine
    ensures LabelPass(text, Labels[0], FormalEndings, splice) == TwiceLine
  {
    LinesLabelled();
    ExampleLinePass(FormalOnce, FormalEndings, splice);
    EndingsTwice(FormalOnce);
  }

  /** When the later label patterns leave the first one's result alone, the
      label passes end with that result. */
  lemma FirstLabelOnly(text: string, line: string, labels: seq<string>, splice: Splice)
    requires labels != [] && forall j :: 0 <= j < |labels| ==> labels[j] != []
    requires LabelPass(text, labels[0], FormalEndings, splice) == line
    requires LabelPasses(line, labels[1..], splice) == line
    ensures LabelPasses(text, labels, splice) == line
  {
    LabelPassesStep(text, labels, splice);
  }

  lemma LineNoQuotes(t: string)
    requires t == OnceLine || t == TwiceLine
    ensures '"' !in t && '\'' !in t
  {
  }

  lemma LabelsNonEmpty()
    ensures Labels != [] && forall j :: 0 <= j < |Labels| ==> Labels[j] != []
  {
  }

  /** Of the label patterns only the first acts on the example lines. */
  lemma LabelsOnce(text: string, splice: Splice)
    requires text == CasualLine
    requires splice(CasualLine, Casual, FormalOnce) == OnceLine
    ensures LabelPasses(text, Labels, splice) == OnceLine
  {
    FirstLabelOnce(text, splice);
    LaterLabelsAbsent(OnceLine, splice);
    LabelsNonEmpty();
    FirstLabelOnly(text, OnceLine, Labels, splice);
  }

  lemma LabelsAgain(text: string, splice: Splice)
    requires text == OnceLine
    requires splice(OnceLine, FormalOnce, FormalTwice) == TwiceLine
    ensures LabelPasses(text, Labels, splice) == TwiceLine
  {
    FirstLabelAgain(text, splice);
    LaterLabelsAbsent(TwiceLine, splice);
    LabelsNonEmpty();
    FirstLabelOnly(text, TwiceLine, Labels, splice);
  }

  lemma ConvertOnce(text: string, splice: Splice)
    requires text == CasualLine
    requires splice(CasualLine, Casual, FormalOnce) == OnceLine
    ensures ConvertWith(text, splice) == OnceLine
  {
    LabelsOnce(text, splice);
    LineNoQuotes(OnceLine);
    ConvertThroughLabels(text, splice, OnceLine);
  }

  lemma ConvertAgain(text: string, splice: Splice)
    requires text == OnceLine
    requires splice(OnceLine, FormalOnce, FormalTwice) == TwiceLine
    ensures ConvertWith(text, splice) == TwiceLine
  {
    LabelsAgain(text, splice);
    LineNoQuotes(TwiceLine);
    ConvertThroughLabels(text, splice, TwiceLine);
  }

  /** Both reinsertions put the converted content of either example line
      after its label. */
  lemma SplicesAtExamples(x1: string, c1: string, x2: string, c2: string)
    requires x1 == Casual && c1 == FormalOnce && x2 == FormalOnce && c2 == FormalTwice
    ensures SpliceLabel(CasualLine, x1, c1) == OnceLine && SpliceFirst(CasualLine, x1, c1) == OnceLine
    ensures SpliceLabel(OnceLine, x2, c2) == TwiceLine && SpliceFirst(OnceLine, x2, c2) == TwiceLine
  {
    LinesLabelled();
    SpliceExample(x1, c1);
    SpliceExample(x2, c2);
  }

  /** A text that a function changes on its second application shows the
      function is not idempotent. */
  lemma ChangedAgain(f: string -> string, t: string, once: string, twice: string)
    requires f(t) == once && f(once) == twice && once != twice
    ensures f(f(t)) != f(t)
    ensures !Normalizer.Idempotent(f)
  {
  }

  /** The lines after one and after two runs differ in their sixth character. */
  lemma LinesDiffer(once: string, twice: string)
    requires once == OnceLine && twice == TwiceLine
    ensures once != twice
  {
    assert once[5] != twice[5];
  }

  /** `convertToFormalStyle` as written is not idempotent: its second run on
      `예시: 가해요해요` rewrites the `해요` that the first run left. */
  lemma ConvertAsWrittenNotIdempotent(text: string)
    requires text == CasualLine
    ensures ConvertAsWritten(text) == OnceLine && ConvertAsWritten(ConvertAsWritten(text)) == TwiceLine
    ensures ConvertAsWritten(ConvertAsWritten(text)) != ConvertAsWritten(text)
    ensures !Normalizer.Idempotent(ConvertAsWritten)
  {
    SplicesAtExamples(Casual, FormalOnce, FormalOnce, FormalTwice);
    ConvertOnce(text, SpliceFirst);
    var once := ConvertAsWritten(text);
    ConvertAgain(once, SpliceFirst);
    var twice := ConvertAsWritten(once);
    LinesDiffer(once, twice);
    ChangedAgain(ConvertAsWritten, text, once, twice);
  }

  /** The same holds with labels reinserted as intended: the second pass comes
      from the ending rules, not from the reinsertion. */
  lemma ConvertNotIdempotent(text: string)
    requires text == CasualLine
    ensures Convert(text) == OnceLine && Convert(Convert(text)) == TwiceLine
    ensures Convert(Convert(text)) != Convert(text)
    ensures !Normalizer.Idempotent(Convert)
  {
    SplicesAtExamples(Casual, FormalOnce, FormalOnce, FormalTwice);
    ConvertOnce(text, SpliceLabel);
    var once := Convert(text);
    ConvertAgain(once, SpliceLabel);
    var twice := Convert(once);
    LinesDiffer(once, twice);
    ChangedAgain(Convert, text, once, twice);
  }
}
