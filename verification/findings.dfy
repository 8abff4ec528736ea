/** Two inputs on which the source's reinsertion of a converted labelled span,
    `match.replace(p1, converted)`, differs from the evident intent of keeping
    the label and replacing the rest of the line. Each is worked through the
    whole conversion, once as written (`Register.ConvertAsWritten`) and once
    corrected (`Register.Convert`). Every step on a concrete text is its own
    small lemma; the steps are joined through the generic lemmas of `Register`. */
module Findings {
  import opened Wrappers
  import opened Text
  import opened Register

  // ---------------------------------------------------------------------------
  // A `$` pair in the converted text is read as a replacement pattern

  /** An example line whose content is a literal `$$`. */
  const DollarText: string := "예시: $$"
  const DollarPair: string := "$$"
  const DollarResult: string := "예시: $"

  /** `DollarText` opens with the label `예시: ` and its line runs to the end. */
  lemma DollarLabelAt(s: string)
    requires s == DollarText
    ensures LabelAt(s, Labels[0]) && IndexOfFrom(s, 4, '\n') == 6
  {
    assert s[..4] == Labels[0];
    IndexOfFromSkip(s, 4, 6, '\n');
  }

  /** The labelled span of `DollarText` is the whole text, with content `$$`. */
  lemma DollarSpan(s: string, p: string, inner: string -> string, splice: Splice)
    requires s == DollarText && p == "$$"
    ensures LabelPass(s, Labels[0], inner, splice) == splice(s, p, inner(p))
  {
    DollarLabelAt(s);
    assert s[..6] == s && s[4..6] == p && s[6..] == [];
    LabelPassAtLabel(s, Labels[0], inner, splice);
  }

  /** No rule touches a span without Hangul. */
  lemma DollarFormal(p: string)
    requires p == "$$"
    ensures FormalEndings(p) == p
  {
    RulesFixNonHangul(p, Rules);
  }

  /** The source's splice finds `$$` after the label and, reading the converted
      text as a replacement pattern, writes a single `$`. */
  lemma DollarSpliceFirst(m: string, p: string)
    requires m == DollarText && p == "$$"
    ensures SpliceFirst(m, p, p) == DollarResult
  {
    assert OccursAt(m, 4, p);
    IndexOfFirst(m, p, 0, 4);
    assert Expand(p, p, m[..4], m[6..]) == "$";
  }

  /** The label patterns after the first find nothing in these texts. */
  lemma LaterLabelsAbsent(s: string, splice: Splice)
    requires s == DollarText || s == DollarResult
    ensures LabelPasses(s, Labels[1..], splice) == s
  {
    LabelPassesWithoutLabels(s, Labels[1..], "를이다다이이이다이", splice);
  }

  /** Only the first label pattern acts on `DollarText`. */
  lemma DollarLabelPasses(text: string, splice: Splice)
    requires text == DollarText
    ensures LabelPasses(text, Labels, splice) == LabelPasses(splice(text, DollarPair, DollarPair), Labels[1..], splice)
  {
    DollarSpan(text, DollarPair, FormalEndings, splice);
    DollarFormal(DollarPair);
  }

  /** The label passes as written lose one `$`. */
  lemma DollarLabelsAsWritten(text: string)
    requires text == DollarText
    ensures LabelPasses(text, Labels, SpliceFirst) == DollarResult
  {
    DollarLabelPasses(text, SpliceFirst);
    DollarSpliceFirst(text, DollarPair);
    LaterLabelsAbsent(DollarResult, SpliceFirst);
  }

  /** The corrected splice puts the unchanged content back after the label. */
  lemma DollarSpliceLabel(m: string, p: string)
    requires m == DollarText && p == DollarPair
    ensures SpliceLabel(m, p, p) == m
  {
    assert m[..4] + p == m;
  }

  /** The corrected label passes leave `DollarText` as it was. */
  lemma DollarLabelsCorrected(text: string)
    requires text == DollarText
    ensures LabelPasses(text, Labels, SpliceLabel) == DollarText
  {
    DollarLabelPasses(text, SpliceLabel);
    DollarSpliceLabel(text, DollarPair);
    LaterLabelsAbsent(DollarText, SpliceLabel);
  }

  /** Neither text holds a quote character. */
  lemma DollarNoQuotes(s: string)
    requires s == DollarText || s == DollarResult
    ensures s != [] && '"' !in s && '\'' !in s
  {
  }

  /** As written: the conversion turns `예시: $$` into `예시: $`, although the
      span holds no Hangul and no rule touches it. */
  lemma DollarAsWritten(text: string)
    requires text == DollarText
    ensures ConvertAsWritten(text) == DollarResult
  {
    DollarLabelsAsWritten(text);
    DollarNoQuotes(text);
    DollarNoQuotes(DollarResult);
    ConvertThroughLabels(text, SpliceFirst, DollarResult);
  }

  /** Corrected: a span without Hangul comes back exactly as it was. */
  lemma DollarCorrected(text: string)
    requires text == DollarText
    ensures Convert(text) == text
  {
    DollarLabelsCorrected(text);
    DollarNoQuotes(text);
    ConvertThroughLabels(text, SpliceLabel, text);
  }

  // ---------------------------------------------------------------------------
  // The converted text lands in the label when the label repeats the content

  /** A model-sentence line whose label ends with the same words as its content. */
  const EchoText: string := "이렇게 써보세요: 보세요"
  const EchoContent: string := "보세요"
  const EchoFormal: string := "보십시오"
  const EchoAsWrittenResult: string := "이렇게 써보십시오: 보세요"
  const EchoIntended: string := "이렇게 써보세요: 보십시오"

  /** The rule for `세요` is the fourth in the list. */
  lemma RulesAroundSeyo()
    ensures Rules == Rules[..3] + Rules[3..]
    ensures Rules[3..] != [] && Rules[3..][0] == Rule("세요", "십시오") && Rules[3..][1..] == Rules[4..]
  {
  }

  /** The rule for `세요` makes `보세요` formal. */
  lemma SeyoRule(s: string)
    requires s == EchoContent
    ensures ApplyRule(s, Rule("세요", "십시오")) == EchoFormal
  {
    assert RunEnd(s, 0) == 3;
    assert OccursAt(s, 1, "세요");
    assert SuffixMatch(s, 0, "세요") == Some(1);
    RuleFromAtMatch(s, 0, "세요", "십시오", 1);
    assert s[0..1] + "십시오" + [] == EchoFormal;
  }

  /** The rules before it find nothing in `보세요`. */
  lemma EarlyRulesSkip(s: string)
    requires s == EchoContent
    ensures ApplyRules(s, Rules[..3]) == s
  {
    RulesWithoutSuffixes(s, Rules[..3]);
  }

  /** The rules after it find nothing in `보십시오`. */
  lemma LateRulesSkip(s: string)
    requires s == EchoFormal
    ensures ApplyRules(s, Rules[4..]) == s
  {
    RulesWithoutSuffixes(s, Rules[4..]);
  }

  /** The ending `세요` becomes `십시오`; nothing else in the list applies. */
  lemma FormalBoseyo(s: string)
    requires s == EchoContent
    ensures FormalEndings(s) == EchoFormal
  {
    RulesAroundSeyo();
    ApplyRulesAppend(s, Rules[..3], Rules[3..]);
    EarlyRulesSkip(s);
    ApplyRulesStep(s, Rules[3..]);
    SeyoRule(s);
    LateRulesSkip(EchoFormal);
  }

  /** `EchoText` opens with the label `이렇게 써보세요: ` and its line runs to the end. */
  lemma EchoLabelAt(s: string)
    requires s == EchoText
    ensures LabelAt(s, Labels[2]) && IndexOfFrom(s, 10, '\n') == 13
  {
    assert s[..10] == Labels[2];
    IndexOfFromSkip(s, 10, 13, '\n');
  }

  /** The labelled span of `EchoText` is the whole text, with content `보세요`. */
  lemma EchoSpan(s: string, p: string, inner: string -> string, splice: Splice)
    requires s == EchoText && p == EchoContent
    ensures LabelPass(s, Labels[2], inner, splice) == splice(s, p, inner(p))
  {
    EchoLabelAt(s);
    assert s[..13] == s && s[10..13] == p && s[13..] == [];
    LabelPassAtLabel(s, Labels[2], inner, splice);
  }

  /** The label `이렇게 써보세요: ` is the third pattern. */
  lemma LabelsAroundEcho()
    ensures Labels == Labels[..2] + Labels[2..]
    ensures Labels[2..] != [] && Labels[2..][0] == Labels[2] && Labels[2..][1..] == Labels[3..]
  {
  }

  /** The first two label patterns find nothing in `EchoText`. */
  lemma EarlyLabelsAbsent(s: string, splice: Splice)
    requires s == EchoText
    ensures LabelPasses(s, Labels[..2], splice) == s
  {
    LabelPassesWithoutLabels(s, Labels[..2], "예예", splice);
  }

  /** Up to the third pattern, only the third acts on `EchoText`. */
  lemma EchoLabelPasses(text: string, splice: Splice)
    requires text == EchoText
    ensures LabelPasses(text, Labels, splice) == LabelPasses(splice(text, EchoContent, EchoFormal), Labels[3..], splice)
  {
    LabelsAroundEcho();
    LabelPassesAppend(text, Labels[..2], Labels[2..], splice);
    EarlyLabelsAbsent(text, splice);
    LabelPassesStep(text, Labels[2..], splice);
    EchoSpan(text, EchoContent, FormalEndings, splice);
    FormalBoseyo(EchoContent);
  }

  /** The source's splice replaces the first `보세요`, which is inside the label. */
  lemma EchoSpliceFirst(m: string, p: string, c: string)
    requires m == EchoText && p == EchoContent && c == EchoFormal
    ensures SpliceFirst(m, p, c) == EchoAsWrittenResult
  {
    assert OccursAt(m, 5, p);
    IndexOfFirst(m, p, 0, 5);
    ExpandLiteral(c, p, m[..5], m[8..]);
    EchoAround(m);
    EchoJoined(m[..5], c, m[8..]);
  }

  /** The text around the first `보세요` of `EchoText`. */
  lemma EchoAround(m: string)
    requires m == EchoText
    ensures m[..5] == "이렇게 써" && m[8..] == ": 보세요"
  {
  }

  lemma EchoJoined(a: string, c: string, b: string)
    requires a == "이렇게 써" && c == EchoFormal && b == ": 보세요"
    ensures a + c + b == EchoAsWrittenResult
  {
  }

  /** The corrected splice keeps the label and replaces the content. */
  lemma EchoSpliceLabel(m: string, p: string, c: string)
    requires m == EchoText && p == EchoContent && c == EchoFormal
    ensures SpliceLabel(m, p, c) == EchoIntended
  {
    assert m[..10] + c == EchoIntended;
  }

  /** The label patterns after the third find nothing in either result. */
  lemma LateLabelsAbsent(s: string, splice: Splice)
    requires s == EchoAsWrittenResult || s == EchoIntended
    ensures LabelPasses(s, Labels[3..], splice) == s
  {
    LabelPassesWithoutLabels(s, Labels[3..], "다다런바런다런", splice);
  }

  /** None of these texts holds a quote character. */
  lemma EchoNoQuotes(s: string)
    requires s == EchoText || s == EchoAsWrittenResult || s == EchoIntended
    ensures s != [] && '"' !in s && '\'' !in s
  {
  }

  /** As written: the label is rewritten and the example after it is left casual. */
  lemma EchoAsWritten(text: string)
    requires text == EchoText
    ensures ConvertAsWritten(text) == EchoAsWrittenResult
  {
    EchoLabelPasses(text, SpliceFirst);
    EchoSpliceFirst(text, EchoContent, EchoFormal);
    LateLabelsAbsent(EchoAsWrittenResult, SpliceFirst);
    EchoNoQuotes(text);
    EchoNoQuotes(EchoAsWrittenResult);
    ConvertThroughLabels(text, SpliceFirst, EchoAsWrittenResult);
  }

  /** Corrected: the label is kept and the example is made formal. */
  lemma EchoCorrected(text: string)
    requires text == EchoText
    ensures Convert(text) == EchoIntended
  {
    EchoLabelPasses(text, SpliceLabel);
    EchoSpliceLabel(text, EchoContent, EchoFormal);
    LateLabelsAbsent(EchoIntended, SpliceLabel);
    EchoNoQuotes(text);
    EchoNoQuotes(EchoIntended);
    ConvertThroughLabels(text, SpliceLabel, EchoIntended);
  }
}
