/** `compileEssay` and the empty-essay guard of `handleSubmit`: the draft is
    flattened into one labelled text that becomes the prompt payload. */
module Compiler {
  import opened Wrappers
  import opened Text
  import opened EssayDraft

  /** The title and introduction lines; the blank line between them holds four spaces. */
  function Header(d: Draft): string {
    "제목: " + d.title + "\n    \n서론: " + d.introduction + "\n\n"
  }

  /** The block for the `k`-th body section (numbered from one). */
  function Block(k: nat, s: Section): string {
    "본론 " + Decimal(k) + ":\nO (의견): " + s.opinion + "\nR (이유): " + s.reason
      + "\nE (예시): " + s.example + "\nO (의견 재강조): " + s.reemphasis + "\n\n"
  }

  /** The blocks of `s`, numbered consecutively from `k`. */
  function Blocks(s: seq<Section>, k: nat): string
    decreases |s|
  {
    if s == [] then "" else Block(k, s[0]) + Blocks(s[1..], k + 1)
  }

  function Footer(d: Draft): string {
    "결론: " + d.conclusion
  }

  /** The layout of a compiled essay: header, one block per section, conclusion. */
  function Compiled(d: Draft): string {
    Header(d) + Blocks(d.sections, 1) + Footer(d)
  }

  /** `compileEssay`: starts from the header, appends one block per section in a
      loop, then the conclusion line. */
  method CompileEssay(d: Draft) returns (essay: string)
    ensures essay == Compiled(d)
  {
    essay := Header(d);
    var i := 0;
    while i < |d.sections|
      invariant 0 <= i <= |d.sections|
      invariant essay == Header(d) + Blocks(d.sections[..i], 1)
    {
      BlocksSnoc(d.sections, i);
      AppendAssoc(Header(d), Blocks(d.sections[..i], 1), Block(i + 1, d.sections[i]));
      essay := essay + Block(i + 1, d.sections[i]);
      i := i + 1;
    }
    assert d.sections[..i] == d.sections;
    essay := essay + Footer(d);
  }

  /** A compiled essay opens with the title line and closes with the conclusion line. */
  lemma CompiledFrame(d: Draft)
    ensures var essay := Compiled(d);
      && |essay| >= |"제목: " + d.title| + |"결론: " + d.conclusion|
      && essay[..|"제목: " + d.title|] == "제목: " + d.title
      && essay[|essay| - |"결론: " + d.conclusion|..] == "결론: " + d.conclusion
  {
    var head := "제목: " + d.title;
    var rest := "\n    \n서론: " + d.introduction + "\n\n" + Blocks(d.sections, 1);
    var foot := Footer(d);
    assert Compiled(d) == head + rest + foot;
  }

  /** Blocks of consecutive section lists are consecutive: the numbering runs
      on without gaps, in section order. */
  lemma {:induction false} BlocksAppend(s: seq<Section>, t: seq<Section>, k: nat)
    ensures Blocks(s + t, k) == Blocks(s, k) + Blocks(t, k + |s|)
    decreases |s|
  {
    if s == [] {
      assert s + t == t;
    } else {
      assert (s + t)[0] == s[0];
      assert (s + t)[1..] == s[1..] + t;
      BlocksAppend(s[1..], t, k + 1);
    }
  }

  /** The blocks of a section list, one section at a time from the front. */
  lemma BlocksStep(s: seq<Section>, i: nat, k: nat)
    requires i < |s|
    ensures Blocks(s[i..], k) == Block(k, s[i]) + Blocks(s[i + 1..], k + 1)
  {
    assert s[i..][1..] == s[i + 1..];
  }

  /** One more section adds its block at the end. */
  lemma BlocksSnoc(s: seq<Section>, i: nat)
    requires i < |s|
    ensures Blocks(s[..i + 1], 1) == Blocks(s[..i], 1) + Block(i + 1, s[i])
  {
    assert s[..i + 1] == s[..i] + [s[i]];
    BlocksAppend(s[..i], [s[i]], 1);
    assert Blocks([s[i]], i + 1) == Block(i + 1, s[i]) + "";
  }

  /** The `i`-th section (from zero) sits in the block headed `본론 i+1:`, with
      the blocks of the earlier sections before it and those of the later ones after it. */
  lemma BlockOfSection(s: seq<Section>, i: nat)
    requires i < |s|
    ensures Blocks(s, 1) == Blocks(s[..i], 1) + Block(i + 1, s[i]) + Blocks(s[i + 1..], i + 2)
  {
    assert s == s[..i] + s[i..];
    BlocksAppend(s[..i], s[i..], 1);
    BlocksStep(s, i, i + 1);
    AppendAssoc(Blocks(s[..i], 1), Block(i + 1, s[i]), Blocks(s[i + 1..], i + 2));
  }

  /** Each block opens with its heading `본론 k:`. */
  lemma BlockHeading(k: nat, s: Section)
    ensures Block(k, s)[..|"본론 " + Decimal(k) + ":\n"|] == "본론 " + Decimal(k) + ":\n"
  {
    var head := "본론 " + Decimal(k) + ":\n";
    var rest := "O (의견): " + s.opinion + "\nR (이유): " + s.reason
      + "\nE (예시): " + s.example + "\nO (의견 재강조): " + s.reemphasis + "\n\n";
    assert Block(k, s) == head + rest;
  }

  /** Adding a section adds exactly one block, numbered one past the last, just
      before the conclusion; nothing else in the essay moves. */
  lemma CompileAfterAdd(d: Draft, newId: string)
    ensures Compiled(AddSection(d, newId))
      == Header(d) + Blocks(d.sections, 1) + Block(|d.sections| + 1, Blank(newId)) + Footer(d)
  {
    BlocksAppend(d.sections, [Blank(newId)], 1);
  }

  /** Two section lists that agree on everything but their ids. */
  predicate SameTexts(s: seq<Section>, t: seq<Section>) {
    |s| == |t| && forall i :: 0 <= i < |s| ==> s[i].(id := "") == t[i].(id := "")
  }

  /** Section ids never reach the prompt. */
  lemma {:induction false} CompileIgnoresIds(d: Draft, e: Draft)
    requires d.title == e.title && d.introduction == e.introduction && d.conclusion == e.conclusion
    requires SameTexts(d.sections, e.sections)
    ensures Compiled(d) == Compiled(e)
  {
    BlocksIgnoreIds(d.sections, e.sections, 1);
  }

  lemma {:induction false} BlocksIgnoreIds(s: seq<Section>, t: seq<Section>, k: nat)
    requires SameTexts(s, t)
    ensures Blocks(s, k) == Blocks(t, k)
    decreases |s|
  {
    if s != [] {
      assert s[0].(id := "") == t[0].(id := "");
      assert SameTexts(s[1..], t[1..]) by {
        forall i | 0 <= i < |s| - 1 ensures s[1..][i].(id := "") == t[1..][i].(id := "") {
          assert s[1..][i] == s[i + 1] && t[1..][i] == t[i + 1];
        }
      }
      BlocksIgnoreIds(s[1..], t[1..], k + 1);
    }
  }

  /** The validation message shown when the compiled essay is blank. */
  const EmptyEssayMessage: string := "첨삭할 글을 입력해주세요."

  /** The guard at the top of `handleSubmit`: a compiled essay that trims to
      nothing is refused before any request is made. */
  function Submit(d: Draft): (r: Result<string, string>)
    ensures r.Err? <==> Trim(Compiled(d)) == []
    ensures r.Err? ==> r.error == EmptyEssayMessage
    ensures r.Ok? ==> r.value == Compiled(d)
  {
    var essay := Compiled(d);
    if Trim(essay) == [] then Err(EmptyEssayMessage) else Ok(essay)
  }

  /** The labels alone make the compiled text non-blank, so the guard never
      fires, even for a draft whose fields are all empty. */
  lemma SubmitNeverRefuses(d: Draft)
    ensures Trim(Compiled(d)) != []
    ensures Submit(d).Ok?
  {
    var essay := Compiled(d);
    assert essay[0] == '제';
    assert !IsJsSpace(essay[0]);
    TrimEmptyIff(essay);
  }
}
