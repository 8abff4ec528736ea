/** `convertToFormalStyle`: rewrites casual (해요체) sentence endings into the formal
    register (합니다체), but only inside recognised example spans: the rest of a line
    after one of ten introductory labels, or a non-empty double- or single-quoted span.

    Each regex is modelled by a hand-written matcher with the same leftmost, greedy,
    global-scan behaviour; `[가-힣]` is `Text.IsHangul`. */
module Register {
  import opened Wrappers
  import opened Text

  // ---------------------------------------------------------------------------
  // Suffix rules: `/([가-힣]+)from/g` replaced by `$1to`

  datatype Rule = Rule(from: string, to: string)

  /** The seventeen rules, in the order they are applied. */
  const Rules: seq<Rule> := [
    Rule("해요", "합니다"), Rule("예요", "입니다"), Rule("네요", "습니다"), Rule("세요", "십시오"),
    Rule("이에요", "입니다"), Rule("죠", "지요"), Rule("거예요", "것입니다"), Rule("을까요", "을까요"),
    Rule("나요", "납니다"), Rule("아요", "습니다"), Rule("어요", "습니다"), Rule("해도 돼요", "해도 됩니다"),
    Rule("하세요", "하십시오"), Rule("이에요", "입니다"), Rule("게요", "겠습니다"), Rule("군요", "군요"),
    Rule("겠네요", "겠습니다")]

  /** The end of the maximal run of Hangul syllables that starts at `i`. */
  function RunEnd(s: string, i: nat): (e: nat)
    requires i <= |s|
    ensures i <= e <= |s|
    decreases |s| - i
  {
    if i < |s| && IsHangul(s[i]) then RunEnd(s, i + 1) else i
  }

  /** Every position in `[i, e)` holds a Hangul syllable. */
  predicate HangulSpan(s: string, i: nat, e: nat)
    requires i <= e <= |s|
  {
    forall k :: i <= k < e ==> IsHangul(s[k])
  }

  /** The run is all Hangul and cannot be extended: it ends at the end of the
      text or at a character outside `[가-힣]`. */
  lemma {:induction false} RunEndSpec(s: string, i: nat)
    requires i <= |s|
    ensures HangulSpan(s, i, RunEnd(s, i))
    ensures RunEnd(s, i) == |s| || !IsHangul(s[RunEnd(s, i)])
    decreases |s| - i
  {
    if i < |s| && IsHangul(s[i]) {
      RunEndSpec(s, i + 1);
    }
  }

  /** A Hangul stretch starting at `i` lies inside the run from `i`. */
  lemma {:induction false} RunEndCovers(s: string, i: nat, j: nat)
    requires i <= j <= |s| && HangulSpan(s, i, j)
    ensures j <= RunEnd(s, i)
    decreases j - i
  {
    if i < j {
      assert IsHangul(s[i]);
      RunEndCovers(s, i + 1, j);
    }
  }

  /** Every position inside a run, and the position just past it, ends the same run. */
  lemma {:induction false} RunEndWithin(s: string, i: nat, p: nat)
    requires i <= |s|
    requires i <= p <= RunEnd(s, i)
    ensures RunEnd(s, p) == RunEnd(s, i)
    decreases p - i
  {
    if i < p {
      RunEndWithin(s, i + 1, p);
    }
  }

  /** `w` occurs at no position of `[lo, hi]`. */
  predicate NoOccurrence(s: string, w: string, lo: nat, hi: nat) {
    forall k :: lo <= k <= hi ==> !OccursAt(s, k, w)
  }

  /** The largest `k` in `[lo, hi]` at which `w` occurs in `s`. */
  function LastOccurrence(s: string, w: string, lo: nat, hi: nat): (r: Option<nat>)
    ensures r.Some? ==> lo <= r.value <= hi && OccursAt(s, r.value, w)
    decreases hi
  {
    if hi < lo then None
    else if OccursAt(s, hi, w) then Some(hi)
    else if hi == 0 then None
    else LastOccurrence(s, w, lo, hi - 1)
  }

  /** No occurrence lies above the one found, and none at all in the range when
      nothing is found. */
  lemma {:induction false} LastOccurrenceIsLast(s: string, w: string, lo: nat, hi: nat)
    ensures var r := LastOccurrence(s, w, lo, hi);
      && (r.Some? ==> NoOccurrence(s, w, r.value + 1, hi))
      && (r.None? ==> NoOccurrence(s, w, lo, hi))
    decreases hi
  {
    if lo <= hi && !OccursAt(s, hi, w) && hi != 0 {
      LastOccurrenceIsLast(s, w, lo, hi - 1);
    }
  }

  /** The match of `([가-힣]+)w` attempted at `i`: the end `q` of the captured
      syllables. The greedy `+` first takes the whole run and then backs off one
      syllable at a time, so `q` is the LAST position of the run, past its first
      syllable, where `w` occurs. */
  function SuffixMatch(s: string, i: nat, w: string): (r: Option<nat>)
    requires i <= |s|
    ensures r.Some? ==> i < r.value <= RunEnd(s, i) && OccursAt(s, r.value, w)
  {
    LastOccurrence(s, w, i + 1, RunEnd(s, i))
  }

  /** Greediness: the match leaves no occurrence of `w` further right in the run,
      and a failed match means `w` occurs nowhere in the run past its first syllable. */
  lemma SuffixMatchIsGreedy(s: string, i: nat, w: string)
    requires i <= |s|
    ensures var r := SuffixMatch(s, i, w);
      && (r.Some? ==> NoOccurrence(s, w, r.value + 1, RunEnd(s, i)))
      && (r.None? ==> NoOccurrence(s, w, i + 1, RunEnd(s, i)))
  {
    LastOccurrenceIsLast(s, w, i + 1, RunEnd(s, i));
  }

  /** The global replacement scanning from `i`: where a match starts, the captured
      syllables are kept, `w` becomes `rep`, and the scan resumes after the match;
      elsewhere one character is copied. */
  function RuleFrom(s: string, i: nat, w: string, rep: string): string
    requires i <= |s|
    decreases |s| - i
  {
    if i == |s| then []
    else match SuffixMatch(s, i, w)
      case Some(q) => s[i..q] + rep + RuleFrom(s, q + |w|, w, rep)
      case None => [s[i]] + RuleFrom(s, i + 1, w, rep)
  }

  /** One step of the scan where a match starts. */
  lemma RuleFromAtMatch(s: string, i: nat, w: string, rep: string, q: nat)
    requires i < |s| && SuffixMatch(s, i, w) == Some(q)
    ensures RuleFrom(s, i, w, rep) == s[i..q] + rep + RuleFrom(s, q + |w|, w, rep)
  {
  }

  /** One step of the scan where no match starts. */
  lemma RuleFromNoMatch(s: string, i: nat, w: string, rep: string)
    requires i < |s| && SuffixMatch(s, i, w).None?
    ensures RuleFrom(s, i, w, rep) == [s[i]] + RuleFrom(s, i + 1, w, rep)
  {
  }

  function ApplyRule(s: string, r: Rule): string {
    RuleFrom(s, 0, r.from, r.to)
  }

  /** The rules applied one after another, each to the previous one's output. */
  function ApplyRules(s: string, rules: seq<Rule>): string
    decreases |rules|
  {
    if rules == [] then s else ApplyRules(ApplyRule(s, rules[0]), rules[1..])
  }

  /** The conversion applied inside every example span. */
  function FormalEndings(s: string): string {
    ApplyRules(s, Rules)
  }

  // ---------------------------------------------------------------------------
  // An independent description of one rule: run by run

  /** In one Hangul run, only the last occurrence of `w` that does not start the
      run is rewritten. */
  function RewriteRun(run: string, w: string, rep: string): string {
    match LastOccurrence(run, w, 1, |run|)
    case None => run
    case Some(k) => run[..k] + rep + run[k + |w|..]
  }

  /** The text cut into maximal Hangul runs and single other characters; each run
      is rewritten on its own, everything else is copied. */
  function RunwiseFrom(s: string, i: nat, w: string, rep: string): string
    requires i <= |s|
    decreases |s| - i
  {
    if i == |s| then []
    else if !IsHangul(s[i]) then [s[i]] + RunwiseFrom(s, i + 1, w, rep)
    else
      var e := RunEnd(s, i);
      RewriteRun(s[i..e], w, rep) + RunwiseFrom(s, e, w, rep)
  }

  /** Where no match can start in `[j, e)`, the scan copies that stretch verbatim. */
  lemma {:induction false} CopiesWithoutMatch(s: string, j: nat, e: nat, w: string, rep: string)
    requires j <= e <= |s|
    requires forall p :: j <= p < e ==> SuffixMatch(s, p, w).None?
    ensures RuleFrom(s, j, w, rep) == s[j..e] + RuleFrom(s, e, w, rep)
    decreases e - j
  {
    if j < e {
      RuleFromNoMatch(s, j, w, rep);
      CopiesWithoutMatch(s, j + 1, e, w, rep);
      SplitHead(s, j, e);
      AppendAssoc([s[j]], s[j + 1..e], RuleFrom(s, e, w, rep));
    }
  }

  /** No match starts at or after `j` inside the run from `i` once `w` has no
      occurrence past `j` in that run. */
  lemma NoMatchInRunTail(s: string, i: nat, j: nat, w: string)
    requires i <= |s|
    requires i <= j <= RunEnd(s, i)
    requires NoOccurrence(s, w, j + 1, RunEnd(s, i))
    ensures forall p :: j <= p < RunEnd(s, i) ==> SuffixMatch(s, p, w).None?
  {
    forall p | j <= p < RunEnd(s, i) ensures SuffixMatch(s, p, w).None? {
      RunEndWithin(s, i, p);
    }
  }

  /** An all-Hangul suffix found inside a run ends inside that run. */
  lemma OccurrenceInsideRun(s: string, i: nat, q: nat, w: string)
    requires i <= |s|
    requires AllHangul(w)
    requires i <= q <= RunEnd(s, i) && OccursAt(s, q, w)
    ensures q + |w| <= RunEnd(s, i)
  {
    RunEndSpec(s, i);
    forall k | i <= k < q + |w| ensures IsHangul(s[k]) {
      if k >= q {
        assert s[k] == s[q..q + |w|][k - q];
      }
    }
    RunEndCovers(s, i, q + |w|);
  }

  /** Inside the run from `i`, occurrences of an all-Hangul suffix are the same
      whether counted in the run or in the whole text. */
  lemma RunOccurrences(s: string, i: nat, w: string)
    requires i <= |s| && AllHangul(w)
    ensures forall k :: 1 <= k <= RunEnd(s, i) - i ==>
      (OccursAt(s[i..RunEnd(s, i)], k, w) <==> OccursAt(s, i + k, w))
  {
    var e := RunEnd(s, i);
    var run := s[i..e];
    forall k | 1 <= k <= |run| ensures OccursAt(run, k, w) <==> OccursAt(s, i + k, w) {
      if OccursAt(s, i + k, w) {
        OccurrenceInsideRun(s, i, i + k, w);
        SliceOfSlice(s, i, e, k, k + |w|);
      }
      if OccursAt(run, k, w) {
        SliceOfSlice(s, i, e, k, k + |w|);
      }
    }
  }

  /** A greedy match at a run's start is the run's last occurrence of `w` past
      its first syllable. */
  lemma MatchInRunSome(s: string, i: nat, w: string, q: nat)
    requires i <= |s| && AllHangul(w) && SuffixMatch(s, i, w) == Some(q)
    ensures var run := s[i..RunEnd(s, i)]; LastOccurrence(run, w, 1, |run|) == Some(q - i)
  {
    var e := RunEnd(s, i);
    var run := s[i..e];
    RunOccurrences(s, i, w);
    SuffixMatchIsGreedy(s, i, w);
    LastOccurrenceIsLast(run, w, 1, |run|);
    assert OccursAt(run, q - i, w);
    var lm := LastOccurrence(run, w, 1, |run|);
    assert lm.Some?;
    var k := lm.value;
    assert OccursAt(s, i + k, w);
    assert k <= q - i by {
      assert NoOccurrence(s, w, q + 1, e);
    }
    assert k >= q - i by {
      assert NoOccurrence(run, w, k + 1, |run|);
    }
  }

  /** No match at a run's start means no occurrence of `w` in the run past its first syllable. */
  lemma MatchInRunNone(s: string, i: nat, w: string)
    requires i <= |s| && AllHangul(w) && SuffixMatch(s, i, w).None?
    ensures var run := s[i..RunEnd(s, i)]; LastOccurrence(run, w, 1, |run|).None?
  {
    var run := s[i..RunEnd(s, i)];
    RunOccurrences(s, i, w);
    SuffixMatchIsGreedy(s, i, w);
    assert LastOccurrence(run, w, 1, |run|).None?;
  }

  /** The rewrite case: the captured syllables, the replacement, then a verbatim copy
      to the end of the run. */
  lemma RuleOnRunWithMatch(s: string, i: nat, w: string, rep: string, q: nat)
    requires i < |s| && AllHangul(w) && SuffixMatch(s, i, w) == Some(q)
    ensures q + |w| <= RunEnd(s, i)
    ensures RuleFrom(s, i, w, rep) == s[i..q] + rep + s[q + |w|..RunEnd(s, i)] + RuleFrom(s, RunEnd(s, i), w, rep)
  {
    RuleFromAtMatch(s, i, w, rep, q);
    RunTailCopied(s, i, w, rep, q);
    AppendAssoc(s[i..q] + rep, s[q + |w|..RunEnd(s, i)], RuleFrom(s, RunEnd(s, i), w, rep));
  }

  /** After a match, the rest of its run is copied verbatim. */
  lemma RunTailCopied(s: string, i: nat, w: string, rep: string, q: nat)
    requires i < |s| && AllHangul(w) && SuffixMatch(s, i, w) == Some(q)
    ensures q + |w| <= RunEnd(s, i)
    ensures RuleFrom(s, q + |w|, w, rep) == s[q + |w|..RunEnd(s, i)] + RuleFrom(s, RunEnd(s, i), w, rep)
  {
    OccurrenceInsideRun(s, i, q, w);
    SuffixMatchIsGreedy(s, i, w);
    NoMatchInRunTail(s, i, q + |w|, w);
    CopiesWithoutMatch(s, q + |w|, RunEnd(s, i), w, rep);
  }

  /** Scanning from the start of a run where no match starts: the run is copied,
      which is what the run-wise rewrite does with it. */
  lemma RuleOnRunNoMatch(s: string, i: nat, w: string, rep: string)
    requires i < |s| && AllHangul(w) && SuffixMatch(s, i, w).None?
    ensures RuleFrom(s, i, w, rep) == RewriteRun(s[i..RunEnd(s, i)], w, rep) + RuleFrom(s, RunEnd(s, i), w, rep)
  {
    MatchInRunNone(s, i, w);
    SuffixMatchIsGreedy(s, i, w);
    NoMatchInRunTail(s, i, i, w);
    CopiesWithoutMatch(s, i, RunEnd(s, i), w, rep);
  }

  /** The run-wise rewrite of a run, given where its last occurrence of `w` is. */
  lemma RewriteRunAt(run: string, w: string, rep: string, k: nat)
    requires LastOccurrence(run, w, 1, |run|) == Some(k)
    ensures k + |w| <= |run| && RewriteRun(run, w, rep) == run[..k] + rep + run[k + |w|..]
  {
  }

  /** The rewrite case, stated against the run on its own. */
  lemma RuleOnRunRewrites(s: string, i: nat, w: string, rep: string, q: nat)
    requires i < |s| && AllHangul(w) && SuffixMatch(s, i, w) == Some(q)
    ensures RuleFrom(s, i, w, rep) == RewriteRun(s[i..RunEnd(s, i)], w, rep) + RuleFrom(s, RunEnd(s, i), w, rep)
  {
    var e := RunEnd(s, i);
    var run := s[i..e];
    MatchInRunSome(s, i, w, q);
    RuleOnRunWithMatch(s, i, w, rep, q);
    RewriteRunAt(run, w, rep, q - i);
    SliceEnds(s, i, e, q, q + |w|);
  }

  /** Scanning from the start of a run: one rewrite at most, then the rest of the run is copied. */
  lemma RuleOnRun(s: string, i: nat, w: string, rep: string)
    requires i < |s| && AllHangul(w)
    ensures RuleFrom(s, i, w, rep) == RewriteRun(s[i..RunEnd(s, i)], w, rep) + RuleFrom(s, RunEnd(s, i), w, rep)
  {
    match SuffixMatch(s, i, w)
    case Some(q) => RuleOnRunRewrites(s, i, w, rep, q);
    case None => RuleOnRunNoMatch(s, i, w, rep);
  }

  /** For a suffix made of Hangul syllables only (every rule except `해도 돼요`),
      the global regex replacement is the run-by-run rewrite: in each maximal run
      of syllables, at most one occurrence is rewritten, namely the rightmost one
      that is not at the start of the run. */
  lemma {:induction false} RuleIsRunwise(s: string, i: nat, w: string, rep: string)
    requires i <= |s|
    requires AllHangul(w)
    ensures RuleFrom(s, i, w, rep) == RunwiseFrom(s, i, w, rep)
    decreases |s| - i
  {
    if i == |s| {
    } else if !IsHangul(s[i]) {
      assert SuffixMatch(s, i, w).None?;
      RuleIsRunwise(s, i + 1, w, rep);
    } else {
      RuleOnRun(s, i, w, rep);
      RuleIsRunwise(s, RunEnd(s, i), w, rep);
    }
  }

  /** A rule whose replacement repeats its suffix (`을까요`, `군요`) changes nothing. */
  lemma {:induction false} SelfRuleIsIdentity(s: string, i: nat, w: string)
    requires i <= |s|
    ensures RuleFrom(s, i, w, w) == s[i..]
    decreases |s| - i
  {
    if i < |s| {
      var m := SuffixMatch(s, i, w);
      if m.Some? {
        var q := m.value;
        RuleFromAtMatch(s, i, w, w, q);
        SelfRuleIsIdentity(s, q + |w|, w);
        SplitAround(s, i, q, w);
      } else {
        RuleFromNoMatch(s, i, w, w);
        SelfRuleIsIdentity(s, i + 1, w);
        SplitSuffixHead(s, i);
      }
    }
  }

  /** The question rule `을까요` and the exclamation rule `군요` are identities. */
  lemma KeptEndings(s: string)
    ensures ApplyRule(s, Rules[7]) == s
    ensures ApplyRule(s, Rules[15]) == s
  {
    SelfRuleIsIdentity(s, 0, "을까요");
    SelfRuleIsIdentity(s, 0, "군요");
  }

  /** Text without Hangul syllables is left alone by every rule. */
  lemma {:induction false} RuleFixesNonHangul(s: string, i: nat, w: string, rep: string)
    requires i <= |s|
    requires forall k :: i <= k < |s| ==> !IsHangul(s[k])
    ensures RuleFrom(s, i, w, rep) == s[i..]
  {
    forall p | i <= p < |s| ensures SuffixMatch(s, p, w).None? {
      assert RunEnd(s, p) == p;
    }
    CopiesWithoutMatch(s, i, |s|, w, rep);
  }

  lemma {:induction false} RulesFixNonHangul(s: string, rules: seq<Rule>)
    requires forall k :: 0 <= k < |s| ==> !IsHangul(s[k])
    ensures ApplyRules(s, rules) == s
    decreases |rules|
  {
    if rules != [] {
      RuleFixesNonHangul(s, 0, rules[0].from, rules[0].to);
      RulesFixNonHangul(s, rules[1..]);
    }
  }

  /** Text in which `w` never occurs is left alone by the rule for `w`. */
  lemma RuleWithoutSuffix(s: string, w: string, rep: string)
    requires forall k :: !OccursAt(s, k, w)
    ensures RuleFrom(s, 0, w, rep) == s
  {
    forall p | 0 <= p < |s| ensures SuffixMatch(s, p, w).None? {
    }
    CopiesWithoutMatch(s, 0, |s|, w, rep);
  }

  /** Rules whose suffixes start with characters absent from the text leave it alone. */
  lemma {:induction false} RulesWithoutSuffixes(s: string, rules: seq<Rule>)
    requires forall j :: 0 <= j < |rules| ==> rules[j].from != [] && rules[j].from[0] !in s
    ensures ApplyRules(s, rules) == s
    decreases |rules|
  {
    if rules != [] {
      AbsentChar(s, rules[0].from, rules[0].from[0]);
      RuleWithoutSuffix(s, rules[0].from, rules[0].to);
      assert forall j :: 0 <= j < |rules| - 1 ==> rules[1..][j] == rules[j + 1];
      RulesWithoutSuffixes(s, rules[1..]);
    }
  }

  /** Applying a list of rules is applying its first rule, then the rest. */
  lemma ApplyRulesStep(s: string, rules: seq<Rule>)
    requires rules != []
    ensures ApplyRules(s, rules) == ApplyRules(ApplyRule(s, rules[0]), rules[1..])
  {
  }

  /** Applying a list of rules is applying its front, then its back. */
  lemma {:induction false} ApplyRulesAppend(s: string, r1: seq<Rule>, r2: seq<Rule>)
    ensures ApplyRules(s, r1 + r2) == ApplyRules(ApplyRules(s, r1), r2)
    decreases |r1|
  {
    if r1 == [] {
      assert r1 + r2 == r2;
    } else {
      assert (r1 + r2)[0] == r1[0];
      assert (r1 + r2)[1..] == r1[1..] + r2;
      ApplyRulesAppend(ApplyRule(s, r1[0]), r1[1..], r2);
    }
  }

  // ---------------------------------------------------------------------------
  // Quoted spans: `/"([^"]+)"/g` and `/'([^']+)'/g`

  /** A quoted span starts here: the quote, at least one other character, and a closing quote. */
  predicate QuotedAt(s: string, q: char) {
    |s| >= 2 && s[0] == q && s[1] != q && IndexOfFrom(s, 1, q) < |s|
  }

  /** Each quoted span's content goes through `inner` and is put back between the
      same quote characters; everything else is copied. */
  function QuotePass(s: string, q: char, inner: string -> string): string
    decreases |s|
  {
    if s == [] then []
    else if QuotedAt(s, q) then
      var c := IndexOfFrom(s, 1, q);
      [q] + inner(s[1..c]) + [q] + QuotePass(s[c + 1..], q, inner)
    else [s[0]] + QuotePass(s[1..], q, inner)
  }

  /** Text without the quote character passes through untouched. */
  lemma {:induction false} QuotePassPlain(a: string, t: string, q: char, inner: string -> string)
    requires q !in a
    ensures QuotePass(a + t, q, inner) == a + QuotePass(t, q, inner)
    decreases |a|
  {
    if a != [] {
      assert (a + t)[0] == a[0];
      assert (a + t)[1..] == a[1..] + t;
      QuotePassPlain(a[1..], t, q, inner);
    } else {
      assert a + t == t;
    }
  }

  /** The closing quote of a span is the first quote after the opening one. */
  lemma ClosingQuote(x: string, b: string, q: char)
    requires q !in x
    ensures IndexOfFrom([q] + x + [q] + b, 1, q) == 1 + |x|
  {
    var t := [q] + x + [q] + b;
    forall k | 1 <= k < 1 + |x| ensures t[k] != q {
      assert t[k] == x[k - 1];
    }
    IndexOfFromSkip(t, 1, 1 + |x|, q);
    assert t[1 + |x|] == q;
  }

  /** A quoted span at the very start is converted and re-wrapped in the same quote. */
  lemma QuotePassSpanAtStart(x: string, b: string, q: char, inner: string -> string)
    requires q !in x && x != []
    ensures QuotePass([q] + x + [q] + b, q, inner) == [q] + inner(x) + [q] + QuotePass(b, q, inner)
  {
    var t := [q] + x + [q] + b;
    ClosingQuote(x, b, q);
    assert t[1] == x[0];
    assert QuotedAt(t, q);
    assert t[1..1 + |x|] == x;
    assert t[2 + |x|..] == b;
  }

  /** The first quoted span is converted and re-wrapped in the same quote
      character; the text before it is unchanged and the scan continues after it. */
  lemma QuotePassSpan(a: string, x: string, b: string, q: char, inner: string -> string)
    requires q !in a && q !in x && x != []
    ensures QuotePass(a + [q] + x + [q] + b, q, inner) == a + [q] + inner(x) + [q] + QuotePass(b, q, inner)
  {
    var t := [q] + x + [q] + b;
    assert a + [q] + x + [q] + b == a + t;
    QuotePassPlain(a, t, q, inner);
    QuotePassSpanAtStart(x, b, q, inner);
  }

  /** A quoted span at the start, cut into its pieces. */
  lemma QuoteSplit(s: string, q: char)
    requires QuotedAt(s, q)
    ensures var c := IndexOfFrom(s, 1, q);
      c < |s| && s == [q] + s[1..c] + [q] + s[c + 1..]
  {
    var c := IndexOfFrom(s, 1, q);
    assert s[c] == q;
    SplitSuffix(s, 0, 1);
    SplitSuffix(s, 1, c);
    SplitSuffix(s, c, c + 1);
  }

  /** When `inner` changes nothing, neither does the pass: the delimiters are
      reproduced exactly. */
  lemma {:induction false} QuotePassIdentity(s: string, q: char, inner: string -> string)
    requires forall x :: inner(x) == x
    ensures QuotePass(s, q, inner) == s
    decreases |s|
  {
    if s != [] {
      if QuotedAt(s, q) {
        var c := IndexOfFrom(s, 1, q);
        assert QuotePass(s, q, inner) == [q] + inner(s[1..c]) + [q] + QuotePass(s[c + 1..], q, inner);
        assert inner(s[1..c]) == s[1..c];
        QuotePassIdentity(s[c + 1..], q, inner);
        QuoteSplit(s, q);
      } else {
        assert QuotePass(s, q, inner) == [s[0]] + QuotePass(s[1..], q, inner);
        QuotePassIdentity(s[1..], q, inner);
        SplitSuffix(s, 0, 1);
      }
    }
  }

  // ---------------------------------------------------------------------------
  // Labelled spans: `/label([^\n]+)/g`

  /** The ten introductory labels, in the order their patterns are applied. */
  const Labels: seq<string> := [
    "예시: ", "예를 들면: ", "이렇게 써보세요: ", "다음과 같이 작성해보세요: ", "다음처럼 써보세요: ",
    "이런 식으로 작성해보세요: ", "이렇게 바꿔보세요: ", "이런 문장은 어떨까요? ",
    "다음 문장을 참고해보세요: ", "이런 표현은 어떨까요? "]

  /** A labelled span starts here: the label followed by at least one character of the same line. */
  predicate LabelAt(s: string, tag: string) {
    OccursAt(s, 0, tag) && |tag| < |s| && s[|tag|] != '\n'
  }

  /** How a converted span is put back in place of the whole match `m`, whose
      captured tail is `p1`, given the converted text `c`. */
  type Splice = (string, string, string) -> string

  /** Each labelled span (the label and the rest of its line) is replaced by
      `splice(match, content, inner(content))`; everything else is copied. */
  function LabelPass(s: string, tag: string, inner: string -> string, splice: Splice): string
    requires tag != []
    decreases |s|
  {
    if s == [] then []
    else if LabelAt(s, tag) then
      var e := IndexOfFrom(s, |tag|, '\n');
      splice(s[..e], s[|tag|..e], inner(s[|tag|..e])) + LabelPass(s[e..], tag, inner, splice)
    else [s[0]] + LabelPass(s[1..], tag, inner, splice)
  }

  /** The replacement-pattern expansion `String.prototype.replace` applies to a
      string replacement when the pattern is a string (there are no capture
      groups): `$$` is `$`, `$&` the matched text, `` $` `` the text before it,
      `$'` the text after it; any other `$` is literal. */
  function Expand(rep: string, matched: string, before: string, after: string): string
    decreases |rep|
  {
    if rep == [] then []
    else if rep[0] == '$' && |rep| >= 2 && rep[1] == '$' then "$" + Expand(rep[2..], matched, before, after)
    else if rep[0] == '$' && |rep| >= 2 && rep[1] == '&' then matched + Expand(rep[2..], matched, before, after)
    else if rep[0] == '$' && |rep| >= 2 && rep[1] == '`' then before + Expand(rep[2..], matched, before, after)
    else if rep[0] == '$' && |rep| >= 2 && rep[1] == '\'' then after + Expand(rep[2..], matched, before, after)
    else [rep[0]] + Expand(rep[1..], matched, before, after)
  }

  /** A replacement without `$` is inserted literally. */
  lemma {:induction false} ExpandLiteral(rep: string, matched: string, before: string, after: string)
    requires '$' !in rep
    ensures Expand(rep, matched, before, after) == rep
    decreases |rep|
  {
    if rep != [] {
      assert '$' !in rep[1..];
      ExpandLiteral(rep[1..], matched, before, after);
    }
  }

  /** The reinsertion the source performs for labels, `match.replace(p1, c)`: the
      FIRST occurrence of `p1` in the whole match is replaced, and `c` is read as
      a replacement pattern. */
  function SpliceFirst(m: string, p1: string, c: string): string {
    match IndexOf(m, p1, 0)
    case None => m
    case Some(k) => m[..k] + Expand(c, p1, m[..k], m[k + |p1|..]) + m[k + |p1|..]
  }

  /** The evident intent: keep the label, put the converted content after it. */
  function SpliceLabel(m: string, p1: string, c: string): string {
    if |p1| <= |m| then m[..|m| - |p1|] + c else m
  }

  /** One step of a label pass where a labelled span starts. */
  lemma LabelPassAtLabel(s: string, tag: string, inner: string -> string, splice: Splice)
    requires tag != [] && LabelAt(s, tag)
    ensures var e := IndexOfFrom(s, |tag|, '\n');
      LabelPass(s, tag, inner, splice)
        == splice(s[..e], s[|tag|..e], inner(s[|tag|..e])) + LabelPass(s[e..], tag, inner, splice)
  {
  }

  /** One step of a label pass where no labelled span starts. */
  lemma LabelPassSkip(s: string, tag: string, inner: string -> string, splice: Splice)
    requires tag != [] && s != [] && !LabelAt(s, tag)
    ensures LabelPass(s, tag, inner, splice) == [s[0]] + LabelPass(s[1..], tag, inner, splice)
  {
  }

  /** A line with no occurrence of the label passes through untouched. */
  lemma {:induction false} LabelPassAbsent(s: string, tag: string, inner: string -> string, splice: Splice)
    requires tag != []
    requires forall k :: !OccursAt(s, k, tag)
    ensures LabelPass(s, tag, inner, splice) == s
    decreases |s|
  {
    if s != [] {
      assert !OccursAt(s, 0, tag);
      forall k: nat ensures !OccursAt(s[1..], k, tag) {
        assert !OccursAt(s, k + 1, tag);
      }
      LabelPassAbsent(s[1..], tag, inner, splice);
    }
  }

  /** Reinserting the unchanged content with the intended splice gives the match back. */
  lemma SpliceLabelUnchanged(s: string, a: nat, e: nat)
    requires a <= e <= |s|
    ensures SpliceLabel(s[..e], s[a..e], s[a..e]) == s[..e]
  {
    assert s[..e][..a] == s[..a];
    SplitAt(s[..e], a);
  }

  /** With the intended reinsertion and an `inner` that changes nothing, the
      label pass changes nothing: labels survive. */
  lemma {:induction false} LabelPassIdentity(s: string, tag: string, inner: string -> string)
    requires tag != []
    requires forall x :: inner(x) == x
    ensures LabelPass(s, tag, inner, SpliceLabel) == s
    decreases |s|
  {
    if s != [] {
      if LabelAt(s, tag) {
        var e := IndexOfFrom(s, |tag|, '\n');
        LabelPassAtLabel(s, tag, inner, SpliceLabel);
        assert inner(s[|tag|..e]) == s[|tag|..e];
        SpliceLabelUnchanged(s, |tag|, e);
        LabelPassIdentity(s[e..], tag, inner);
        SplitAt(s, e);
      } else {
        LabelPassSkip(s, tag, inner, SpliceLabel);
        LabelPassIdentity(s[1..], tag, inner);
        SplitAt(s, 1);
      }
    }
  }

  /** Reinserting the unchanged content as the source does gives the match back,
      provided the content holds no `$`. */
  lemma SpliceFirstUnchanged(s: string, a: nat, e: nat)
    requires a <= e <= |s| && '$' !in s[a..e]
    ensures SpliceFirst(s[..e], s[a..e], s[a..e]) == s[..e]
  {
    var m, p1 := s[..e], s[a..e];
    assert OccursAt(m, a, p1) by {
      assert m[a..a + |p1|] == p1;
    }
    IndexOfFinds(m, p1, 0, a);
    var k := IndexOf(m, p1, 0).value;
    ExpandLiteral(p1, p1, m[..k], m[k + |p1|..]);
    SplitAtOccurrence(m, k, p1);
  }

  lemma NoDollarInSlice(s: string, i: nat, j: nat)
    requires i <= j <= |s| && '$' !in s
    ensures '$' !in s[i..j]
  {
  }

  /** The source's reinsertion also changes nothing under an identity `inner`,
      provided the text holds no `$`. */
  lemma {:induction false} LabelPassAsWrittenIdentity(s: string, tag: string, inner: string -> string)
    requires tag != []
    requires forall x :: inner(x) == x
    requires '$' !in s
    ensures LabelPass(s, tag, inner, SpliceFirst) == s
    decreases |s|
  {
    if s != [] {
      if LabelAt(s, tag) {
        var e := IndexOfFrom(s, |tag|, '\n');
        LabelPassAtLabel(s, tag, inner, SpliceFirst);
        assert inner(s[|tag|..e]) == s[|tag|..e];
        NoDollarInSlice(s, |tag|, e);
        SpliceFirstUnchanged(s, |tag|, e);
        NoDollarInSlice(s, e, |s|);
        LabelPassAsWrittenIdentity(s[e..], tag, inner);
        SplitAt(s, e);
      } else {
        LabelPassSkip(s, tag, inner, SpliceFirst);
        NoDollarInSlice(s, 1, |s|);
        LabelPassAsWrittenIdentity(s[1..], tag, inner);
        SplitAt(s, 1);
      }
    }
  }

  /** The label patterns applied in order, each to the previous pattern's output. */
  function LabelPasses(s: string, labels: seq<string>, splice: Splice): string
    requires forall j :: 0 <= j < |labels| ==> labels[j] != []
    decreases |labels|
  {
    if labels == [] then s
    else LabelPasses(LabelPass(s, labels[0], FormalEndings, splice), labels[1..], splice)
  }

  /** The whole conversion with a given reinsertion for labelled spans: the ten
      label patterns, then double quotes, then single quotes. Empty text is
      returned as it is. */
  function ConvertWith(text: string, splice: Splice): (r: string)
    ensures text == [] ==> r == text
  {
    if text == [] then text
    else
      var labelled := LabelPasses(text, Labels, splice);
      QuotePass(QuotePass(labelled, '"', FormalEndings), '\'', FormalEndings)
  }

  /** When the label passes leave no quote character, the quote passes change
      nothing and the conversion is the label passes' result. */
  lemma ConvertThroughLabels(text: string, splice: Splice, r: string)
    requires text != [] && LabelPasses(text, Labels, splice) == r
    requires '"' !in r && '\'' !in r
    ensures ConvertWith(text, splice) == r
  {
    QuotePassPlain(r, [], '"', FormalEndings);
    assert r + [] == r;
    QuotePassPlain(r, [], '\'', FormalEndings);
  }

  /** `convertToFormalStyle` as written. */
  function ConvertAsWritten(text: string): string {
    ConvertWith(text, SpliceFirst)
  }

  /** `convertToFormalStyle` with labels reinserted as intended. */
  function Convert(text: string): string {
    ConvertWith(text, SpliceLabel)
  }

  /** Text holding no quote character and no label has no example span, and the
      conversion leaves it exactly as it is. */
  lemma ConvertWithoutSpans(text: string, splice: Splice)
    requires '"' !in text && '\'' !in text
    requires forall j, k :: 0 <= j < |Labels| ==> !OccursAt(text, k, Labels[j])
    ensures ConvertWith(text, splice) == text
  {
    if text != [] {
      LabelPassesAbsent(text, Labels, splice);
      QuotePassPlain(text, [], '"', FormalEndings);
      assert text + [] == text;
      QuotePassPlain(text, [], '\'', FormalEndings);
    }
  }

  /** Applying a list of label patterns is applying its first pattern, then the rest. */
  lemma LabelPassesStep(s: string, labels: seq<string>, splice: Splice)
    requires labels != [] && forall j :: 0 <= j < |labels| ==> labels[j] != []
    ensures LabelPasses(s, labels, splice) == LabelPasses(LabelPass(s, labels[0], FormalEndings, splice), labels[1..], splice)
  {
  }

  /** Applying a list of label patterns is applying its front, then its back. */
  lemma {:induction false} LabelPassesAppend(s: string, l1: seq<string>, l2: seq<string>, splice: Splice)
    requires forall j :: 0 <= j < |l1| ==> l1[j] != []
    requires forall j :: 0 <= j < |l2| ==> l2[j] != []
    ensures forall j :: 0 <= j < |l1 + l2| ==> (l1 + l2)[j] != []
    ensures LabelPasses(s, l1 + l2, splice) == LabelPasses(LabelPasses(s, l1, splice), l2, splice)
    decreases |l1|
  {
    if l1 == [] {
      assert l1 + l2 == l2;
    } else {
      assert (l1 + l2)[0] == l1[0];
      assert (l1 + l2)[1..] == l1[1..] + l2;
      LabelPassesAppend(LabelPass(s, l1[0], FormalEndings, splice), l1[1..], l2, splice);
    }
  }

  /** Label patterns each holding a character (`marks[j]` for `labels[j]`)
      that the text lacks find nothing to convert. */
  lemma LabelPassesWithoutLabels(s: string, labels: seq<string>, marks: string, splice: Splice)
    requires |marks| == |labels|
    requires forall j :: 0 <= j < |labels| ==> labels[j] != [] && marks[j] in labels[j] && marks[j] !in s
    ensures LabelPasses(s, labels, splice) == s
  {
    forall j | 0 <= j < |labels| ensures forall k :: !OccursAt(s, k, labels[j]) {
      AbsentChar(s, labels[j], marks[j]);
    }
    LabelPassesAbsent(s, labels, splice);
  }

  lemma {:induction false} LabelPassesAbsent(s: string, labels: seq<string>, splice: Splice)
    requires forall j :: 0 <= j < |labels| ==> labels[j] != []
    requires forall j, k :: 0 <= j < |labels| ==> !OccursAt(s, k, labels[j])
    ensures LabelPasses(s, labels, splice) == s
    decreases |labels|
  {
    if labels != [] {
      LabelPassAbsent(s, labels[0], FormalEndings, splice);
      assert forall j, k :: 0 <= j < |labels| - 1 ==> !OccursAt(s, k, labels[1..][j]) by {
        forall j, k | 0 <= j < |labels| - 1 ensures !OccursAt(s, k, labels[1..][j]) {
          assert labels[1..][j] == labels[j + 1];
        }
      }
      LabelPassesAbsent(s, labels[1..], splice);
    }
  }
}
