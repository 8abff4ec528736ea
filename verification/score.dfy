/** `calculateScore`: 100 points, ten off for every unmet criterion of a
    structured feedback slot, ten more when the draft has several body sections,
    capped at 100 and with no floor. The score is modelled twice: on a typed
    correction result, where a slot is either structured or raw text, and on the
    stored JSON value as the source reads it, property by property. */
module Score {
  import opened Wrappers
  import opened JsonValue
  import Normalizer

  // ---------------------------------------------------------------------------
  // The typed correction result

  /** One checklist item: whether the essay meets it, and why. */
  datatype Criterion = Criterion(met: bool, feedback: string)

  /** A feedback slot: a checklist with a `general` comment, or plain text. */
  datatype Slot = Structured(criteria: seq<Criterion>, general: string) | Raw(text: string)

  /** The feedback for one OREO body section. */
  datatype SectionFeedback = SectionFeedback(opinion: Slot, reason: Slot, example: Slot, reemphasis: Slot)

  datatype CorrectionResult = CorrectionResult(
    introduction: Slot, sections: seq<SectionFeedback>, conclusion: Slot, overall: string)

  /** The number of unmet criteria in a checklist. */
  function Unmet(cs: seq<Criterion>): nat
    decreases |cs|
  {
    if cs == [] then 0 else (if cs[0].met then 0 else 1) + Unmet(cs[1..])
  }

  /** A raw slot has no checklist, so nothing in it is unmet. */
  function SlotUnmet(s: Slot): nat {
    match s
    case Structured(cs, _) => Unmet(cs)
    case Raw(_) => 0
  }

  function SectionUnmet(f: SectionFeedback): nat {
    SlotUnmet(f.opinion) + SlotUnmet(f.reason) + SlotUnmet(f.example) + SlotUnmet(f.reemphasis)
  }

  function SectionsUnmet(s: seq<SectionFeedback>): nat
    decreases |s|
  {
    if s == [] then 0 else SectionUnmet(s[0]) + SectionsUnmet(s[1..])
  }

  /** Every unmet criterion of the result's structured slots. */
  function UnmetCount(r: CorrectionResult): nat {
    SlotUnmet(r.introduction) + SectionsUnmet(r.sections) + SlotUnmet(r.conclusion)
  }

  /** The bonus for a draft with more than one body section. */
  function Bonus(draftSections: nat): int {
    if draftSections > 1 then 10 else 0
  }

  function Min(a: int, b: int): int {
    if a <= b then a else b
  }

  /** The score as a closed formula: no result scores 0; otherwise
      `min(100 - 10 * unmet + bonus, 100)`. */
  function ExpectedScore(result: Option<CorrectionResult>, draftSections: nat): int {
    match result
    case None => 0
    case Some(r) => Min(100 - 10 * UnmetCount(r) + Bonus(draftSections), 100)
  }

  lemma {:induction false} UnmetAppend(a: seq<Criterion>, b: seq<Criterion>)
    ensures Unmet(a + b) == Unmet(a) + Unmet(b)
    decreases |a|
  {
    if a != [] {
      assert (a + b)[1..] == a[1..] + b;
      UnmetAppend(a[1..], b);
    } else {
      assert a + b == b;
    }
  }

  lemma {:induction false} SectionsUnmetAppend(a: seq<SectionFeedback>, b: seq<SectionFeedback>)
    ensures SectionsUnmet(a + b) == SectionsUnmet(a) + SectionsUnmet(b)
    decreases |a|
  {
    if a != [] {
      assert (a + b)[1..] == a[1..] + b;
      SectionsUnmetAppend(a[1..], b);
    } else {
      assert a + b == b;
    }
  }

  /** `if (!x.met) score -= 10` for every criterion of a structured slot; a raw
      slot (`typeof … !== 'object'`) is skipped. */
  method DeductSlot(score: int, slot: Slot) returns (r: int)
    ensures r == score - 10 * SlotUnmet(slot)
  {
    r := score;
    if slot.Structured? {
      var cs := slot.criteria;
      var j := 0;
      while j < |cs|
        invariant 0 <= j <= |cs|
        invariant r == score - 10 * Unmet(cs[..j])
      {
        assert cs[..j + 1] == cs[..j] + [cs[j]];
        UnmetAppend(cs[..j], [cs[j]]);
        if !cs[j].met {
          r := r - 10;
        }
        j := j + 1;
      }
      assert cs[..j] == cs;
    }
  }

  /** `calculateScore`, step by step as the source does it. */
  method CalculateScore(result: Option<CorrectionResult>, draftSections: nat) returns (score: int)
    ensures score == ExpectedScore(result, draftSections)
    ensures score <= 100
  {
    if result.None? {
      return 0;
    }
    var r := result.value;
    score := 100;
    score := DeductSlot(score, r.introduction);
    var i := 0;
    while i < |r.sections|
      invariant 0 <= i <= |r.sections|
      invariant score == 100 - 10 * (SlotUnmet(r.introduction) + SectionsUnmet(r.sections[..i]))
    {
      var f := r.sections[i];
      score := DeductSlot(score, f.opinion);
      score := DeductSlot(score, f.reason);
      score := DeductSlot(score, f.example);
      score := DeductSlot(score, f.reemphasis);
      assert r.sections[..i + 1] == r.sections[..i] + [f];
      SectionsUnmetAppend(r.sections[..i], [f]);
      i := i + 1;
    }
    assert r.sections[..i] == r.sections;
    score := DeductSlot(score, r.conclusion);
    if draftSections > 1 {
      score := score + 10;
    }
    if score > 100 {
      score := 100;
    }
  }

  // ---------------------------------------------------------------------------
  // Properties of the score

  /** Every criterion of every structured slot is met. */
  predicate AllMet(r: CorrectionResult) {
    && SlotAllMet(r.introduction) && SlotAllMet(r.conclusion)
    && forall i :: 0 <= i < |r.sections| ==> SectionAllMet(r.sections[i])
  }

  predicate SlotAllMet(s: Slot) {
    s.Structured? ==> forall j :: 0 <= j < |s.criteria| ==> s.criteria[j].met
  }

  predicate SectionAllMet(f: SectionFeedback) {
    SlotAllMet(f.opinion) && SlotAllMet(f.reason) && SlotAllMet(f.example) && SlotAllMet(f.reemphasis)
  }

  lemma {:induction false} UnmetZero(cs: seq<Criterion>)
    requires forall j :: 0 <= j < |cs| ==> cs[j].met
    ensures Unmet(cs) == 0
    decreases |cs|
  {
    if cs != [] {
      assert forall j :: 0 <= j < |cs[1..]| ==> cs[1..][j] == cs[j + 1];
      UnmetZero(cs[1..]);
    }
  }

  lemma SlotAllMetZero(s: Slot)
    requires SlotAllMet(s)
    ensures SlotUnmet(s) == 0
  {
    if s.Structured? {
      UnmetZero(s.criteria);
    }
  }

  lemma {:induction false} SectionsAllMetZero(s: seq<SectionFeedback>)
    requires forall i :: 0 <= i < |s| ==> SectionAllMet(s[i])
    ensures SectionsUnmet(s) == 0
    decreases |s|
  {
    if s != [] {
      SlotAllMetZero(s[0].opinion);
      SlotAllMetZero(s[0].reason);
      SlotAllMetZero(s[0].example);
      SlotAllMetZero(s[0].reemphasis);
      assert forall i :: 0 <= i < |s[1..]| ==> s[1..][i] == s[i + 1];
      SectionsAllMetZero(s[1..]);
    }
  }

  /** A result whose every criterion is met scores the full 100, with or
      without the bonus. */
  lemma AllMetScoresFull(r: CorrectionResult, draftSections: nat)
    requires AllMet(r)
    ensures ExpectedScore(Some(r), draftSections) == 100
  {
    SlotAllMetZero(r.introduction);
    SlotAllMetZero(r.conclusion);
    SectionsAllMetZero(r.sections);
  }

  /** A body section whose four slots each fail their one criterion. */
  const FailingSection: SectionFeedback :=
    var s := Structured([Criterion(false, "")], "");
    SectionFeedback(s, s, s, s)

  /** The result with `k` failing sections and raw introduction and conclusion. */
  function Failing(k: nat): CorrectionResult {
    CorrectionResult(Raw(""), seq(k, _ => FailingSection), Raw(""), "")
  }

  lemma {:induction false} FailingUnmet(k: nat)
    ensures SectionsUnmet(seq(k, _ => FailingSection)) == 4 * k
    decreases k
  {
    if k > 0 {
      var s := seq(k, _ => FailingSection);
      assert s[1..] == seq(k - 1, _ => FailingSection);
      FailingUnmet(k - 1);
      assert Unmet([Criterion(false, "")]) == 1 by {
        assert [Criterion(false, "")][1..] == [];
      }
    }
  }

  /** There is no floor: `k` failing sections cost 40 points each, so three of
      them already give a negative score. */
  lemma FailingScore(k: nat, draftSections: nat)
    ensures ExpectedScore(Some(Failing(k)), draftSections) == Min(100 - 40 * k + Bonus(draftSections), 100)
    ensures k >= 3 ==> ExpectedScore(Some(Failing(k)), draftSections) < 0
  {
    FailingUnmet(k);
  }

  /** `b` is `a` with some slots replaced by raw text. */
  predicate SlotRelaxed(a: Slot, b: Slot) {
    b == a || b.Raw?
  }

  predicate SectionRelaxed(a: SectionFeedback, b: SectionFeedback) {
    && SlotRelaxed(a.opinion, b.opinion) && SlotRelaxed(a.reason, b.reason)
    && SlotRelaxed(a.example, b.example) && SlotRelaxed(a.reemphasis, b.reemphasis)
  }

  predicate Relaxed(a: CorrectionResult, b: CorrectionResult) {
    && SlotRelaxed(a.introduction, b.introduction) && SlotRelaxed(a.conclusion, b.conclusion)
    && |a.sections| == |b.sections|
    && forall i :: 0 <= i < |a.sections| ==> SectionRelaxed(a.sections[i], b.sections[i])
  }

  lemma {:induction false} SectionsRelaxedUnmet(a: seq<SectionFeedback>, b: seq<SectionFeedback>)
    requires |a| == |b| && forall i :: 0 <= i < |a| ==> SectionRelaxed(a[i], b[i])
    ensures SectionsUnmet(b) <= SectionsUnmet(a)
    decreases |a|
  {
    if a != [] {
      assert SectionRelaxed(a[0], b[0]);
      assert forall i :: 0 <= i < |a[1..]| ==> a[1..][i] == a[i + 1] && b[1..][i] == b[i + 1];
      SectionsRelaxedUnmet(a[1..], b[1..]);
    }
  }

  /** Turning structured slots into raw text never lowers the score: raw slots
      are skipped, never counted against the essay. */
  lemma RawNeverLowers(a: CorrectionResult, b: CorrectionResult, draftSections: nat)
    requires Relaxed(a, b)
    ensures ExpectedScore(Some(b), draftSections) >= ExpectedScore(Some(a), draftSections)
  {
    SectionsRelaxedUnmet(a.sections, b.sections);
  }

  /** The bonus comes from the draft, not from the result: extra result sections
      with every criterion met add nothing, while a second draft section adds ten
      points up to the cap. */
  lemma BonusFromDraftOnly(r: CorrectionResult, extra: seq<SectionFeedback>, draftSections: nat)
    requires forall i :: 0 <= i < |extra| ==> SectionAllMet(extra[i])
    ensures ExpectedScore(Some(r.(sections := r.sections + extra)), draftSections) == ExpectedScore(Some(r), draftSections)
    ensures ExpectedScore(Some(r), 2) == Min(ExpectedScore(Some(r), 1) + 10, 100)
  {
    SectionsUnmetAppend(r.sections, extra);
    SectionsAllMetZero(extra);
  }

  // ---------------------------------------------------------------------------
  // The score read from the stored JSON value

  const IntroNames: seq<string> := ["greeting", "direction"]
  const OpinionNames: seq<string> := ["opinion"]
  const ReasonNames: seq<string> := ["reason"]
  const ExampleNames: seq<string> := ["example"]
  const ReemphasisNames: seq<string> := ["reemphasis"]
  const ConclusionNames: seq<string> := ["summary", "closing"]

  /** The sum of two deductions, or the first throw. */
  function Plus(a: Result<int, string>, b: Result<int, string>): (r: Result<int, string>)
    ensures r.Ok? <==> a.Ok? && b.Ok?
    ensures r.Ok? ==> r.value == a.value + b.value
  {
    match a
    case Err(e) => Err(e)
    case Ok(x) => (match b case Err(e) => Err(e) case Ok(y) => Ok(x + y))
  }

  /** `if (!slot.name.met) score -= 10`: reading through `undefined` or `null` throws. */
  function CriterionDeduction(slot: Option<Json>, name: string): Result<int, string> {
    match Get(slot, name)
    case Err(e) => Err(e)
    case Ok(c) =>
      match Get(c, "met")
      case Err(e) => Err(e)
      case Ok(met) => Ok(if Truthy(met) then 0 else 10)
  }

  function NamesDeduction(slot: Option<Json>, names: seq<string>): Result<int, string>
    decreases |names|
  {
    if names == [] then Ok(0) else Plus(CriterionDeduction(slot, names[0]), NamesDeduction(slot, names[1..]))
  }

  /** A slot is checked when `typeof slot === 'object'`, which `null` passes too. */
  function SlotDeduction(slot: Option<Json>, names: seq<string>): Result<int, string> {
    if IsObjectType(slot) then NamesDeduction(slot, names) else Ok(0)
  }

  function KeyDeduction(owner: Json, key: string, names: seq<string>): Result<int, string> {
    match Get(Some(owner), key)
    case Err(e) => Err(e)
    case Ok(v) => SlotDeduction(v, names)
  }

  function SectionDeduction(section: Json): Result<int, string> {
    Plus(Plus(KeyDeduction(section, "bodyO1", OpinionNames), KeyDeduction(section, "bodyR", ReasonNames)),
         Plus(KeyDeduction(section, "bodyE", ExampleNames), KeyDeduction(section, "bodyO2", ReemphasisNames)))
  }

  function SectionsDeduction(s: seq<Json>): Result<int, string>
    decreases |s|
  {
    if s == [] then Ok(0) else Plus(SectionDeduction(s[0]), SectionsDeduction(s[1..]))
  }

  /** `oreoSections.forEach` throws unless `oreoSections` is an array. */
  function BodyDeduction(result: Json): Result<int, string> {
    match Get(Some(result), "oreoSections")
    case Ok(Some(Arr(s))) => SectionsDeduction(s)
    case _ => Err(TypeError)
  }

  /** Everything `calculateScore` deducts from a stored value: the introduction,
      every body section, then the conclusion, or the first throw. */
  function Deductions(result: Json): Result<int, string> {
    Plus(Plus(KeyDeduction(result, "introduction", IntroNames), BodyDeduction(result)),
         KeyDeduction(result, "conclusion", ConclusionNames))
  }

  /** The capped score once the deductions are known. */
  function ScoreFrom(deductions: Result<int, string>, draftSections: nat): (r: Result<int, string>)
    ensures r.Ok? <==> deductions.Ok?
    ensures r.Ok? ==> r.value <= 100
    ensures r.Ok? && deductions.value == 0 ==> r.value == 100
  {
    match deductions
    case Err(e) => Err(e)
    case Ok(d) => Ok(Min(100 - d + Bonus(draftSections), 100))
  }

  /** `calculateScore` on the stored value, throws included. */
  function ScoreJson(result: Option<Json>, draftSections: nat): Result<int, string> {
    match result
    case None => Ok(0)
    case Some(r) => ScoreFrom(Deductions(r), draftSections)
  }

  // ---------------------------------------------------------------------------
  // The typed result as JSON

  function CriterionJson(c: Criterion): Json {
    Obj(map["met" := Bool(c.met), "feedback" := Str(c.feedback)])
  }

  /** The criteria stored under their names. */
  function CriteriaMap(cs: seq<Criterion>, names: seq<string>): map<string, Json>
    decreases |names|
  {
    if names == [] || cs == [] then map[] else CriteriaMap(cs[1..], names[1..])[names[0] := CriterionJson(cs[0])]
  }

  function EncodeSlot(s: Slot, names: seq<string>): Json {
    match s
    case Structured(cs, g) => Obj(CriteriaMap(cs, names)["general" := Str(g)])
    case Raw(t) => Str(t)
  }

  function EncodeSection(f: SectionFeedback): Json {
    Obj(map[
      "bodyO1" := EncodeSlot(f.opinion, OpinionNames), "bodyR" := EncodeSlot(f.reason, ReasonNames),
      "bodyE" := EncodeSlot(f.example, ExampleNames), "bodyO2" := EncodeSlot(f.reemphasis, ReemphasisNames)])
  }

  /** The encoded sections, in order. */
  function EncodeSections(s: seq<SectionFeedback>): seq<Json> {
    seq(|s|, i requires 0 <= i < |s| => EncodeSection(s[i]))
  }

  function Encode(r: CorrectionResult): Json {
    Obj(map[
      "introduction" := EncodeSlot(r.introduction, IntroNames),
      "oreoSections" := Arr(EncodeSections(r.sections)),
      "conclusion" := EncodeSlot(r.conclusion, ConclusionNames),
      "overall" := Str(r.overall)])
  }

  /** The checklist of each structured slot has one entry per criterion name. */
  predicate SlotShaped(s: Slot, names: seq<string>) {
    s.Structured? ==> |s.criteria| == |names|
  }

  predicate SectionShaped(f: SectionFeedback) {
    && SlotShaped(f.opinion, OpinionNames) && SlotShaped(f.reason, ReasonNames)
    && SlotShaped(f.example, ExampleNames) && SlotShaped(f.reemphasis, ReemphasisNames)
  }

  predicate WellShaped(r: CorrectionResult) {
    && SlotShaped(r.introduction, IntroNames) && SlotShaped(r.conclusion, ConclusionNames)
    && forall i :: 0 <= i < |r.sections| ==> SectionShaped(r.sections[i])
  }

  /** No name is listed twice. */
  predicate DistinctNames(names: seq<string>) {
    forall i, j :: 0 <= i < j < |names| ==> names[i] != names[j]
  }

  /** Each criterion is found under its own name, and only names are keys. */
  lemma {:induction false} CriteriaMapLookup(cs: seq<Criterion>, names: seq<string>, i: nat)
    requires |cs| == |names| && DistinctNames(names) && i < |names|
    ensures names[i] in CriteriaMap(cs, names) && CriteriaMap(cs, names)[names[i]] == CriterionJson(cs[i])
    decreases |names|
  {
    if i > 0 {
      assert DistinctNames(names[1..]) by {
        forall a, b | 0 <= a < b < |names[1..]| ensures names[1..][a] != names[1..][b] {
          assert names[1..][a] == names[a + 1] && names[1..][b] == names[b + 1];
        }
      }
      CriteriaMapLookup(cs[1..], names[1..], i - 1);
      assert names[1..][i - 1] == names[i] != names[0];
    }
  }

  /** A deduction over `names` when each name's criterion is `cs` at that place. */
  lemma {:induction false} NamesDeductionOf(slot: Option<Json>, names: seq<string>, cs: seq<Criterion>)
    requires |cs| == |names|
    requires forall i :: 0 <= i < |names| ==> CriterionDeduction(slot, names[i]) == Ok(if cs[i].met then 0 else 10)
    ensures NamesDeduction(slot, names) == Ok(10 * Unmet(cs))
    decreases |names|
  {
    if names != [] {
      assert forall i :: 0 <= i < |names[1..]| ==> names[1..][i] == names[i + 1] && cs[1..][i] == cs[i + 1];
      NamesDeductionOf(slot, names[1..], cs[1..]);
    }
  }

  /** An encoded slot loses ten points per unmet criterion, and a raw one none. */
  lemma EncodeSlotDeduction(s: Slot, names: seq<string>)
    requires SlotShaped(s, names) && DistinctNames(names) && "general" !in names
    ensures SlotDeduction(Some(EncodeSlot(s, names)), names) == Ok(10 * SlotUnmet(s))
  {
    if s.Structured? {
      var slot := Some(EncodeSlot(s, names));
      forall i | 0 <= i < |names|
        ensures CriterionDeduction(slot, names[i]) == Ok(if s.criteria[i].met then 0 else 10)
      {
        CriteriaMapLookup(s.criteria, names, i);
        assert names[i] != "general";
      }
      NamesDeductionOf(slot, names, s.criteria);
    }
  }

  /** `owner` is an object holding `v` under `key`. */
  predicate Stores(owner: Json, key: string, v: Json) {
    owner.Obj? && key in owner.fields && owner.fields[key] == v
  }

  /** Reading a slot stored under `key`. */
  lemma KeyDeductionAt(owner: Json, key: string, v: Json, names: seq<string>)
    requires Stores(owner, key, v)
    ensures KeyDeduction(owner, key, names) == SlotDeduction(Some(v), names)
  {
  }

  /** Reading the sections stored under `oreoSections`. */
  lemma BodyDeductionAt(result: Json, s: seq<Json>)
    requires Stores(result, "oreoSections", Arr(s))
    ensures BodyDeduction(result) == SectionsDeduction(s)
  {
  }

  /** Two successful deductions add up. */
  lemma PlusTwo(a: Result<int, string>, b: Result<int, string>, x: int, y: int, t: int)
    requires a == Ok(x) && b == Ok(y) && t == x + y
    ensures Plus(a, b) == Ok(t)
  {
  }

  /** Three successful deductions add up. */
  lemma PlusThree(a: Result<int, string>, b: Result<int, string>, c: Result<int, string>, x: int, y: int, z: int, t: int)
    requires a == Ok(x) && b == Ok(y) && c == Ok(z) && t == x + y + z
    ensures Plus(Plus(a, b), c) == Ok(t)
  {
  }

  /** Four successful deductions, added in pairs, add up. */
  lemma PlusPairs(a: Result<int, string>, b: Result<int, string>, c: Result<int, string>, d: Result<int, string>,
                  w: int, x: int, y: int, z: int, t: int)
    requires a == Ok(w) && b == Ok(x) && c == Ok(y) && d == Ok(z) && t == w + x + y + z
    ensures Plus(Plus(a, b), Plus(c, d)) == Ok(t)
  {
  }

  lemma SectionDeductionParts(section: Json)
    ensures SectionDeduction(section) ==
      Plus(Plus(KeyDeduction(section, "bodyO1", OpinionNames), KeyDeduction(section, "bodyR", ReasonNames)),
           Plus(KeyDeduction(section, "bodyE", ExampleNames), KeyDeduction(section, "bodyO2", ReemphasisNames)))
  {
  }

  /** The four slots of a section, once each slot's charge is known. */
  lemma SectionDeductionOf(section: Json, f: SectionFeedback)
    requires KeyDeduction(section, "bodyO1", OpinionNames) == Ok(10 * SlotUnmet(f.opinion))
    requires KeyDeduction(section, "bodyR", ReasonNames) == Ok(10 * SlotUnmet(f.reason))
    requires KeyDeduction(section, "bodyE", ExampleNames) == Ok(10 * SlotUnmet(f.example))
    requires KeyDeduction(section, "bodyO2", ReemphasisNames) == Ok(10 * SlotUnmet(f.reemphasis))
    ensures SectionDeduction(section) == Ok(10 * SectionUnmet(f))
  {
    SectionDeductionParts(section);
    TenPerSection(f);
    PlusPairs(KeyDeduction(section, "bodyO1", OpinionNames), KeyDeduction(section, "bodyR", ReasonNames),
              KeyDeduction(section, "bodyE", ExampleNames), KeyDeduction(section, "bodyO2", ReemphasisNames),
              10 * SlotUnmet(f.opinion), 10 * SlotUnmet(f.reason), 10 * SlotUnmet(f.example), 10 * SlotUnmet(f.reemphasis),
              10 * SectionUnmet(f));
  }

  lemma TenPerSection(f: SectionFeedback)
    ensures 10 * SectionUnmet(f) ==
      10 * SlotUnmet(f.opinion) + 10 * SlotUnmet(f.reason) + 10 * SlotUnmet(f.example) + 10 * SlotUnmet(f.reemphasis)
  {
  }

  /** An encoded slot stored under `key` is charged for its unmet criteria. */
  lemma SlotAt(owner: Json, key: string, s: Slot, names: seq<string>)
    requires SlotShaped(s, names) && DistinctNames(names) && "general" !in names
    requires Stores(owner, key, EncodeSlot(s, names))
    ensures KeyDeduction(owner, key, names) == Ok(10 * SlotUnmet(s))
  {
    KeyDeductionAt(owner, key, EncodeSlot(s, names), names);
    EncodeSlotDeduction(s, names);
  }

  /** An object holding the encoded slots of `f` is charged for `f`'s unmet criteria. */
  lemma SectionHoldingDeduction(section: Json, f: SectionFeedback)
    requires SectionShaped(f)
    requires Stores(section, "bodyO1", EncodeSlot(f.opinion, OpinionNames))
    requires Stores(section, "bodyR", EncodeSlot(f.reason, ReasonNames))
    requires Stores(section, "bodyE", EncodeSlot(f.example, ExampleNames))
    requires Stores(section, "bodyO2", EncodeSlot(f.reemphasis, ReemphasisNames))
    ensures SectionDeduction(section) == Ok(10 * SectionUnmet(f))
  {
    SlotAt(section, "bodyO1", f.opinion, OpinionNames);
    SlotAt(section, "bodyR", f.reason, ReasonNames);
    SlotAt(section, "bodyE", f.example, ExampleNames);
    SlotAt(section, "bodyO2", f.reemphasis, ReemphasisNames);
    SectionDeductionOf(section, f);
  }

  lemma EncodeSectionFields(f: SectionFeedback)
    ensures Stores(EncodeSection(f), "bodyO1", EncodeSlot(f.opinion, OpinionNames))
    ensures Stores(EncodeSection(f), "bodyR", EncodeSlot(f.reason, ReasonNames))
    ensures Stores(EncodeSection(f), "bodyE", EncodeSlot(f.example, ExampleNames))
    ensures Stores(EncodeSection(f), "bodyO2", EncodeSlot(f.reemphasis, ReemphasisNames))
  {
  }

  /** An encoded section is charged ten points per unmet criterion. */
  lemma EncodeSectionDeduction(f: SectionFeedback)
    requires SectionShaped(f)
    ensures SectionDeduction(EncodeSection(f)) == Ok(10 * SectionUnmet(f))
  {
    EncodeSectionFields(f);
    SectionHoldingDeduction(EncodeSection(f), f);
  }

  /** A list whose every entry holds the encoding of the matching section. */
  lemma {:induction false} SectionsHoldingDeduction(js: seq<Json>, s: seq<SectionFeedback>)
    requires |js| == |s|
    requires forall i :: 0 <= i < |s| ==> SectionDeduction(js[i]) == Ok(10 * SectionUnmet(s[i]))
    ensures SectionsDeduction(js) == Ok(10 * SectionsUnmet(s))
    decreases |s|
  {
    if s != [] {
      TailCharged(js, s);
      SectionsHoldingDeduction(js[1..], s[1..]);
      TenPerSections(s);
      SectionsSum(js, 10 * SectionUnmet(s[0]), 10 * SectionsUnmet(s[1..]), 10 * SectionsUnmet(s));
    }
  }

  lemma TailCharged(js: seq<Json>, s: seq<SectionFeedback>)
    requires |js| == |s| && s != []
    requires forall i :: 0 <= i < |s| ==> SectionDeduction(js[i]) == Ok(10 * SectionUnmet(s[i]))
    ensures forall i :: 0 <= i < |s[1..]| ==> SectionDeduction(js[1..][i]) == Ok(10 * SectionUnmet(s[1..][i]))
  {
    assert forall i :: 0 <= i < |s[1..]| ==> s[1..][i] == s[i + 1] && js[1..][i] == js[i + 1];
  }

  /** A non-empty list of sections, once its head and tail charges are known. */
  lemma SectionsSum(js: seq<Json>, x: int, y: int, t: int)
    requires js != [] && SectionDeduction(js[0]) == Ok(x) && SectionsDeduction(js[1..]) == Ok(y) && t == x + y
    ensures SectionsDeduction(js) == Ok(t)
  {
    SectionsDeductionParts(js);
    PlusTwo(SectionDeduction(js[0]), SectionsDeduction(js[1..]), x, y, t);
  }

  lemma SectionsDeductionParts(js: seq<Json>)
    requires js != []
    ensures SectionsDeduction(js) == Plus(SectionDeduction(js[0]), SectionsDeduction(js[1..]))
  {
  }

  lemma TenPerSections(s: seq<SectionFeedback>)
    requires s != []
    ensures 10 * SectionsUnmet(s) == 10 * SectionUnmet(s[0]) + 10 * SectionsUnmet(s[1..])
  {
  }

  lemma EncodeSectionsDeduction(s: seq<SectionFeedback>)
    requires forall i :: 0 <= i < |s| ==> SectionShaped(s[i])
    ensures SectionsDeduction(EncodeSections(s)) == Ok(10 * SectionsUnmet(s))
  {
    var js := EncodeSections(s);
    forall i | 0 <= i < |s|
      ensures SectionDeduction(js[i]) == Ok(10 * SectionUnmet(s[i]))
    {
      EncodeSectionDeduction(s[i]);
    }
    SectionsHoldingDeduction(js, s);
  }

  lemma DeductionsParts(result: Json)
    ensures Deductions(result) ==
      Plus(Plus(KeyDeduction(result, "introduction", IntroNames), BodyDeduction(result)),
           KeyDeduction(result, "conclusion", ConclusionNames))
  {
  }

  /** The three parts of a result, once each part's charge is known. */
  lemma DeductionsSum(result: Json, intro: int, body: int, conclusion: int, t: int)
    requires KeyDeduction(result, "introduction", IntroNames) == Ok(intro)
    requires BodyDeduction(result) == Ok(body)
    requires KeyDeduction(result, "conclusion", ConclusionNames) == Ok(conclusion)
    requires t == intro + body + conclusion
    ensures Deductions(result) == Ok(t)
  {
    DeductionsParts(result);
    PlusThree(KeyDeduction(result, "introduction", IntroNames), BodyDeduction(result),
              KeyDeduction(result, "conclusion", ConclusionNames), intro, body, conclusion, t);
  }

  lemma DeductionsOf(result: Json, r: CorrectionResult)
    requires KeyDeduction(result, "introduction", IntroNames) == Ok(10 * SlotUnmet(r.introduction))
    requires BodyDeduction(result) == Ok(10 * SectionsUnmet(r.sections))
    requires KeyDeduction(result, "conclusion", ConclusionNames) == Ok(10 * SlotUnmet(r.conclusion))
    ensures Deductions(result) == Ok(10 * UnmetCount(r))
  {
    TenPerResult(r);
    DeductionsSum(result, 10 * SlotUnmet(r.introduction), 10 * SectionsUnmet(r.sections), 10 * SlotUnmet(r.conclusion),
                  10 * UnmetCount(r));
  }

  lemma TenPerResult(r: CorrectionResult)
    ensures 10 * UnmetCount(r) ==
      10 * SlotUnmet(r.introduction) + 10 * SectionsUnmet(r.sections) + 10 * SlotUnmet(r.conclusion)
  {
  }

  /** An object holding the encoded parts of `r` is charged for `r`'s unmet criteria. */
  lemma ResultHoldingDeductions(result: Json, r: CorrectionResult)
    requires WellShaped(r)
    requires Stores(result, "introduction", EncodeSlot(r.introduction, IntroNames))
    requires Stores(result, "oreoSections", Arr(EncodeSections(r.sections)))
    requires Stores(result, "conclusion", EncodeSlot(r.conclusion, ConclusionNames))
    ensures Deductions(result) == Ok(10 * UnmetCount(r))
  {
    SlotAt(result, "introduction", r.introduction, IntroNames);
    SlotAt(result, "conclusion", r.conclusion, ConclusionNames);
    BodyDeductionAt(result, EncodeSections(r.sections));
    EncodeSectionsDeduction(r.sections);
    DeductionsOf(result, r);
  }

  lemma EncodeFields(r: CorrectionResult)
    ensures Stores(Encode(r), "introduction", EncodeSlot(r.introduction, IntroNames))
    ensures Stores(Encode(r), "oreoSections", Arr(EncodeSections(r.sections)))
    ensures Stores(Encode(r), "conclusion", EncodeSlot(r.conclusion, ConclusionNames))
  {
  }

  /** Read from its JSON form as the source reads it, a well-shaped result is
      charged ten points per unmet criterion. */
  lemma DeductionsEncode(r: CorrectionResult)
    requires WellShaped(r)
    ensures Deductions(Encode(r)) == Ok(10 * UnmetCount(r))
  {
    EncodeFields(r);
    ResultHoldingDeductions(Encode(r), r);
  }

  lemma ScoreJsonParts(result: Json, draftSections: nat)
    ensures ScoreJson(Some(result), draftSections) == ScoreFrom(Deductions(result), draftSections)
  {
  }

  lemma ScoreFromOk(deductions: Result<int, string>, d: int, draftSections: nat, score: int)
    requires deductions == Ok(d) && score == Min(100 - d + Bonus(draftSections), 100)
    ensures ScoreFrom(deductions, draftSections) == Ok(score)
  {
  }

  /** The score of any value whose deductions are known. */
  lemma ScoreJsonOf(result: Json, d: int, draftSections: nat, score: int)
    requires Deductions(result) == Ok(d) && score == Min(100 - d + Bonus(draftSections), 100)
    ensures ScoreJson(Some(result), draftSections) == Ok(score)
  {
    ScoreJsonParts(result, draftSections);
    ScoreFromOk(Deductions(result), d, draftSections, score);
  }

  lemma ExpectedScoreOf(r: CorrectionResult, draftSections: nat)
    ensures ExpectedScore(Some(r), draftSections) == Min(100 - 10 * UnmetCount(r) + Bonus(draftSections), 100)
  {
  }

  /** A value charged for exactly `r`'s unmet criteria scores what `r` scores. */
  lemma ChargedScore(result: Json, r: CorrectionResult, draftSections: nat)
    requires Deductions(result) == Ok(10 * UnmetCount(r))
    ensures ScoreJson(Some(result), draftSections) == Ok(ExpectedScore(Some(r), draftSections))
  {
    ExpectedScoreOf(r, draftSections);
    ScoreJsonOf(result, 10 * UnmetCount(r), draftSections, ExpectedScore(Some(r), draftSections));
  }

  /** Read from its JSON form as the source reads it, a well-shaped result scores
      exactly the closed formula; no result scores 0. */
  lemma ScoreJsonEncode(r: CorrectionResult, draftSections: nat)
    requires WellShaped(r)
    ensures ScoreJson(Some(Encode(r)), draftSections) == Ok(ExpectedScore(Some(r), draftSections))
    ensures ScoreJson(None, draftSections) == Ok(ExpectedScore(None, draftSections))
  {
    DeductionsEncode(r);
    ChargedScore(Encode(r), r, draftSections);
  }

  /** A result whose introduction and conclusion are plain strings and whose
      body is empty deducts nothing. */
  lemma PlainDeductsNothing(result: Json)
    requires Stores(result, "introduction", Str(""))
    requires Stores(result, "conclusion", Str(""))
    requires Stores(result, "oreoSections", Arr([]))
    ensures Deductions(result) == Ok(0)
  {
    PlainSlot(result, "introduction", IntroNames);
    PlainSlot(result, "conclusion", ConclusionNames);
    EmptyBody(result);
    DeductionsSum(result, 0, 0, 0, 0);
  }

  /** An empty string in a slot is not an object, so nothing is read from it. */
  lemma PlainSlot(owner: Json, key: string, names: seq<string>)
    requires Stores(owner, key, Str(""))
    ensures KeyDeduction(owner, key, names) == Ok(0)
  {
    KeyDeductionAt(owner, key, Str(""), names);
  }

  lemma EmptyBody(result: Json)
    requires Stores(result, "oreoSections", Arr([]))
    ensures BodyDeduction(result) == Ok(0)
  {
    BodyDeductionAt(result, []);
  }

  /** The text-only fallback has no structured slot and no section: it scores 100. */
  lemma FallbackScoresFull(text: string, draftSections: nat)
    ensures ScoreJson(Some(Normalizer.Fallback(text)), draftSections) == Ok(100)
  {
    FallbackFields(text);
    PlainDeductsNothing(Normalizer.Fallback(text));
  }

  lemma FallbackFields(text: string)
    ensures Stores(Normalizer.Fallback(text), "introduction", Str(""))
    ensures Stores(Normalizer.Fallback(text), "conclusion", Str(""))
    ensures Stores(Normalizer.Fallback(text), "oreoSections", Arr([]))
  {
  }

  /** A slot that passes `typeof … === 'object'` but lacks its first criterion
      (`null`, an array, or an object without that key) makes the score throw. */
  lemma MalformedSlotThrows(v: Option<Json>, names: seq<string>)
    requires IsObjectType(v) && names != []
    requires !v.value.Obj? || names[0] !in v.value.fields
    ensures SlotDeduction(v, names).Err?
  {
  }
}
