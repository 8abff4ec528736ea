/** The essay draft the student edits: a title, an introduction, one or more
    OREO (opinion, reason, example, reemphasis) body sections and a conclusion,
    together with the four editing handlers of the form. */
module EssayDraft {

  datatype Section = Section(id: string, opinion: string, reason: string, example: string, reemphasis: string)

  datatype Draft = Draft(title: string, introduction: string, sections: seq<Section>, conclusion: string)

  /** The top-level text fields `handleInputChange` may set. */
  datatype TopField = Title | Introduction | Conclusion

  /** `keyof OREOSection`: every field of a section, its id included. */
  datatype SectionField = Id | Opinion | Reason | Example | Reemphasis

  function Blank(id: string): Section {
    Section(id, "", "", "", "")
  }

  /** The form's initial state: empty texts and one blank section with id "1". */
  const Initial: Draft := Draft("", "", [Blank("1")], "")

  function Get(d: Draft, f: TopField): string {
    match f
    case Title => d.title
    case Introduction => d.introduction
    case Conclusion => d.conclusion
  }

  function GetSection(s: Section, f: SectionField): string {
    match f
    case Id => s.id
    case Opinion => s.opinion
    case Reason => s.reason
    case Example => s.example
    case Reemphasis => s.reemphasis
  }

  function SetSection(s: Section, f: SectionField, v: string): (r: Section)
    ensures GetSection(r, f) == v
    ensures forall g :: g != f ==> GetSection(r, g) == GetSection(s, g)
  {
    match f
    case Id => s.(id := v)
    case Opinion => s.(opinion := v)
    case Reason => s.(reason := v)
    case Example => s.(example := v)
    case Reemphasis => s.(reemphasis := v)
  }

  /** `handleInputChange`: replace one top-level field, keep everything else. */
  function SetField(d: Draft, f: TopField, v: string): (r: Draft)
    ensures Get(r, f) == v
    ensures forall g :: g != f ==> Get(r, g) == Get(d, g)
    ensures r.sections == d.sections
  {
    match f
    case Title => d.(title := v)
    case Introduction => d.(introduction := v)
    case Conclusion => d.(conclusion := v)
  }

  /** Writing back the value just read changes nothing. */
  lemma SetFieldGetIsIdentity(d: Draft, f: TopField)
    ensures SetField(d, f, Get(d, f)) == d
  {
  }

  /** A second write to the same field overrides the first. */
  lemma SetFieldTwice(d: Draft, f: TopField, v: string, w: string)
    ensures SetField(SetField(d, f, v), f, w) == SetField(d, f, w)
  {
  }

  /** `handleOREOInputChange`: every section whose id equals `id` gets field `f`
      set to `v`; all other sections, their order, and the top-level fields stay. */
  function SetSectionField(d: Draft, id: string, f: SectionField, v: string): (r: Draft)
    ensures |r.sections| == |d.sections|
    ensures r.title == d.title && r.introduction == d.introduction && r.conclusion == d.conclusion
    ensures forall i :: 0 <= i < |d.sections| && d.sections[i].id != id ==> r.sections[i] == d.sections[i]
    ensures forall i :: 0 <= i < |d.sections| && d.sections[i].id == id ==>
      && GetSection(r.sections[i], f) == v
      && forall g :: g != f ==> GetSection(r.sections[i], g) == GetSection(d.sections[i], g)
  {
    d.(sections := seq(|d.sections|, i requires 0 <= i < |d.sections| =>
      if d.sections[i].id == id then SetSection(d.sections[i], f, v) else d.sections[i]))
  }

  lemma SectionExt(a: Section, b: Section)
    requires forall g :: GetSection(a, g) == GetSection(b, g)
    ensures a == b
  {
    assert GetSection(a, Id) == GetSection(b, Id);
    assert GetSection(a, Opinion) == GetSection(b, Opinion);
    assert GetSection(a, Reason) == GetSection(b, Reason);
    assert GetSection(a, Example) == GetSection(b, Example);
    assert GetSection(a, Reemphasis) == GetSection(b, Reemphasis);
  }

  /** Editing a section nobody has is a no-op. */
  lemma SetSectionFieldMissingId(d: Draft, id: string, f: SectionField, v: string)
    requires forall i :: 0 <= i < |d.sections| ==> d.sections[i].id != id
    ensures SetSectionField(d, id, f, v) == d
  {
    var r := SetSectionField(d, id, f, v);
    assert r.sections == d.sections;
  }

  /** Repeating an edit has no further effect, even when the edited field is the id. */
  lemma SetSectionFieldIdempotent(d: Draft, id: string, f: SectionField, v: string)
    ensures SetSectionField(SetSectionField(d, id, f, v), id, f, v) == SetSectionField(d, id, f, v)
  {
    var r1 := SetSectionField(d, id, f, v);
    var r2 := SetSectionField(r1, id, f, v);
    forall i | 0 <= i < |d.sections| ensures r2.sections[i] == r1.sections[i] {
      if r1.sections[i].id == id {
        assert d.sections[i].id == id;
        forall g ensures GetSection(r2.sections[i], g) == GetSection(r1.sections[i], g) {
          if g != f {
            assert GetSection(r1.sections[i], g) == GetSection(d.sections[i], g);
          }
        }
        SectionExt(r2.sections[i], r1.sections[i]);
      }
    }
    assert r2.sections == r1.sections;
  }

  /** `addOREOSection`: a blank section with the caller-supplied id (the source
      takes `String(Date.now())`) is appended after the existing ones. */
  function AddSection(d: Draft, newId: string): (r: Draft)
    ensures |r.sections| == |d.sections| + 1
    ensures r.sections[..|d.sections|] == d.sections
    ensures r.sections[|d.sections|] == Blank(newId)
    ensures r.title == d.title && r.introduction == d.introduction && r.conclusion == d.conclusion
  {
    d.(sections := d.sections + [Blank(newId)])
  }

  /** The sections whose id differs from `id`, in their original order. */
  function Without(s: seq<Section>, id: string): (r: seq<Section>)
    ensures |r| <= |s|
    ensures forall x :: x in r <==> x in s && x.id != id
    decreases |s|
  {
    if s == [] then []
    else if s[0].id == id then Without(s[1..], id)
    else [s[0]] + Without(s[1..], id)
  }

  /** Filtering distributes over concatenation: kept sections keep their relative order. */
  lemma {:induction false} WithoutAppend(s: seq<Section>, t: seq<Section>, id: string)
    ensures Without(s + t, id) == Without(s, id) + Without(t, id)
    decreases |s|
  {
    if s != [] {
      assert (s + t)[0] == s[0];
      assert (s + t)[1..] == s[1..] + t;
      WithoutAppend(s[1..], t, id);
      if s[0].id != id {
        assert Without(s + t, id) == [s[0]] + Without(s[1..] + t, id);
        assert Without(s, id) == [s[0]] + Without(s[1..], id);
      }
    } else {
      assert s + t == t;
    }
  }

  /** `removeOREOSection`: refused when one section or fewer remain; otherwise
      every section carrying `id` is dropped. */
  function RemoveSection(d: Draft, id: string): (r: Draft)
    ensures |d.sections| <= 1 ==> r == d
    ensures |d.sections| > 1 ==> r.sections == Without(d.sections, id)
    ensures r.title == d.title && r.introduction == d.introduction && r.conclusion == d.conclusion
  {
    if |d.sections| <= 1 then d else d.(sections := Without(d.sections, id))
  }

  predicate UniqueIds(s: seq<Section>) {
    forall i, j :: 0 <= i < j < |s| ==> s[i].id != s[j].id
  }

  /** The invariant the form relies on: at least one section, ids pairwise distinct. */
  predicate Valid(d: Draft) {
    |d.sections| >= 1 && UniqueIds(d.sections)
  }

  /** With distinct ids, filtering by one id removes at most one section. */
  lemma {:induction false} WithoutUniqueDropsAtMostOne(s: seq<Section>, id: string)
    requires UniqueIds(s)
    ensures |Without(s, id)| >= |s| - 1
    ensures UniqueIds(Without(s, id))
    decreases |s|
  {
    if s != [] {
      WithoutUniqueDropsAtMostOne(s[1..], id);
      if s[0].id == id {
        WithoutNoMatch(s[1..], id);
      } else {
        var r := Without(s[1..], id);
        forall j | 0 <= j < |r| ensures r[j].id != s[0].id {
          assert r[j] in s[1..];
        }
      }
    }
  }

  lemma {:induction false} WithoutNoMatch(s: seq<Section>, id: string)
    requires forall i :: 0 <= i < |s| ==> s[i].id != id
    ensures Without(s, id) == s
    decreases |s|
  {
    if s != [] {
      WithoutNoMatch(s[1..], id);
    }
  }

  /** Removal keeps the draft valid: the section count never drops below one. */
  lemma RemovePreservesValid(d: Draft, id: string)
    requires Valid(d)
    ensures Valid(RemoveSection(d, id))
    ensures |RemoveSection(d, id).sections| >= 1
  {
    if |d.sections| > 1 {
      WithoutUniqueDropsAtMostOne(d.sections, id);
    }
  }

  /** Without distinct ids the guard is not enough: two sections sharing an id
      both go at once and the draft is left with none. */
  lemma DuplicateIdsEmptyDraft()
    ensures var d := Draft("", "", [Blank("7"), Blank("7")], "");
      |RemoveSection(d, "7").sections| == 0
  {
  }

  /** Adding a section with a fresh id keeps the draft valid. */
  lemma AddPreservesValid(d: Draft, newId: string)
    requires Valid(d)
    requires forall i :: 0 <= i < |d.sections| ==> d.sections[i].id != newId
    ensures Valid(AddSection(d, newId))
  {
  }

  /** Editing any field but the id keeps the draft valid. */
  lemma SetSectionFieldPreservesValid(d: Draft, id: string, f: SectionField, v: string)
    requires Valid(d) && f != Id
    ensures Valid(SetSectionField(d, id, f, v))
  {
    var r := SetSectionField(d, id, f, v);
    forall i | 0 <= i < |d.sections| ensures r.sections[i].id == d.sections[i].id {
      if d.sections[i].id == id {
        assert GetSection(r.sections[i], Id) == GetSection(d.sections[i], Id);
      }
    }
  }

  /** Adding a section and then removing it by its fresh id restores the draft. */
  lemma {:induction false} AddThenRemove(d: Draft, newId: string)
    requires |d.sections| >= 1
    requires forall i :: 0 <= i < |d.sections| ==> d.sections[i].id != newId
    ensures RemoveSection(AddSection(d, newId), newId) == d
  {
    WithoutAppend(d.sections, [Blank(newId)], newId);
    WithoutNoMatch(d.sections, newId);
    assert Without([Blank(newId)], newId) == [];
  }
}
