/** The handling of the model's reply inside `handleSubmit`: the JSON object is
    cut out of the reply text, parsed, its `general` texts are made formal, the
    legacy flat body fields are folded into an `oreoSections` array, and any
    failure falls back to a text-only result. */
module Normalizer {
  import opened Wrappers
  import opened Text
  import opened JsonValue
  import Register

  // ---------------------------------------------------------------------------
  // Cutting the JSON out of the reply: `correctionText.match(/\{[\s\S]*\}/)`

  /** The regex `\{[\s\S]*\}` matches `text[i..j]`. */
  predicate IsMatch(text: string, i: nat, j: nat) {
    i + 1 < j <= |text| && text[i] == '{' && text[j - 1] == '}'
  }

  /** The last index holding `c`. */
  function LastIndexOf(s: string, c: char): (r: Option<nat>)
    ensures r.Some? ==> r.value < |s| && s[r.value] == c
    decreases |s|
  {
    if s == [] then None
    else if s[|s| - 1] == c then Some(|s| - 1)
    else LastIndexOf(s[..|s| - 1], c)
  }

  /** Every `c` lies at or before the index found. */
  lemma {:induction false} LastIndexOfIsLast(s: string, c: char, k: nat)
    requires k < |s| && s[k] == c
    ensures LastIndexOf(s, c).Some? && k <= LastIndexOf(s, c).value
    decreases |s|
  {
    if s[|s| - 1] != c {
      assert k < |s| - 1;
      assert s[..|s| - 1][k] == c;
      LastIndexOfIsLast(s[..|s| - 1], c, k);
    }
  }

  /** The match: the search starts at the first `{`, and the greedy `[\s\S]*`
      followed by `\}` ends at the last `}`. A later `{` cannot help when the
      first one has no `}` after it. */
  function ExtractJson(text: string): (r: Option<string>)
    ensures r.Some? ==> |r.value| >= 2
  {
    var i := IndexOfFrom(text, 0, '{');
    match LastIndexOf(text, '}')
    case Some(j) => if i < j then Some(text[i..j + 1]) else None
    case None => None
  }

  /** The regex matches exactly when some `{` has a `}` after it. */
  lemma ExtractJsonMatches(text: string)
    ensures ExtractJson(text).Some? <==> exists i: nat, j: nat :: IsMatch(text, i, j)
  {
    var i := IndexOfFrom(text, 0, '{');
    if ExtractJson(text).Some? {
      var j := LastIndexOf(text, '}').value;
      assert IsMatch(text, i, j + 1);
    } else if exists i': nat, j': nat :: IsMatch(text, i', j') {
      var i': nat, j': nat :| IsMatch(text, i', j');
      FirstOpening(text, i');
      LastIndexOfIsLast(text, '}', j' - 1);
    }
  }

  /** Every `{` lies at or after the first one. */
  lemma FirstOpening(text: string, k: nat)
    requires k < |text| && text[k] == '{'
    ensures IndexOfFrom(text, 0, '{') <= k
  {
    if k < IndexOfFrom(text, 0, '{') {
      IndexOfFromIsFirst(text, 0, '{', k);
    }
  }

  /** What is extracted is itself a match, and every other match lies inside it:
      it runs from the first `{` to the last `}`. */
  lemma ExtractJsonWidest(text: string)
    requires ExtractJson(text).Some?
    ensures exists i: nat, j: nat :: (IsMatch(text, i, j) && ExtractJson(text).value == text[i..j]
      && forall i': nat, j': nat :: IsMatch(text, i', j') ==> i <= i' && j' <= j)
  {
    var i := IndexOfFrom(text, 0, '{');
    var j := LastIndexOf(text, '}').value;
    assert IsMatch(text, i, j + 1);
    forall i': nat, j': nat | IsMatch(text, i', j') ensures i <= i' && j' <= j + 1 {
      FirstOpening(text, i');
      LastIndexOfIsLast(text, '}', j' - 1);
    }
  }

  // ---------------------------------------------------------------------------
  // Making the `general` texts formal

  /** The legacy flat body fields, in the order the code visits them. */
  const FlatKeys: seq<string> := ["bodyO1", "bodyR", "bodyE", "bodyO2"]

  /** `convertToFormalStyle(g)`: a falsy value comes back unchanged, a string is
      converted, and anything else has no `replace` method and throws. */
  function FormalGeneral(g: Option<Json>, conv: string -> string): (r: Result<Option<Json>, string>)
  {
    if !Truthy(g) then Ok(g)
    else if g.value.Str? then Ok(Some(Str(conv(g.value.s))))
    else Err(TypeError)
  }

  /** `if (v && typeof v === 'object') v.general = convertToFormalStyle(v.general)`.
      On an array the assignment stores `undefined` under a name JSON cannot
      show, so an array is left as it is. */
  function SlotPass(v: Option<Json>, conv: string -> string): (r: Result<Option<Json>, string>)
  {
    if Truthy(v) && IsObjectType(v) then
      match v.value
      case Obj(m) =>
        (match FormalGeneral(Field(m, "general"), conv)
         case Err(e) => Err(e)
         case Ok(g) => Ok(Some(Obj(Put(m, "general", g)))))
      case _ => Ok(v)
    else Ok(v)
  }

  /** What a successful slot pass does to a slot: an object keeps every key and
      every other member (the `met`/`feedback` criteria among them); a non-empty
      string `general` is converted and any other `general` kept. Anything that is
      not an object is left alone. */
  ghost predicate SlotRewritten(a: Json, b: Json, conv: string -> string) {
    match a
    case Obj(m) =>
      && b.Obj? && b.fields.Keys == m.Keys
      && (forall k :: k in m && k != "general" ==> b.fields[k] == m[k])
      && ("general" in m && m["general"].Str? && m["general"].s != [] ==> b.fields["general"] == Str(conv(m["general"].s)))
      && ("general" in m && !Truthy(Some(m["general"])) ==> b.fields["general"] == m["general"])
    case _ => b == a
  }

  /** The slot pass throws exactly on an object whose `general` is truthy but not
      a string; otherwise it rewrites the slot as `SlotRewritten` says and keeps
      a missing slot missing. */
  lemma SlotPassSpec(v: Option<Json>, conv: string -> string)
    ensures SlotPass(v, conv).Err? <==>
      v.Some? && v.value.Obj? && Truthy(Field(v.value.fields, "general")) && !v.value.fields["general"].Str?
    ensures SlotPass(v, conv).Ok? ==>
      && (v.None? <==> SlotPass(v, conv).value.None?)
      && (v.Some? ==> SlotRewritten(v.value, SlotPass(v, conv).value.value, conv))
  {
  }

  /** The pass of the slot under `key`, written back to `key`. */
  function SlotStep(m: map<string, Json>, key: string, conv: string -> string): (r: Result<map<string, Json>, string>)
  {
    match SlotPass(Field(m, key), conv)
    case Err(e) => Err(e)
    case Ok(v) => Ok(Put(m, key, v))
  }

  /** The slot passes over `keys`, in order. */
  function SlotsPass(m: map<string, Json>, keys: seq<string>, conv: string -> string): (r: Result<map<string, Json>, string>)
    decreases |keys|
  {
    if keys == [] then Ok(m)
    else
      match SlotStep(m, keys[0], conv)
      case Err(e) => Err(e)
      case Ok(m1) => SlotsPass(m1, keys[1..], conv)
  }

  /** The slot passes for one section. Reading `bodyO1` of `null` throws; a
      primitive or an array has no body slots and is left as it is. */
  function SectionPass(section: Json, conv: string -> string): (r: Result<Json, string>)
  {
    match section
    case Null => Err(TypeError)
    case Obj(m) =>
      (match SlotsPass(m, FlatKeys, conv)
       case Err(e) => Err(e)
       case Ok(m') => Ok(Obj(m')))
    case _ => Ok(section)
  }

  /** `oreoSections.forEach(…)`: every section in turn; a throw ends the pass. */
  function SectionsPass(s: seq<Json>, conv: string -> string): (r: Result<seq<Json>, string>)
    decreases |s|
  {
    if s == [] then Ok([])
    else
      match SectionPass(s[0], conv)
      case Err(e) => Err(e)
      case Ok(a) =>
        (match SectionsPass(s[1..], conv)
         case Err(e) => Err(e)
         case Ok(rest) => Ok([a] + rest))
  }

  /** The fresh section of the legacy branch: each flat field, or `''` when it is falsy. */
  function Defaults(m: map<string, Json>): map<string, Json> {
    map k | k in FlatKeys :: Or(Field(m, k), Str(""))
  }

  /** The body step: an `oreoSections` array has its sections passed in place;
      otherwise one section is built from the flat fields, the flat fields are
      deleted and the array of that one section is stored. */
  function BodyPass(m: map<string, Json>, conv: string -> string): (r: Result<map<string, Json>, string>)
  {
    match Field(m, "oreoSections")
    case Some(Arr(s)) =>
      (match SectionsPass(s, conv)
       case Err(e) => Err(e)
       case Ok(s') => Ok(m["oreoSections" := Arr(s')]))
    case _ =>
      (match SectionPass(Obj(Defaults(m)), conv)
       case Err(e) => Err(e)
       case Ok(section) => Ok(Fold(m, section)))
  }

  /** `delete` of the four flat fields, then `oreoSections = [section]`. */
  function Fold(m: map<string, Json>, section: Json): map<string, Json> {
    (m - {"bodyO1", "bodyR", "bodyE", "bodyO2"})["oreoSections" := Arr([section])]
  }

  /** The whole reshaping of a parsed object: introduction, body, conclusion. */
  function Reshape(m: map<string, Json>, conv: string -> string): (r: Result<map<string, Json>, string>)
  {
    match SlotStep(m, "introduction", conv)
    case Err(e) => Err(e)
    case Ok(m1) =>
      match BodyPass(m1, conv)
      case Err(e) => Err(e)
      case Ok(m2) => SlotStep(m2, "conclusion", conv)
  }

  /** The text-only result stored when no object can be read from the reply. */
  function Fallback(text: string): Json {
    Obj(map["introduction" := Str(""), "oreoSections" := Arr([]), "conclusion" := Str(""), "overall" := Str(text)])
  }

  /** The stored correction result: `parse` stands for `JSON.parse` (`None` when it
      throws; a text that starts with `{` parses only to an object), `conv` for
      `convertToFormalStyle`. */
  function Normalize(text: string, parse: string -> Option<map<string, Json>>, conv: string -> string): (r: Json)
  {
    match ExtractJson(text)
    case None => Fallback(text)
    case Some(t) =>
      match parse(t)
      case None => Fallback(text)
      case Some(m) =>
        match Reshape(m, conv)
        case Err(_) => Fallback(text)
        case Ok(m') => Obj(m')
  }

  /** The pipeline as the component runs it, with `convertToFormalStyle` as
      written. */
  function NormalizeReply(text: string, parse: string -> Option<map<string, Json>>): Json {
    Normalize(text, parse, Register.ConvertAsWritten)
  }

  // ---------------------------------------------------------------------------
  // What the reshaping promises

  /** A slot step keeps every key, touches no other field and rewrites its slot. */
  lemma SlotStepSpec(m: map<string, Json>, key: string, conv: string -> string)
    requires SlotStep(m, key, conv).Ok?
    ensures var m' := SlotStep(m, key, conv).value;
      && m'.Keys == m.Keys
      && (forall k :: k != key ==> Field(m', k) == Field(m, k))
      && (key in m ==> SlotRewritten(m[key], m'[key], conv))
  {
    SlotPassSpec(Field(m, key), conv);
    var m' := SlotStep(m, key, conv).value;
    forall k ensures k in m' <==> k in m {
      assert Field(m', k).Some? <==> Field(m, k).Some?;
    }
  }

  /** No key is listed twice. */
  predicate Distinct(keys: seq<string>) {
    forall i, j :: 0 <= i < j < |keys| ==> keys[i] != keys[j]
  }

  /** The tail of a list without repeats has none, and lacks the head. */
  lemma DistinctTail(keys: seq<string>)
    requires keys != [] && Distinct(keys)
    ensures Distinct(keys[1..]) && keys[0] !in keys[1..]
  {
    forall i, j | 0 <= i < j < |keys[1..]| ensures keys[1..][i] != keys[1..][j] {
      assert keys[1..][i] == keys[i + 1] && keys[1..][j] == keys[j + 1];
    }
    forall i | 0 <= i < |keys[1..]| ensures keys[1..][i] != keys[0] {
      assert keys[1..][i] == keys[i + 1];
    }
  }

  /** The slot passes over distinct `keys` keep every key, leave the fields not
      in `keys` alone and rewrite each listed slot once. */
  lemma {:induction false} SlotsPassSpec(m: map<string, Json>, keys: seq<string>, conv: string -> string)
    requires Distinct(keys) && SlotsPass(m, keys, conv).Ok?
    ensures var m' := SlotsPass(m, keys, conv).value;
      && m'.Keys == m.Keys
      && (forall k :: k !in keys ==> Field(m', k) == Field(m, k))
      && (forall k :: k in m && k in keys ==> SlotRewritten(m[k], m'[k], conv))
    decreases |keys|
  {
    if keys != [] {
      var m1 := SlotStep(m, keys[0], conv).value;
      DistinctTail(keys);
      SlotStepSpec(m, keys[0], conv);
      SlotsPassSpec(m1, keys[1..], conv);
      forall k | k in m && k in keys[1..] ensures m1[k] == m[k] {
        assert Field(m1, k) == Field(m, k);
      }
    }
  }

  /** A section after its slot passes: an object keeps its keys, each body slot is
      rewritten as `SlotRewritten` says and every other member is kept; anything
      else but `null` is left alone, and `null` never passes. */
  ghost predicate SectionAgrees(a: Json, b: Json, conv: string -> string) {
    match a
    case Obj(m) =>
      && b.Obj? && b.fields.Keys == m.Keys
      && (forall k :: k in m && k !in FlatKeys ==> b.fields[k] == m[k])
      && (forall k :: k in m && k in FlatKeys ==> SlotRewritten(m[k], b.fields[k], conv))
    case Null => false
    case _ => b == a
  }

  lemma FlatKeysDistinct()
    ensures Distinct(FlatKeys)
  {
  }

  lemma SectionPassSpec(a: Json, conv: string -> string)
    requires SectionPass(a, conv).Ok?
    ensures SectionAgrees(a, SectionPass(a, conv).value, conv)
  {
    if a.Obj? {
      FlatKeysDistinct();
      SlotsPassSpec(a.fields, FlatKeys, conv);
      var b := SectionPass(a, conv).value;
      forall k | k in a.fields && k !in FlatKeys ensures b.fields[k] == a.fields[k] {
        assert Field(b.fields, k) == Field(a.fields, k);
      }
    }
  }

  /** The array branch keeps the number and order of the sections and passes
      each one. */
  lemma {:induction false} SectionsPassSpec(s: seq<Json>, conv: string -> string)
    requires SectionsPass(s, conv).Ok?
    ensures |SectionsPass(s, conv).value| == |s|
    ensures forall i :: 0 <= i < |s| ==> SectionAgrees(s[i], SectionsPass(s, conv).value[i], conv)
    decreases |s|
  {
    if s != [] {
      SectionPassSpec(s[0], conv);
      SectionsPassSpec(s[1..], conv);
      var r := SectionsPass(s, conv).value;
      forall i | 1 <= i < |s| ensures SectionAgrees(s[i], r[i], conv) {
        assert s[i] == s[1..][i - 1];
      }
    }
  }

  /** An `oreoSections` value the array branch takes. */
  predicate HasSectionArray(m: map<string, Json>) {
    "oreoSections" in m && m["oreoSections"].Arr?
  }

  /** The body step touches only `oreoSections` and the flat fields. */
  lemma BodyPassFrame(m: map<string, Json>, conv: string -> string)
    requires BodyPass(m, conv).Ok?
    ensures HasSectionArray(BodyPass(m, conv).value)
    ensures forall k :: k != "oreoSections" && k !in FlatKeys ==> Field(BodyPass(m, conv).value, k) == Field(m, k)
  {
  }

  /** The three steps of a successful reshaping, named. */
  lemma ReshapeSteps(m: map<string, Json>, conv: string -> string)
    requires Reshape(m, conv).Ok?
    ensures SlotStep(m, "introduction", conv).Ok?
    ensures BodyPass(SlotStep(m, "introduction", conv).value, conv).Ok?
    ensures SlotStep(BodyPass(SlotStep(m, "introduction", conv).value, conv).value, "conclusion", conv) == Reshape(m, conv)
  {
  }

  /** Whatever the parsed object held, a reshaped object holds an `oreoSections`
      array, so reshaping it again takes the array branch. */
  lemma ReshapeGivesArray(m: map<string, Json>, conv: string -> string)
    requires Reshape(m, conv).Ok?
    ensures HasSectionArray(Reshape(m, conv).value)
  {
    ReshapeSteps(m, conv);
    var m1 := SlotStep(m, "introduction", conv).value;
    var m2 := BodyPass(m1, conv).value;
    BodyPassFrame(m1, conv);
    SlotStepSpec(m2, "conclusion", conv);
    assert Field(Reshape(m, conv).value, "oreoSections") == Field(m2, "oreoSections");
  }

  /** With an `oreoSections` array the section count and order are kept, every
      section is passed and the flat fields are not touched. */
  lemma ReshapeArraySpec(m: map<string, Json>, conv: string -> string)
    requires HasSectionArray(m) && Reshape(m, conv).Ok?
    ensures var m' := Reshape(m, conv).value;
      && HasSectionArray(m')
      && |m'["oreoSections"].items| == |m["oreoSections"].items|
      && (forall i :: 0 <= i < |m["oreoSections"].items| ==>
            SectionAgrees(m["oreoSections"].items[i], m'["oreoSections"].items[i], conv))
      && (forall k :: k in FlatKeys ==> Field(m', k) == Field(m, k))
  {
    ReshapeSteps(m, conv);
    var m1 := SlotStep(m, "introduction", conv).value;
    var m2 := BodyPass(m1, conv).value;
    SlotStepSpec(m, "introduction", conv);
    assert Field(m1, "oreoSections") == Field(m, "oreoSections");
    var s := m["oreoSections"].items;
    assert m2 == m1["oreoSections" := Arr(SectionsPass(s, conv).value)];
    SectionsPassSpec(s, conv);
    SlotStepSpec(m2, "conclusion", conv);
    var m' := Reshape(m, conv).value;
    assert Field(m', "oreoSections") == Field(m2, "oreoSections");
    forall k | k in FlatKeys ensures Field(m', k) == Field(m, k) {
      assert Field(m', k) == Field(m2, k) == Field(m1, k);
    }
  }

  /** The fresh section of the legacy branch has exactly the four flat keys. */
  lemma DefaultsKeys(m: map<string, Json>)
    ensures Defaults(m).Keys == {"bodyO1", "bodyR", "bodyE", "bodyO2"}
    ensures forall k :: k in FlatKeys ==> Defaults(m)[k] == Or(Field(m, k), Str(""))
  {
  }

  /** Two objects that agree on the flat fields build the same fresh section. */
  lemma DefaultsFrame(m: map<string, Json>, n: map<string, Json>)
    requires forall k :: k in FlatKeys ==> Field(m, k) == Field(n, k)
    ensures Defaults(m) == Defaults(n)
  {
  }

  /** The folded object holds the one section and none of the flat fields. */
  lemma FoldSpec(m: map<string, Json>, section: Json)
    ensures HasSectionArray(Fold(m, section)) && Fold(m, section)["oreoSections"].items == [section]
    ensures forall k :: k in FlatKeys ==> k !in Fold(m, section)
  {
  }

  /** The body step of the legacy branch, named. */
  lemma BodyPassLegacy(m: map<string, Json>, conv: string -> string)
    requires !HasSectionArray(m) && BodyPass(m, conv).Ok?
    ensures SectionPass(Obj(Defaults(m)), conv).Ok?
    ensures BodyPass(m, conv).value == Fold(m, SectionPass(Obj(Defaults(m)), conv).value)
  {
    assert !Field(m, "oreoSections").Some? || !Field(m, "oreoSections").value.Arr?;
  }

  /** Without an `oreoSections` array the result holds exactly one section, built
      from the flat fields (a falsy one becomes `''`) and then passed, and the flat
      fields themselves are gone. */
  lemma ReshapeLegacySpec(m: map<string, Json>, conv: string -> string)
    requires !HasSectionArray(m) && Reshape(m, conv).Ok?
    ensures var m' := Reshape(m, conv).value;
      && HasSectionArray(m')
      && |m'["oreoSections"].items| == 1
      && SectionAgrees(Obj(Defaults(m)), m'["oreoSections"].items[0], conv)
      && (forall k :: k in FlatKeys ==> k !in m')
  {
    ReshapeSteps(m, conv);
    var m1 := SlotStep(m, "introduction", conv).value;
    var m2 := BodyPass(m1, conv).value;
    SlotStepSpec(m, "introduction", conv);
    assert Field(m1, "oreoSections") == Field(m, "oreoSections");
    DefaultsFrame(m1, m);
    BodyPassLegacy(m1, conv);
    var section := SectionPass(Obj(Defaults(m)), conv).value;
    FoldSpec(m1, section);
    SectionPassSpec(Obj(Defaults(m)), conv);
    SlotStepSpec(m2, "conclusion", conv);
    var m' := Reshape(m, conv).value;
    assert Field(m', "oreoSections") == Field(m2, "oreoSections");
    forall k | k in FlatKeys ensures k !in m' {
      assert Field(m', k) == Field(m2, k);
    }
  }

  /** The keys the reshaping writes. */
  predicate Reshaped(k: string) {
    k == "introduction" || k == "conclusion" || k == "oreoSections" || k in FlatKeys
  }

  /** The introduction and conclusion slots are rewritten in place; every other
      key of the reply, `overall` among them, comes through unchanged. */
  lemma ReshapeKeepsOthers(m: map<string, Json>, conv: string -> string)
    requires Reshape(m, conv).Ok?
    ensures var m' := Reshape(m, conv).value;
      && (forall k :: !Reshaped(k) ==> Field(m', k) == Field(m, k))
      && ("introduction" in m' <==> "introduction" in m)
      && ("introduction" in m ==> SlotRewritten(m["introduction"], m'["introduction"], conv))
      && ("conclusion" in m' <==> "conclusion" in m)
      && ("conclusion" in m ==> SlotRewritten(m["conclusion"], m'["conclusion"], conv))
  {
    ReshapeSteps(m, conv);
    var m1 := SlotStep(m, "introduction", conv).value;
    var m2 := BodyPass(m1, conv).value;
    var m' := Reshape(m, conv).value;
    SlotStepSpec(m, "introduction", conv);
    BodyPassFrame(m1, conv);
    SlotStepSpec(m2, "conclusion", conv);
    assert Field(m2, "introduction") == Field(m1, "introduction");
    assert Field(m', "introduction") == Field(m1, "introduction");
    assert Field(m2, "conclusion") == Field(m, "conclusion");
  }

  // ---------------------------------------------------------------------------
  // Running the reshaping twice

  /** A converter that changes nothing on a second application. */
  ghost predicate Idempotent(conv: string -> string) {
    forall t :: conv(conv(t)) == conv(t)
  }

  lemma SlotPassTwice(v: Option<Json>, conv: string -> string)
    requires Idempotent(conv) && SlotPass(v, conv).Ok?
    ensures SlotPass(SlotPass(v, conv).value, conv) == SlotPass(v, conv)
  {
    if Truthy(v) && IsObjectType(v) && v.value.Obj? {
      var m := v.value.fields;
      var g := FormalGeneral(Field(m, "general"), conv).value;
      var m' := Put(m, "general", g);
      assert Field(m', "general") == g;
      if Truthy(g) {
        assert conv(conv(Field(m, "general").value.s)) == conv(Field(m, "general").value.s);
      }
      assert Put(m', "general", g) == m';
    }
  }

  lemma PutSame(m: map<string, Json>, key: string)
    ensures Put(m, key, Field(m, key)) == m
  {
  }

  /** A slot step run on its own result changes nothing more. */
  lemma SlotStepTwice(m: map<string, Json>, key: string, conv: string -> string)
    requires Idempotent(conv) && SlotStep(m, key, conv).Ok?
    ensures SlotStep(SlotStep(m, key, conv).value, key, conv) == SlotStep(m, key, conv)
  {
    var w := SlotPass(Field(m, key), conv).value;
    var m' := SlotStep(m, key, conv).value;
    assert Field(m', key) == w;
    SlotPassTwice(Field(m, key), conv);
    PutSame(m', key);
  }

  /** A slot step whose slot is already a fixed point changes nothing. */
  lemma SlotStepFixed(m: map<string, Json>, key: string, conv: string -> string)
    requires SlotPass(Field(m, key), conv) == Ok(Field(m, key))
    ensures SlotStep(m, key, conv) == Ok(m)
  {
    PutSame(m, key);
  }

  lemma {:induction false} SlotsPassTwice(m: map<string, Json>, keys: seq<string>, conv: string -> string)
    requires Idempotent(conv) && Distinct(keys) && SlotsPass(m, keys, conv).Ok?
    ensures SlotsPass(SlotsPass(m, keys, conv).value, keys, conv) == SlotsPass(m, keys, conv)
    decreases |keys|
  {
    if keys != [] {
      var k0 := keys[0];
      var m1 := SlotStep(m, k0, conv).value;
      var m' := SlotsPass(m, keys, conv).value;
      DistinctTail(keys);
      SlotsPassSpec(m1, keys[1..], conv);
      SlotStepTwice(m, k0, conv);
      assert Field(m', k0) == Field(m1, k0);
      assert SlotPass(Field(m1, k0), conv) == Ok(Field(m1, k0)) by {
        SlotStepSpec(m, k0, conv);
        assert SlotStep(m1, k0, conv) == Ok(m1);
        assert Field(m1, k0) == SlotPass(Field(m, k0), conv).value;
        SlotPassTwice(Field(m, k0), conv);
      }
      SlotStepFixed(m', k0, conv);
      SlotsPassTwice(m1, keys[1..], conv);
    }
  }

  lemma SectionPassTwice(a: Json, conv: string -> string)
    requires Idempotent(conv) && SectionPass(a, conv).Ok?
    ensures SectionPass(SectionPass(a, conv).value, conv) == SectionPass(a, conv)
  {
    if a.Obj? {
      FlatKeysDistinct();
      SlotsPassTwice(a.fields, FlatKeys, conv);
    }
  }

  lemma {:induction false} SectionsPassTwice(s: seq<Json>, conv: string -> string)
    requires Idempotent(conv) && SectionsPass(s, conv).Ok?
    ensures SectionsPass(SectionsPass(s, conv).value, conv) == SectionsPass(s, conv)
    decreases |s|
  {
    if s != [] {
      var r := SectionsPass(s, conv).value;
      SectionPassTwice(s[0], conv);
      SectionsPassTwice(s[1..], conv);
      assert r[0] == SectionPass(s[0], conv).value;
      assert r[1..] == SectionsPass(s[1..], conv).value;
    }
  }

  /** The sections a body step stores are a fixed point of the sections pass. */
  lemma BodyPassTwice(m: map<string, Json>, conv: string -> string)
    requires Idempotent(conv) && BodyPass(m, conv).Ok?
    ensures var s' := BodyPass(m, conv).value["oreoSections"];
      s'.Arr? && SectionsPass(s'.items, conv) == Ok(s'.items)
  {
    if HasSectionArray(m) {
      SectionsPassTwice(m["oreoSections"].items, conv);
    } else {
      BodyPassLegacy(m, conv);
      var section := SectionPass(Obj(Defaults(m)), conv).value;
      FoldSpec(m, section);
      SectionPassTwice(Obj(Defaults(m)), conv);
      SingleSectionTwice(section, conv);
    }
  }

  lemma SingleSectionTwice(section: Json, conv: string -> string)
    requires SectionPass(section, conv) == Ok(section)
    ensures SectionsPass([section], conv) == Ok([section])
  {
    assert [section][1..] == [];
    assert SectionsPass([], conv) == Ok([]);
    assert [section] + [] == [section];
  }

  /** An object every step leaves alone is its own reshape. */
  lemma ReshapeFixed(m: map<string, Json>, conv: string -> string)
    requires SlotStep(m, "introduction", conv) == Ok(m)
    requires BodyPass(m, conv) == Ok(m)
    requires SlotStep(m, "conclusion", conv) == Ok(m)
    ensures Reshape(m, conv) == Ok(m)
  {
  }

  lemma IntroductionSettled(m: map<string, Json>, conv: string -> string)
    requires Idempotent(conv) && Reshape(m, conv).Ok?
    ensures SlotStep(Reshape(m, conv).value, "introduction", conv) == Ok(Reshape(m, conv).value)
  {
    ReshapeSteps(m, conv);
    var m1 := SlotStep(m, "introduction", conv).value;
    var m2 := BodyPass(m1, conv).value;
    var m3 := Reshape(m, conv).value;
    SlotStepSpec(m, "introduction", conv);
    BodyPassFrame(m1, conv);
    SlotStepSpec(m2, "conclusion", conv);
    SlotStepTwice(m, "introduction", conv);
    assert Field(m3, "introduction") == Field(m1, "introduction");
    assert SlotPass(Field(m1, "introduction"), conv) == Ok(Field(m1, "introduction"));
    SlotStepFixed(m3, "introduction", conv);
  }

  lemma BodySettled(m: map<string, Json>, conv: string -> string)
    requires Idempotent(conv) && Reshape(m, conv).Ok?
    ensures BodyPass(Reshape(m, conv).value, conv) == Ok(Reshape(m, conv).value)
  {
    ReshapeSteps(m, conv);
    var m1 := SlotStep(m, "introduction", conv).value;
    var m2 := BodyPass(m1, conv).value;
    var m3 := Reshape(m, conv).value;
    SlotStepSpec(m2, "conclusion", conv);
    BodyPassTwice(m1, conv);
    var s' := m2["oreoSections"].items;
    assert Field(m3, "oreoSections") == Some(Arr(s'));
    PutSame(m3, "oreoSections");
  }

  lemma ConclusionSettled(m: map<string, Json>, conv: string -> string)
    requires Idempotent(conv) && Reshape(m, conv).Ok?
    ensures SlotStep(Reshape(m, conv).value, "conclusion", conv) == Ok(Reshape(m, conv).value)
  {
    ReshapeSteps(m, conv);
    var m1 := SlotStep(m, "introduction", conv).value;
    var m2 := BodyPass(m1, conv).value;
    var m3 := Reshape(m, conv).value;
    SlotStepTwice(m2, "conclusion", conv);
    SlotStepFixed(m3, "conclusion", conv);
  }

  /** With a converter that is idempotent, reshaping a reshaped object changes
      nothing: the second run takes the array branch and every `general` is
      already converted. */
  lemma ReshapeTwice(m: map<string, Json>, conv: string -> string)
    requires Idempotent(conv) && Reshape(m, conv).Ok?
    ensures Reshape(Reshape(m, conv).value, conv) == Reshape(m, conv)
  {
    IntroductionSettled(m, conv);
    BodySettled(m, conv);
    ConclusionSettled(m, conv);
    ReshapeFixed(Reshape(m, conv).value, conv);
  }

  // ---------------------------------------------------------------------------
  // The stored result

  /** Whatever the reply, the stored result is an object with an `oreoSections` array. */
  lemma NormalizeGivesArray(text: string, parse: string -> Option<map<string, Json>>, conv: string -> string)
    ensures Normalize(text, parse, conv).Obj? && HasSectionArray(Normalize(text, parse, conv).fields)
  {
    var t := ExtractJson(text);
    if t.Some? && parse(t.value).Some? && Reshape(parse(t.value).value, conv).Ok? {
      ReshapeGivesArray(parse(t.value).value, conv);
    }
  }

  /** A reply in which no `{` is followed by a `}`, or whose object does not parse,
      or whose reshaping throws, is stored as the text-only result. */
  lemma NormalizeFallback(text: string, parse: string -> Option<map<string, Json>>, conv: string -> string)
    ensures (forall i: nat, j: nat :: !IsMatch(text, i, j)) ==> Normalize(text, parse, conv) == Fallback(text)
    ensures ExtractJson(text).Some? && parse(ExtractJson(text).value).None? ==> Normalize(text, parse, conv) == Fallback(text)
    ensures (ExtractJson(text).Some? && parse(ExtractJson(text).value).Some?
      && Reshape(parse(ExtractJson(text).value).value, conv).Err?) ==> Normalize(text, parse, conv) == Fallback(text)
  {
    ExtractJsonMatches(text);
  }
}
