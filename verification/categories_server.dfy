/** The category routes: `list` and `update` read and replace the stored category
    document, and `aiTranslate` validates a provider's reply against one string field per
    requested language. */
module CategoriesRoutes {
  import opened Wrappers
  import opened Seqs
  import opened AssocList

  /** The category document: category key to (language code to label), in key order. */
  type Translations = Assoc<string, Assoc<string, string>>

  /** A two-level JSON object as text: its members in textual order, repeats possible. */
  type RawDocument = seq<(string, seq<(string, string)>)>

  /** Both levels of the document have distinct keys, as every JavaScript object does. */
  predicate WellFormed(t: Translations) {
    DistinctKeys(t) && forall i :: 0 <= i < |t| ==> DistinctKeys(t[i].1)
  }

  function ParseInner(raw: RawDocument): (es: Translations)
    ensures |es| == |raw|
    ensures forall i :: 0 <= i < |raw| ==> es[i] == (raw[i].0, FromEntries(raw[i].1))
  {
    seq(|raw|, i requires 0 <= i < |raw| => (raw[i].0, FromEntries(raw[i].1)))
  }

  /** `JSON.parse` of a two-level object: at each level a repeated key keeps its first
      position and its last value. */
  function Parse(raw: RawDocument): Translations {
    FromEntries(ParseInner(raw))
  }

  /** A key with a last value has an entry carrying it. */
  lemma {:induction false} LastValueIn<K(!new), V>(es: seq<(K, V)>, k: K)
    requires LastValue(es, k).Some?
    ensures (k, LastValue(es, k).value) in es
  {
    if es[|es| - 1].0 != k {
      LastValueIn(es[..|es| - 1], k);
    }
  }

  /** Whatever text was parsed, the result is a well-formed document. */
  lemma ParseWellFormed(raw: RawDocument)
    ensures WellFormed(Parse(raw))
  {
    var es := ParseInner(raw);
    var r := Parse(raw);
    forall i | 0 <= i < |r| ensures DistinctKeys(r[i].1) {
      GetEntry(r, i);
      LastValueIn(es, r[i].0);
      var j :| 0 <= j < |es| && es[j] == (r[i].0, r[i].1);
      assert r[i].1 == FromEntries(raw[j].1);
    }
  }

  /** Parsing the text of a well-formed document gives the document back. */
  lemma ParseOfWellFormed(t: Translations)
    requires WellFormed(t)
    ensures Parse(t) == t
  {
    forall i | 0 <= i < |t| ensures FromEntries(t[i].1) == t[i].1 {
      FromEntriesOfDistinct(t[i].1);
    }
    assert ParseInner(t) == t;
    FromEntriesOfDistinct(t);
  }

  datatype UpdateResponse = UpdateResponse(success: bool)

  /** What `update` writes to the category file, and its answer. */
  datatype UpdateOutcome = UpdateOutcome(written: RawDocument, response: UpdateResponse)

  /** `list`: the parsed contents of the category file; None while it was never written
      (the file store's own default is not part of this model). */
  function List(file: Option<RawDocument>): (r: Option<Translations>)
    ensures r.None? <==> file.None?
    ensures r.Some? ==> WellFormed(r.value)
    ensures forall t :: file == Some(t) && WellFormed(t) ==> r == Some(t)
  {
    match file
    case None => None
    case Some(text) =>
      ParseWellFormed(text);
      assert WellFormed(text) ==> Parse(text) == text by {
        if WellFormed(text) {
          ParseOfWellFormed(text);
        }
      }
      Some(Parse(text))
  }

  /** `update`: parses the request body, writes the resulting document out whole (the
      previous contents play no part) and reports success. Reading the file back lists
      exactly the document the request carried. */
  function Update(body: RawDocument): (r: UpdateOutcome)
    ensures r.response.success
    ensures List(Some(r.written)) == Some(Parse(body))
  {
    var data := Parse(body);
    ParseWellFormed(body);
    ParseOfWellFormed(data);
    UpdateOutcome(data, UpdateResponse(true))
  }

  /** A well-formed document sent to `update` is listed back unchanged. */
  lemma UpdateThenList(data: Translations)
    requires WellFormed(data)
    ensures List(Some(Update(data).written)) == Some(data)
  {
    ParseOfWellFormed(data);
  }

  /** The field type of every language in the translation schema. */
  datatype FieldSchema = StringField

  /** The field keys of the translation schema, built by assigning one string field per
      requested language in order: each distinct language once, at its first position. */
  function SchemaKeys(languages: seq<string>): (keys: seq<string>)
    ensures keys == Dedup(languages)
  {
    var fields := seq(|languages|, i requires 0 <= i < |languages| => (languages[i], StringField));
    assert Keys(fields) == languages;
    Keys(FromEntries(fields))
  }

  /** A value in the provider's structured reply. */
  datatype ProviderValue = Str(s: string) | NonString

  /** Checks a reply object against the schema: every field must hold a string; the output
      has exactly the schema's fields, in schema order, and drops any other member. */
  function ParseReply(keys: seq<string>, reply: map<string, ProviderValue>): (r: Option<Assoc<string, string>>)
    ensures r.Some? <==> forall i :: 0 <= i < |keys| ==> keys[i] in reply && reply[keys[i]].Str?
    ensures r.Some? ==> Keys(r.value) == keys
    ensures r.Some? ==> forall i :: 0 <= i < |keys| ==> r.value[i].1 == reply[keys[i]].s
  {
    if |keys| == 0 then Some([])
    else if keys[0] in reply && reply[keys[0]].Str? then
      match ParseReply(keys[1..], reply)
      case None =>
        assert !(keys[1..][0] in reply && reply[keys[1..][0]].Str?) || exists i :: 1 <= i < |keys| && !(keys[i] in reply && reply[keys[i]].Str?);
        None
      case Some(rest) =>
        var r := [(keys[0], reply[keys[0]].s)] + rest;
        KeysCons(r);
        assert r[1..] == rest;
        Some(r)
    else None
  }

  /** `aiTranslate`: None when the provider call fails (`reply` is None) or its reply does
      not fit the schema; otherwise one label per distinct requested language, with no
      other key. */
  function AiTranslate(languages: seq<string>, reply: Option<map<string, ProviderValue>>): (r: Option<Assoc<string, string>>)
    ensures r.Some? <==> reply.Some? && forall l :: l in languages ==> l in reply.value && reply.value[l].Str?
    ensures r.Some? ==> DistinctKeys(r.value) && forall l :: l in Keys(r.value) <==> l in languages
    ensures r.Some? ==> Keys(r.value) == Dedup(languages)
    ensures r.Some? ==> forall i :: 0 <= i < |r.value| ==> r.value[i].1 == reply.value[r.value[i].0].s
  {
    if reply.None? then None
    else
      var keys := SchemaKeys(languages);
      var r := ParseReply(keys, reply.value);
      assert r.Some? <==> forall l :: l in keys ==> l in reply.value && reply.value[l].Str?;
      r
  }

  /** A reply missing a requested language fails. */
  lemma AiTranslateMissingLanguage()
    ensures AiTranslate(["en", "fr"], Some(map["en" := Str("Food")])).None?
  {
    assert "fr" in ["en", "fr"];
  }

  /** A repeated language is asked for once, and a member no language asked for is
      dropped. */
  lemma AiTranslateScenario()
    ensures AiTranslate(["en", "fr", "en"], Some(map["en" := Str("Food"), "fr" := Str("Cuisine"), "de" := Str("Essen")]))
      == Some([("en", "Food"), ("fr", "Cuisine")])
  {
    var full := map["en" := Str("Food"), "fr" := Str("Cuisine"), "de" := Str("Essen")];
    DedupScenario();
    var r := ParseReply(["en", "fr"], full).value;
    assert |r| == 2 && r[0].0 == "en" && r[1].0 == "fr";
    assert r[0].1 == "Food" && r[1].1 == "Cuisine";
    assert r == [("en", "Food"), ("fr", "Cuisine")];
  }

  lemma DedupScenario()
    ensures SchemaKeys(["en", "fr", "en"]) == ["en", "fr"]
  {
    assert ["en", "fr", "en"][..2] == ["en", "fr"];
    assert ["en", "fr"][..1] == ["en"];
    assert ["en"][..0] == [];
  }
}
