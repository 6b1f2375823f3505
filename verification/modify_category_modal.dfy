/** The dialog that creates or edits one category: its key and its rows of
    (language code, label) pairs. */
module ModifyCategoryModal {
  import opened Wrappers
  import opened Seqs
  import opened Strings
  import opened AssocList
  import CategoriesRoutes

  /** A category as handed to the dialog and back. */
  datatype Category = Category(key: string, value: Assoc<string, string>)

  datatype OpenType = Create | Update

  /** The dialog's form: the category key and the translation rows, in display order. */
  datatype FormState = FormState(key: string, rows: seq<(string, string)>)

  /** The form as first shown: the edited category's key and entries, or an empty form. */
  function InitialState(category: Option<Category>): (s: FormState)
    ensures category.None? ==> s == FormState("", [])
    ensures category.Some? ==> s.key == category.value.key && s.rows == category.value.value
  {
    match category
    case None => FormState("", [])
    case Some(c) => FormState(c.key, c.value)
  }

  /** When the language list arrives, a create dialog starts over with an empty key and
      one empty row per language, in order; an edit dialog keeps its form. */
  function OnLanguagesLoaded(s: FormState, openType: OpenType, languages: Option<seq<string>>): (r: FormState)
    ensures languages.None? || openType == Update ==> r == s
    ensures languages.Some? && openType == Create ==>
      && r.key == ""
      && Keys(r.rows) == languages.value
      && forall i :: 0 <= i < |r.rows| ==> r.rows[i].1 == ""
  {
    if languages.None? || openType == Update then s
    else
      var names := languages.value;
      FormState("", seq(|names|, i requires 0 <= i < |names| => (names[i], "")))
  }

  datatype SubmitOutcome = Rejected(message: string) | Submitted(category: Category)

  /** Some row's label is blank. */
  predicate HasBlankLabel(rows: seq<(string, string)>) {
    exists i :: 0 <= i < |rows| && IsBlank(rows[i].1)
  }

  /** `handleSubmit`: rejected when the key or any label is blank after trimming;
      otherwise the key as typed (untrimmed) with the rows rebuilt into an object. */
  function HandleSubmit(s: FormState): (r: SubmitOutcome)
    ensures r.Rejected? <==> IsBlank(s.key) || HasBlankLabel(s.rows)
    ensures r.Rejected? ==> r.message == "Please fill in all fields"
    ensures r.Submitted? ==> r.category.key == s.key
    ensures r.Submitted? ==> DistinctKeys(r.category.value) && Keys(r.category.value) == Dedup(Keys(s.rows))
    ensures r.Submitted? ==> forall code :: Get(r.category.value, code) == LastValue(s.rows, code)
  {
    if IsBlank(s.key) || exists i :: 0 <= i < |s.rows| && IsBlank(s.rows[i].1) then
      Rejected("Please fill in all fields")
    else
      Submitted(Category(s.key, FromEntries(s.rows)))
  }

  /** Opening an existing category and submitting it untouched hands back the same
      category. */
  lemma SubmitUnchanged(c: Category)
    requires DistinctKeys(c.value) && !IsBlank(c.key) && !HasBlankLabel(c.value)
    ensures HandleSubmit(InitialState(Some(c))) == Submitted(c)
  {
    FromEntriesOfDistinct(c.value);
  }

  datatype AddOutcome = AddFailed(message: string) | Added(rows: seq<(string, string)>)

  /** Adding a language code: refused when a row already has it, otherwise a row with an
      empty label is appended. */
  function AddRow(rows: seq<(string, string)>, code: string): (r: AddOutcome)
    ensures r.AddFailed? <==> code in Keys(rows)
    ensures r.AddFailed? ==> r.message == "Translation key already exists"
    ensures r.Added? ==> r.rows == rows + [(code, "")]
    ensures r.Added? && DistinctKeys(rows) ==> DistinctKeys(r.rows)
  {
    if exists i :: 0 <= i < |rows| && rows[i].0 == code then
      AddFailed("Translation key already exists")
    else
      var r := rows + [(code, "")];
      assert Keys(r) == Keys(rows) + [code];
      Added(r)
  }

  /** Renaming row `index`: only that row's code changes and its label stays. An index
      with no row changes nothing. */
  function RenameRow(rows: seq<(string, string)>, index: int, code: string): (r: seq<(string, string)>)
    ensures |r| == |rows|
    ensures forall i :: 0 <= i < |rows| && i != index ==> r[i] == rows[i]
    ensures 0 <= index < |rows| ==> r[index] == (code, rows[index].1)
  {
    seq(|rows|, i requires 0 <= i < |rows| => if i == index then (code, rows[i].1) else rows[i])
  }

  /** Editing row `index`: only that row's label changes and its code stays. */
  function EditRow(rows: seq<(string, string)>, index: int, text: string): (r: seq<(string, string)>)
    ensures |r| == |rows|
    ensures forall i :: 0 <= i < |rows| && i != index ==> r[i] == rows[i]
    ensures 0 <= index < |rows| ==> r[index] == (rows[index].0, text)
  {
    seq(|rows|, i requires 0 <= i < |rows| => if i == index then (rows[i].0, text) else rows[i])
  }

  /** Removing row `index`: every other row stays, in order. */
  function RemoveRow(rows: seq<(string, string)>, index: int): (r: seq<(string, string)>)
    ensures 0 <= index < |rows| ==> r == RemoveAt(rows, index)
    ensures !(0 <= index < |rows|) ==> r == rows
  {
    if |rows| == 0 then []
    else
      var rest := RemoveRow(rows[1..], index - 1);
      var r := (if index == 0 then [] else [rows[0]]) + rest;
      assert 0 <= index < |rows| ==> r == RemoveAt(rows, index) by {
        if 0 < index < |rows| {
          assert RemoveAt(rows, index) == [rows[0]] + RemoveAt(rows[1..], index - 1);
        }
      }
      r
  }

  /** Renaming a row back to its old code undoes the rename. */
  lemma RenameBack(rows: seq<(string, string)>, index: nat, code: string)
    requires index < |rows|
    ensures RenameRow(RenameRow(rows, index, code), index, rows[index].0) == rows
  {
  }

  /** Putting back a row's old label undoes the edit. */
  lemma EditBack(rows: seq<(string, string)>, index: nat, text: string)
    requires index < |rows|
    ensures EditRow(EditRow(rows, index, text), index, rows[index].1) == rows
  {
  }

  /** Removing a freshly added row undoes the addition. */
  lemma RemoveAdded(rows: seq<(string, string)>, code: string)
    requires code !in Keys(rows)
    ensures RemoveRow(AddRow(rows, code).rows, |rows|) == rows
  {
    InsertRemove(rows, |rows|, (code, ""));
    assert InsertAt(rows, |rows|, (code, "")) == rows + [(code, "")];
  }

  /** What a click on the translate action leaves behind: the form and any error shown. */
  datatype AiOutcome = AiOutcome(state: FormState, error: Option<string>)

  /** `handleAiTranslate`: refused when the key is blank; otherwise asks for one label per
      row code. A failed request (`reply` is None, or the reply does not fit the schema)
      leaves the form as it was; a successful one replaces the rows by the result's entries
      and keeps the key. */
  function AiTranslate(s: FormState, reply: Option<map<string, CategoriesRoutes.ProviderValue>>): (r: AiOutcome)
    ensures IsBlank(s.key) ==> r == AiOutcome(s, Some("Please fill in the category key"))
    ensures r.error.Some? ==> r.state == s
    ensures r.error.None? ==> !IsBlank(s.key) && r.state.key == s.key
    ensures r.error.None? ==> DistinctKeys(r.state.rows) && forall code :: code in Keys(r.state.rows) <==> code in Keys(s.rows)
    ensures r.error.None? <==> !IsBlank(s.key) && CategoriesRoutes.AiTranslate(Keys(s.rows), reply).Some?
    ensures r.error.None? ==> r.state.rows == CategoriesRoutes.AiTranslate(Keys(s.rows), reply).value
    ensures r.error.None? ==> (
      && reply.Some? && Keys(r.state.rows) == Dedup(Keys(s.rows))
      && forall i :: 0 <= i < |r.state.rows| ==> r.state.rows[i].1 == reply.value[r.state.rows[i].0].s)
  {
    if IsBlank(s.key) then AiOutcome(s, Some("Please fill in the category key"))
    else
      match CategoriesRoutes.AiTranslate(Keys(s.rows), reply)
      case None => AiOutcome(s, Some("Something went wrong"))
      case Some(result) => AiOutcome(FormState(s.key, result), None)
  }

  /** Submitting right after a successful translation, with every label filled, saves
      exactly the translated rows under the key. */
  lemma AiTranslateThenSubmit(s: FormState, reply: Option<map<string, CategoriesRoutes.ProviderValue>>)
    requires AiTranslate(s, reply).error.None?
    requires !HasBlankLabel(AiTranslate(s, reply).state.rows)
    ensures HandleSubmit(AiTranslate(s, reply).state) == Submitted(Category(s.key, AiTranslate(s, reply).state.rows))
  {
    FromEntriesOfDistinct(AiTranslate(s, reply).state.rows);
  }

  /** Two empty rows filled by the provider: the rows become its labels, in row order. */
  lemma AiTranslateScenario()
    ensures
      var s := FormState("food", [("en", ""), ("fr", "")]);
      var reply := map["en" := CategoriesRoutes.Str("Food"), "fr" := CategoriesRoutes.Str("Cuisine")];
      AiTranslate(s, Some(reply)) == AiOutcome(FormState("food", [("en", "Food"), ("fr", "Cuisine")]), None)
  {
    var s := FormState("food", [("en", ""), ("fr", "")]);
    assert Keys(s.rows) == ["en", "fr"];
    FoodIsNotBlank();
    ProviderFillsTwo();
  }

  lemma FoodIsNotBlank()
    ensures !IsBlank("food")
  {
    assert !IsWhitespace("food"[0]);
    BlankIffAllWhitespace("food");
  }

  lemma ProviderFillsTwo()
    ensures CategoriesRoutes.AiTranslate(["en", "fr"], Some(map["en" := CategoriesRoutes.Str("Food"), "fr" := CategoriesRoutes.Str("Cuisine")]))
      == Some([("en", "Food"), ("fr", "Cuisine")])
  {
    var reply := map["en" := CategoriesRoutes.Str("Food"), "fr" := CategoriesRoutes.Str("Cuisine")];
    assert CategoriesRoutes.SchemaKeys(["en", "fr"]) == ["en", "fr"] by {
      assert ["en", "fr"][..1] == ["en"];
    }
    var r := CategoriesRoutes.ParseReply(["en", "fr"], reply).value;
    assert |r| == 2 && r[0].0 == "en" && r[1].0 == "fr";
    assert r[0].1 == "Food" && r[1].1 == "Cuisine";
    assert r == [("en", "Food"), ("fr", "Cuisine")];
  }
}
