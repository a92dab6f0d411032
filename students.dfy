/** The record list of the student manager component: record and form shapes, the
    submit handler as a state transition (validation, then update or append, then a
    form reset), entering edit mode, deletion by id, and the invariants these keep. */
module Students {
  import opened Text
  import opened Sequences

  datatype Option<T> = None | Some(value: T)

  /** A stored student. `ball` is the score text exactly as it was typed into the form:
      the component never converts it before storing it. */
  datatype Record = Record(id: string, name: string, surname: string, date: string,
                           ball: string, country: string)

  /** The form's input fields. */
  datatype Form = Form(name: string, surname: string, date: string, ball: string, country: string)

  const EmptyForm: Form := Form("", "", "", "", "")

  /** The choices of the country select. The submit handler never consults this list. */
  const Countries: seq<string> := ["Uzbekistan", "USA", "UK", "Germany", "Russia"]

  /** JavaScript's `Number(text)`, injected: `None` stands for NaN. */
  type ScoreParser = string -> Option<real>

  /** The notification each submit ends with. */
  datatype Outcome = MissingFields | ScoreOutOfRange | Updated | Added

  /** The component state the handlers change. */
  datatype State = State(students: seq<Record>, form: Form, editId: Option<string>)

  /** The result of a submit: the new state and the notification. */
  datatype Step = Step(state: State, outcome: Outcome)

  /** Name, surname and country are trimmed; date and score text are kept as typed. */
  function TrimForm(f: Form): Form {
    f.(name := Trim(f.name), surname := Trim(f.surname), country := Trim(f.country))
  }

  /** The first validation: a required field is the empty string. */
  predicate MissingField(t: Form) {
    t.name == "" || t.surname == "" || t.country == "" || t.date == ""
  }

  /** The second validation: the score text is a number in [0, 100]. */
  predicate ScoreAccepted(parse: ScoreParser, ball: string) {
    parse(ball).Some? && 0.0 <= parse(ball).value <= 100.0
  }

  /** JavaScript truthiness of `editId`: set and not the empty string. */
  predicate IsEditing(editId: Option<string>) {
    editId.Some? && editId.value != ""
  }

  function FromForm(t: Form, id: string): Record {
    Record(id, t.name, t.surname, t.date, t.ball, t.country)
  }

  function ToForm(r: Record): Form {
    Form(r.name, r.surname, r.date, r.ball, r.country)
  }

  /** The `map` of an edit submit: each record carrying `id` becomes the form under
      that same id, every other record stays as it is, at its position. */
  function ReplaceById(s: seq<Record>, id: string, t: Form): (r: seq<Record>)
    ensures |r| == |s|
    ensures forall k :: 0 <= k < |s| ==> r[k] == if s[k].id == id then FromForm(t, id) else s[k]
  {
    if s == [] then []
    else [if s[0].id == id then FromForm(t, id) else s[0]] + ReplaceById(s[1..], id, t)
  }

  function IdIsNot(id: string): Record -> bool {
    (r: Record) => r.id != id
  }

  /** The `filter` of a delete. */
  function RemoveById(s: seq<Record>, id: string): seq<Record> {
    Filter(s, IdIsNot(id))
  }

  /** The submit handler. Validation is done on the trimmed form, missing fields first;
      a rejected submit leaves the whole state as it was. */
  function Submit(st: State, parse: ScoreParser, newId: string): Step {
    var t := TrimForm(st.form);
    if MissingField(t) then Step(st, MissingFields)
    else if !ScoreAccepted(parse, t.ball) then Step(st, ScoreOutOfRange)
    else if IsEditing(st.editId) then
      Step(State(ReplaceById(st.students, st.editId.value, t), EmptyForm, None), Updated)
    else
      Step(State(st.students + [FromForm(t, newId)], EmptyForm, st.editId), Added)
  }

  /** The edit handler: the record's fields go into the form and its id is selected. */
  function BeginEdit(st: State, r: Record): State {
    State(st.students, ToForm(r), Some(r.id))
  }

  // ---------------------------------------------------------------------------
  // Submit

  /** A missing field rejects the submit, whatever the score, and changes nothing. */
  lemma SubmitRejectsMissingField(st: State, parse: ScoreParser, newId: string)
    requires MissingField(TrimForm(st.form))
    ensures Submit(st, parse, newId) == Step(st, MissingFields)
  {
  }

  /** With every field present, a score that is NaN or outside [0, 100] rejects the
      submit and changes nothing. */
  lemma SubmitRejectsScore(st: State, parse: ScoreParser, newId: string)
    requires !MissingField(TrimForm(st.form))
    requires parse(st.form.ball).None? || parse(st.form.ball).value < 0.0 || parse(st.form.ball).value > 100.0
    ensures Submit(st, parse, newId) == Step(st, ScoreOutOfRange)
  {
  }

  /** The submit is accepted exactly when both validations pass; an accepted submit
      clears the form, a rejected one leaves the state untouched. */
  lemma SubmitAcceptance(st: State, parse: ScoreParser, newId: string)
    ensures var step := Submit(st, parse, newId);
      (step.outcome in {Added, Updated})
      <==> !MissingField(TrimForm(st.form)) && ScoreAccepted(parse, st.form.ball)
    ensures var step := Submit(st, parse, newId);
      if step.outcome in {Added, Updated} then step.state.form == EmptyForm else step.state == st
  {
  }

  /** With every field present, a score reading as 0 or 100 is accepted, and one
      reading as -1 or 101 gets the range notification and changes nothing. */
  lemma ScoreBoundaries(st: State, parse: ScoreParser, newId: string)
    requires !MissingField(TrimForm(st.form))
    ensures parse(st.form.ball) == Some(0.0) || parse(st.form.ball) == Some(100.0)
      ==> Submit(st, parse, newId).outcome in {Added, Updated}
    ensures parse(st.form.ball) == Some(-1.0) || parse(st.form.ball) == Some(101.0)
      ==> Submit(st, parse, newId) == Step(st, ScoreOutOfRange)
  {
  }

  /** An accepted submit in create mode appends exactly one record, holding the trimmed
      fields under the generated id, and keeps every earlier record in place. */
  lemma SubmitCreateAppends(st: State, parse: ScoreParser, newId: string)
    requires !MissingField(TrimForm(st.form)) && ScoreAccepted(parse, st.form.ball)
    requires !IsEditing(st.editId)
    ensures var step := Submit(st, parse, newId);
      && step.outcome == Added
      && |step.state.students| == |st.students| + 1
      && step.state.students[..|st.students|] == st.students
      && step.state.students[|st.students|] == FromForm(TrimForm(st.form), newId)
      && step.state.form == EmptyForm
      && step.state.editId == st.editId
  {
  }

  /** An accepted submit in edit mode keeps the length, turns every record carrying the
      selected id into the trimmed form under that id, leaves every other record where
      it was, and returns to create mode. */
  lemma SubmitEditReplaces(st: State, parse: ScoreParser, newId: string)
    requires !MissingField(TrimForm(st.form)) && ScoreAccepted(parse, st.form.ball)
    requires IsEditing(st.editId)
    ensures var step := Submit(st, parse, newId);
      && step.outcome == Updated
      && |step.state.students| == |st.students|
      && (forall k :: 0 <= k < |st.students| ==>
            step.state.students[k]
            == if st.students[k].id == st.editId.value
               then FromForm(TrimForm(st.form), st.editId.value) else st.students[k])
      && step.state.form == EmptyForm
      && step.state.editId == None
  {
  }

  /** The handler only checks that the country is non-empty: a country outside the
      select's list is accepted and stored as typed. */
  lemma SubmitAcceptsUnlistedCountry(st: State, parse: ScoreParser, newId: string)
    requires !MissingField(TrimForm(st.form)) && ScoreAccepted(parse, st.form.ball)
    requires !IsEditing(st.editId)
    requires Trim(st.form.country) !in Countries
    ensures var step := Submit(st, parse, newId);
      step.outcome == Added && step.state.students[|st.students|].country !in Countries
  {
  }

  /** `Number("")` is 0, so an empty score text passes the handler: only the input's
      `required` attribute stops it. */
  lemma SubmitAcceptsEmptyScore(st: State, parse: ScoreParser, newId: string)
    requires parse("") == Some(0.0)
    requires !MissingField(TrimForm(st.form)) && st.form.ball == ""
    ensures Submit(st, parse, newId).outcome in {Added, Updated}
  {
  }

  /** The two-submit scenario: a valid submit on an empty list adds one record with
      the score text as typed; a second submit of the same form with a score of 150
      is rejected and the list keeps its one record. */
  lemma SubmitScenario(f: Form, parse: ScoreParser, ball2: string)
    requires !MissingField(f) && IsTrimmed(f.name) && IsTrimmed(f.surname) && IsTrimmed(f.country)
    requires parse(f.ball) == Some(85.0) && parse(ball2) == Some(150.0)
    ensures var s1 := Submit(State([], f, None), parse, "a").state;
      var s2 := Submit(s1.(form := f.(ball := ball2)), parse, "b");
      && s1.students == [Record("a", f.name, f.surname, f.date, f.ball, f.country)]
      && s2.outcome == ScoreOutOfRange
      && s2.state.students == s1.students
  {
  }

  // ---------------------------------------------------------------------------
  // Invariants of the record list

  /** What every record created by a submit satisfies. */
  predicate WellFormed(parse: ScoreParser, r: Record) {
    && r.name != "" && IsTrimmed(r.name)
    && r.surname != "" && IsTrimmed(r.surname)
    && r.country != "" && IsTrimmed(r.country)
    && r.date != ""
    && ScoreAccepted(parse, r.ball)
  }

  predicate AllWellFormed(parse: ScoreParser, s: seq<Record>) {
    forall k :: 0 <= k < |s| ==> WellFormed(parse, s[k])
  }

  predicate UniqueIds(s: seq<Record>) {
    forall i, j :: 0 <= i < j < |s| ==> s[i].id != s[j].id
  }

  /** An accepted form becomes a well-formed record. */
  lemma AcceptedFormIsWellFormed(parse: ScoreParser, f: Form, id: string)
    requires !MissingField(TrimForm(f)) && ScoreAccepted(parse, f.ball)
    ensures WellFormed(parse, FromForm(TrimForm(f), id))
  {
  }

  /** Every submit keeps every stored record well-formed. */
  lemma SubmitPreservesWellFormed(st: State, parse: ScoreParser, newId: string)
    requires AllWellFormed(parse, st.students)
    ensures AllWellFormed(parse, Submit(st, parse, newId).state.students)
  {
  }

  /** A submit keeps ids unique, provided the generated id is fresh. */
  lemma SubmitPreservesUniqueIds(st: State, parse: ScoreParser, newId: string)
    requires UniqueIds(st.students)
    requires forall k :: 0 <= k < |st.students| ==> st.students[k].id != newId
    ensures UniqueIds(Submit(st, parse, newId).state.students)
  {
  }

  // ---------------------------------------------------------------------------
  // Delete

  /** Deleting removes every record carrying `id`, keeps every occurrence of every
      other record, and keeps the survivors in their original relative order. */
  lemma RemoveByIdSpec(s: seq<Record>, id: string)
    ensures var r := RemoveById(s, id);
      && |r| <= |s|
      && (forall k :: 0 <= k < |r| ==> r[k].id != id)
      && (forall x: Record :: x.id != id ==> multiset(r)[x] == multiset(s)[x])
      && IsSubsequence(r, s)
  {
    FilterIsSubsequence(s, IdIsNot(id));
    forall x: Record | x.id != id ensures multiset(RemoveById(s, id))[x] == multiset(s)[x] {
      FilterOccurrences(s, IdIsNot(id), x);
    }
  }

  /** Deleting an id no record carries changes nothing. */
  lemma RemoveAbsentId(s: seq<Record>, id: string)
    requires forall k :: 0 <= k < |s| ==> s[k].id != id
    ensures RemoveById(s, id) == s
  {
    FilterKeepsAll(s, IdIsNot(id));
  }

  /** With unique ids, deleting the id of the record at `i` removes that record alone. */
  lemma RemoveUniqueId(s: seq<Record>, i: int)
    requires UniqueIds(s) && 0 <= i < |s|
    ensures RemoveById(s, s[i].id) == s[..i] + s[i + 1..]
    ensures |RemoveById(s, s[i].id)| == |s| - 1
  {
    var p := IdIsNot(s[i].id);
    assert s == s[..i] + [s[i]] + s[i + 1..];
    FilterConcat(s[..i] + [s[i]], s[i + 1..], p);
    FilterConcat(s[..i], [s[i]], p);
    FilterKeepsAll(s[..i], p);
    FilterKeepsAll(s[i + 1..], p);
    assert Filter([s[i]], p) == [];
  }

  /** Deleting keeps every record well-formed and ids unique. */
  lemma RemovePreservesInvariants(parse: ScoreParser, s: seq<Record>, id: string)
    ensures AllWellFormed(parse, s) ==> AllWellFormed(parse, RemoveById(s, id))
    ensures UniqueIds(s) ==> UniqueIds(RemoveById(s, id))
  {
    var r := RemoveById(s, id);
    forall k | 0 <= k < |r| ensures r[k] in multiset(s) {
      FilterOccurrences(s, IdIsNot(id), r[k]);
      assert r[k] in multiset(r);
    }
    if UniqueIds(s) {
      FilterIsSubsequence(s, IdIsNot(id));
      SubsequenceKeepsUniqueIds(r, s);
    }
  }

  lemma {:induction false} SubsequenceKeepsUniqueIds(a: seq<Record>, b: seq<Record>)
    requires IsSubsequence(a, b) && UniqueIds(b)
    ensures UniqueIds(a)
  {
    if b != [] {
      if a != [] && a[0] == b[0] && IsSubsequence(a[1..], b[1..]) {
        SubsequenceKeepsUniqueIds(a[1..], b[1..]);
        forall j | 0 < j < |a| ensures a[0].id != a[j].id {
          SubsequenceMember(a[1..], b[1..], j - 1);
        }
      } else {
        SubsequenceKeepsUniqueIds(a, b[1..]);
      }
    }
  }

  /** Every element of a subsequence is an element of the sequence. */
  lemma {:induction false} SubsequenceMember(a: seq<Record>, b: seq<Record>, j: int)
    requires IsSubsequence(a, b) && 0 <= j < |a|
    ensures exists i :: 0 <= i < |b| && b[i] == a[j]
  {
    if a[0] == b[0] && IsSubsequence(a[1..], b[1..]) {
      if j == 0 {
        assert b[0] == a[0];
      } else {
        SubsequenceMember(a[1..], b[1..], j - 1);
        var i :| 0 <= i < |b| - 1 && b[1..][i] == a[1..][j - 1];
        assert b[i + 1] == a[j];
      }
    } else {
      SubsequenceMember(a, b[1..], j);
      var i :| 0 <= i < |b| - 1 && b[1..][i] == a[j];
      assert b[i + 1] == a[j];
    }
  }

  // ---------------------------------------------------------------------------
  // Edit

  /** Entering edit mode copies the record into the form, selects its id, and leaves
      the list alone. */
  lemma BeginEditSpec(st: State, r: Record)
    ensures BeginEdit(st, r).students == st.students
    ensures BeginEdit(st, r).form == Form(r.name, r.surname, r.date, r.ball, r.country)
    ensures BeginEdit(st, r).editId == Some(r.id)
  {
  }

  /** Editing a stored record and submitting the form unchanged gives back the same
      list, ends edit mode and clears the form. */
  lemma EditThenSubmitKeepsList(st: State, parse: ScoreParser, i: int, newId: string)
    requires 0 <= i < |st.students| && UniqueIds(st.students)
    requires WellFormed(parse, st.students[i]) && st.students[i].id != ""
    ensures var step := Submit(BeginEdit(st, st.students[i]), parse, newId);
      step == Step(State(st.students, EmptyForm, None), Updated)
  {
  }
}
