/** The component's state as one object. Each event handler is a method that updates
    the state in one step; the list it builds is given by the functions of `Students`. */
module Manager {
  import opened Sorting
  import opened Students
  import opened Filtering

  /** The inputs of the form. */
  datatype FormInput = NameInput | SurnameInput | DateInput | BallInput | CountryInput

  function InputValue(f: Form, input: FormInput): string {
    match input
    case NameInput => f.name
    case SurnameInput => f.surname
    case DateInput => f.date
    case BallInput => f.ball
    case CountryInput => f.country
  }

  /** The form after `value` is typed into one input: that input shows `value`, every
      other input keeps its text. */
  function WithInput(f: Form, input: FormInput, value: string): (g: Form)
    ensures InputValue(g, input) == value
    ensures forall other :: other != input ==> InputValue(g, other) == InputValue(f, other)
  {
    match input
    case NameInput => f.(name := value)
    case SurnameInput => f.(surname := value)
    case DateInput => f.(date := value)
    case BallInput => f.(ball := value)
    case CountryInput => f.(country := value)
  }

  class StudentManager {
    var students: seq<Record>
    var form: Form
    var editId: Option<string>
    var filterType: FilterField
    var searchTerm: string
    var countryFilter: string
    /** `Number`, as the handler and the comparator use it. */
    const parse: ScoreParser

    function Snapshot(): State
      reads this
    {
      State(students, form, editId)
    }

    /** The list starts as the saved snapshot, or empty when nothing was saved. */
    constructor (saved: Option<seq<Record>>, parse: ScoreParser)
      ensures students == (if saved.Some? then saved.value else [])
      ensures form == EmptyForm && editId == None
      ensures filterType == ByName && searchTerm == "" && countryFilter == ""
      ensures this.parse == parse
    {
      students := if saved.Some? then saved.value else [];
      form := EmptyForm;
      editId := None;
      filterType := ByName;
      searchTerm := "";
      countryFilter := "";
      this.parse := parse;
    }

    /** Typing into one input of the form. */
    method SetInput(input: FormInput, value: string)
      modifies this
      ensures form == WithInput(old(form), input, value)
      ensures students == old(students) && editId == old(editId)
      ensures filterType == old(filterType) && searchTerm == old(searchTerm)
      ensures countryFilter == old(countryFilter)
    {
      form := WithInput(form, input, value);
    }

    /** The submit handler, with its two early returns. */
    method Submit(newId: string) returns (outcome: Outcome)
      modifies this
      ensures Step(Snapshot(), outcome) == Students.Submit(old(Snapshot()), parse, newId)
      ensures filterType == old(filterType) && searchTerm == old(searchTerm)
      ensures countryFilter == old(countryFilter)
    {
      var trimmed := TrimForm(form);
      if MissingField(trimmed) {
        return MissingFields;
      }
      if !ScoreAccepted(parse, trimmed.ball) {
        return ScoreOutOfRange;
      }
      if IsEditing(editId) {
        students := ReplaceById(students, editId.value, trimmed);
        editId := None;
        outcome := Updated;
      } else {
        students := students + [FromForm(trimmed, newId)];
        outcome := Added;
      }
      form := EmptyForm;
    }

    /** The delete handler. */
    method Delete(id: string)
      modifies this
      ensures students == RemoveById(old(students), id)
      ensures form == old(form) && editId == old(editId)
      ensures filterType == old(filterType) && searchTerm == old(searchTerm)
      ensures countryFilter == old(countryFilter)
    {
      students := RemoveById(students, id);
    }

    /** The edit handler. */
    method BeginEdit(r: Record)
      modifies this
      ensures Snapshot() == Students.BeginEdit(old(Snapshot()), r)
      ensures filterType == old(filterType) && searchTerm == old(searchTerm)
      ensures countryFilter == old(countryFilter)
    {
      form := ToForm(r);
      editId := Some(r.id);
    }

    /** Choosing the field the search term is matched against. */
    method SetFilterType(f: FilterField)
      modifies this
      ensures filterType == f && Snapshot() == old(Snapshot())
      ensures searchTerm == old(searchTerm) && countryFilter == old(countryFilter)
    {
      filterType := f;
    }

    /** Typing into the search box. */
    method SetSearchTerm(term: string)
      modifies this
      ensures searchTerm == term && Snapshot() == old(Snapshot())
      ensures filterType == old(filterType) && countryFilter == old(countryFilter)
    {
      searchTerm := term;
    }

    /** Choosing a country in the country filter ("" is "All Countries"). */
    method SetCountryFilter(country: string)
      modifies this
      ensures countryFilter == country && Snapshot() == old(Snapshot())
      ensures filterType == old(filterType) && searchTerm == old(searchTerm)
    {
      countryFilter := country;
    }

    /** The rows of the table: exactly the records matching the search and the country
        filter, each with its number of occurrences, highest score first. */
    function Table(): (rows: seq<Record>)
      reads this
      ensures Descending(rows, ScoreKey(parse))
      ensures forall x :: (multiset(rows)[x] ==
                            if Selected(filterType, searchTerm, countryFilter)(x) then multiset(students)[x] else 0)
      ensures forall k :: 0 <= k < |rows| ==>
                            MatchesSearch(rows[k], filterType, searchTerm) && MatchesCountry(rows[k], countryFilter)
    {
      ViewIsSortedSelection(students, filterType, searchTerm, countryFilter, parse);
      FilteredStudents(students, filterType, searchTerm, countryFilter, parse)
    }
  }

  /** A client of the class: fill in the form and add a record, then fill it in again
      with a score of 150. The first submit adds the record, the second is rejected and
      the list keeps its one record. */
  method AddThenRejectScenario(parse: ScoreParser) returns (first: Outcome, second: Outcome, rows: seq<Record>)
    requires parse("85") == Some(85.0) && parse("150") == Some(150.0)
    ensures first == Added && second == ScoreOutOfRange
    ensures rows == [Record("a", "Ali", "Vali", "2024-01-01", "85", "USA")]
  {
    var m := new StudentManager(None, parse);
    m.SetInput(NameInput, "Ali");
    m.SetInput(SurnameInput, "Vali");
    m.SetInput(DateInput, "2024-01-01");
    m.SetInput(BallInput, "85");
    m.SetInput(CountryInput, "USA");
    assert m.form == Form("Ali", "Vali", "2024-01-01", "85", "USA");
    SubmitScenario(m.form, parse, "150");
    first := m.Submit("a");
    assert m.students == [Record("a", "Ali", "Vali", "2024-01-01", "85", "USA")];

    m.SetInput(NameInput, "Ali");
    m.SetInput(SurnameInput, "Vali");
    m.SetInput(DateInput, "2024-01-01");
    m.SetInput(BallInput, "150");
    m.SetInput(CountryInput, "USA");
    second := m.Submit("b");
    rows := m.students;
  }
}
