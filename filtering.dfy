/** The table view of the component, recomputed at every render: the records whose
    selected field contains the search term (ignoring case), narrowed to one country
    when a country is chosen, sorted by score with the highest first. */
module Filtering {
  import opened Text
  import opened Sequences
  import opened Sorting
  import opened Students

  /** The radio buttons: which field the search term is matched against. */
  datatype FilterField = ByName | BySurname

  function FieldOf(r: Record, f: FilterField): string {
    match f
    case ByName => r.name
    case BySurname => r.surname
  }

  /** The first filter: the selected field contains the search term, ignoring case. */
  predicate MatchesSearch(r: Record, f: FilterField, term: string) {
    Contains(Lower(FieldOf(r, f)), Lower(term))
  }

  /** The second filter: an empty country filter keeps every record. */
  predicate MatchesCountry(r: Record, country: string) {
    country != "" ==> r.country == country
  }

  function BySearch(f: FilterField, term: string): Record -> bool {
    r => MatchesSearch(r, f, term)
  }

  function ByCountry(country: string): Record -> bool {
    r => MatchesCountry(r, country)
  }

  /** Both filters at once. */
  function Selected(f: FilterField, term: string, country: string): Record -> bool {
    r => MatchesSearch(r, f, term) && MatchesCountry(r, country)
  }

  /** The comparator's key: the score text read as a number. A score that is NaN
      compares equal to everything in the source; it is given key 0 here. */
  function ScoreKey(parse: ScoreParser): Record -> real {
    (r: Record) => if parse(r.ball).Some? then parse(r.ball).value else 0.0
  }

  /** `filteredStudents`: filter by search, filter by country, sort by score. */
  function FilteredStudents(students: seq<Record>, f: FilterField, term: string, country: string,
                            parse: ScoreParser): seq<Record>
  {
    SortDescending(Filter(Filter(students, BySearch(f, term)), ByCountry(country)), ScoreKey(parse))
  }

  /** The search ignores case: changing the ASCII case of the term or of the searched
      field does not change whether a record matches. */
  lemma SearchIgnoresCase(r: Record, r': Record, f: FilterField, term: string, term': string)
    requires EqualIgnoringCase(FieldOf(r, f), FieldOf(r', f))
    requires EqualIgnoringCase(term, term')
    ensures MatchesSearch(r, f, term) <==> MatchesSearch(r', f, term')
  {
    LowerIgnoresCase(FieldOf(r, f), FieldOf(r', f));
    LowerIgnoresCase(term, term');
  }

  /** The search matches a record exactly when the lower-cased term occurs somewhere in
      the lower-cased field. */
  lemma SearchIsSubstring(r: Record, f: FilterField, term: string)
    ensures MatchesSearch(r, f, term) <==> exists i :: OccursAt(Lower(FieldOf(r, f)), Lower(term), i)
  {
    ContainsIffOccurs(Lower(FieldOf(r, f)), Lower(term));
  }

  /** The two filters in a row keep exactly the records both keep. */
  lemma FiltersCombine(students: seq<Record>, f: FilterField, term: string, country: string)
    ensures Filter(Filter(students, BySearch(f, term)), ByCountry(country))
         == Filter(students, Selected(f, term, country))
  {
    FilterFilter(students, BySearch(f, term), ByCountry(country), Selected(f, term, country));
  }

  /** The view is a rearrangement of exactly the selected records (each with its
      number of occurrences), every one of them matches both filters, and the scores
      never increase down the table. */
  lemma ViewIsSortedSelection(students: seq<Record>, f: FilterField, term: string, country: string,
                              parse: ScoreParser)
    ensures var v := FilteredStudents(students, f, term, country, parse);
      && Descending(v, ScoreKey(parse))
      && (forall x :: multiset(v)[x] == if Selected(f, term, country)(x) then multiset(students)[x] else 0)
      && (forall k :: 0 <= k < |v| ==> MatchesSearch(v[k], f, term) && MatchesCountry(v[k], country))
  {
    var v := FilteredStudents(students, f, term, country, parse);
    var kept := Filter(students, Selected(f, term, country));
    FiltersCombine(students, f, term, country);
    assert multiset(v) == multiset(kept);
    forall x ensures multiset(v)[x] == if Selected(f, term, country)(x) then multiset(students)[x] else 0 {
      FilterOccurrences(students, Selected(f, term, country), x);
    }
    forall k | 0 <= k < |v| ensures MatchesSearch(v[k], f, term) && MatchesCountry(v[k], country) {
      assert v[k] in multiset(v);
      FilterOccurrences(students, Selected(f, term, country), v[k]);
    }
  }

  /** The sort is stable: records with the same score keep their order from the list. */
  lemma ViewIsStable(students: seq<Record>, f: FilterField, term: string, country: string,
                     parse: ScoreParser, k: real)
    ensures WithKey(FilteredStudents(students, f, term, country, parse), ScoreKey(parse), k)
         == WithKey(Filter(students, Selected(f, term, country)), ScoreKey(parse), k)
  {
    FiltersCombine(students, f, term, country);
    SortStable(Filter(students, Selected(f, term, country)), ScoreKey(parse), k);
  }

  /** When every stored record is well-formed, the order is that of the parsed scores. */
  lemma ViewOrdersByParsedScore(students: seq<Record>, f: FilterField, term: string, country: string,
                                parse: ScoreParser)
    requires AllWellFormed(parse, students)
    ensures var v := FilteredStudents(students, f, term, country, parse);
      forall i, j :: 0 <= i < j < |v| ==>
        parse(v[i].ball).Some? && parse(v[j].ball).Some? && parse(v[i].ball).value >= parse(v[j].ball).value
  {
    var v := FilteredStudents(students, f, term, country, parse);
    ViewIsSortedSelection(students, f, term, country, parse);
    forall k | 0 <= k < |v| ensures WellFormed(parse, v[k]) {
      assert v[k] in multiset(v);
      assert v[k] in multiset(students);
      var i :| 0 <= i < |students| && students[i] == v[k];
    }
  }

  /** An empty search term and no country filter show every record, sorted. */
  lemma ViewWithoutFilters(students: seq<Record>, f: FilterField, parse: ScoreParser)
    ensures FilteredStudents(students, f, "", "", parse) == SortDescending(students, ScoreKey(parse))
  {
    assert Lower("") == "";
    FilterKeepsAll(students, BySearch(f, ""));
    FilterKeepsAll(students, ByCountry(""));
  }

  /** Two records scored 70 and 90, in that order, are shown 90 first. */
  lemma ViewScenario(a: Record, b: Record, f: FilterField, parse: ScoreParser)
    requires parse(a.ball) == Some(70.0) && parse(b.ball) == Some(90.0)
    ensures FilteredStudents([a, b], f, "", "", parse) == [b, a]
  {
    var key := ScoreKey(parse);
    ViewWithoutFilters([a, b], f, parse);
    assert [a, b][1..] == [b];
    assert SortDescending([b], key) == Insert(b, [], key) == [b];
    assert key(a) < key(b);
    assert Insert(a, [b], key) == [b] + Insert(a, [], key);
  }
}
