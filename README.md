# Student manager: record list, submit state machine and table view

This project models the logic of the single React component `Todo` (a "Student
Manager"), with the markup and the hooks taken out. The component keeps three pieces
of state:

- `students`, an ordered list of records `{id, name, surname, date, ball, country}`;
- `form`, the five form inputs;
- `editId`, the id of the record being edited. It is null in Create mode.

It also keeps three view settings: `filterType`, `searchTerm` and `countryFilter`.

The event handlers are:

- submit: trim, validate, then update or append, then reset the form;
- delete by id;
- begin editing a record;
- typing into an input.

The table shows `filteredStudents`: a search filter on name or surname (ignoring
case), then an optional exact country filter, then a stable sort by score, highest
first.

Modules:

- `Text` (text.dfy): JavaScript `trim` over the ECMAScript whitespace set, ASCII
  `toLowerCase`, and `includes`.
- `Sequences` (sequences.dfy): `Array.prototype.filter` and what it keeps.
- `Sorting` (sorting.dfy): the stable sort that `Array.prototype.sort` performs with the
  comparator `(a, b) => b.ball - a.ball`. It is written as an insertion sort.
- `Students` (students.dfy): the record and form types, and validation. It also
  holds the submit handler as a pure transition `Submit(state, parse, newId)`, the
  list builders of edit-submit (`map`) and delete (`filter`), and the invariants the
  handlers keep.
- `Filtering` (filtering.dfy): the `filteredStudents` pipeline and its properties.
- `Manager` (manager.dfy): the class `StudentManager`. Its fields are the component
  state, and each handler is a method. Every method's postcondition ties the new
  state to the pure functions above.

The two calls into code the component does not own are injected:

- `Number(text)` is a parameter `parse: string -> Option<real>`, where `None` stands
  for NaN.
- `uuidv4()` is the `newId` argument of `Submit`.

Where the component's documented intent and its code differ, the model follows the
code:

- The handler never checks that `country` is one of the five listed countries. It
  only checks that the field is not empty (`SubmitAcceptsUnlistedCountry`).
- The score need not be an integer. Any text that `Number` reads as a value in
  [0, 100] passes. This includes the empty text, because `Number("")` is 0
  (`SubmitAcceptsEmptyScore`). In the code only the input's `required` attribute
  stops an empty score.
- The score is stored as the raw text typed into the form. It is never converted.
- The saved list is read with `JSON.parse` when its key is present. A corrupt value
  would throw. Nothing falls back to an empty list except a missing (or empty) key.
- Edit mode is JavaScript truthiness of `editId`: it is set and not the empty
  string. An `editId` of `""` therefore takes the Create branch, and that branch does
  not clear `editId`.

## Model

| member | source | states |
|---|---|---|
| Text.Trim | src/pages/todo/Todo.jsx:34-36 | the trimmed text is no longer than the input and neither starts nor ends with a JavaScript whitespace or line-terminator character |
| Text.TrimStartSpec | src/pages/todo/Todo.jsx:34-36 | stripping leading whitespace leaves a suffix of the input, drops only whitespace, and leaves no whitespace at the front |
| Text.TrimEndSpec | src/pages/todo/Todo.jsx:34-36 | stripping trailing whitespace leaves a prefix of the input, drops only whitespace, and leaves no whitespace at the end |
| Text.TrimEmptyIff | src/pages/todo/Todo.jsx:34-36 | a field trims to the empty string exactly when it is all whitespace, which is when the required-field check at line 41 fails |
| Text.TrimIsInnerSlice | src/pages/todo/Todo.jsx:34-36 | the trimmed text is a contiguous slice of the input with only whitespace on either side of it |
| Text.TrimFixpoint | src/pages/todo/Todo.jsx:34-36 | a text is its own trim exactly when it has no surrounding whitespace; trimming twice equals trimming once |
| Text.Lower | src/pages/todo/Todo.jsx:79 | lower-casing keeps the length, turns every ASCII capital into its lower-case letter, and changes no other character |
| Text.LowerIgnoresCase | src/pages/todo/Todo.jsx:79 | texts that differ only in ASCII case lower-case to the same text, and lower-casing twice equals lower-casing once |
| Text.SameLowerIsEqualIgnoringCase | src/pages/todo/Todo.jsx:79 | conversely, texts with the same lower-case form differ only in ASCII case |
| Text.Contains | src/pages/todo/Todo.jsx:79 | `includes` of the empty term is true; a term longer than the text is never included |
| Text.ContainsIffOccurs | src/pages/todo/Todo.jsx:79 | `includes` holds exactly when the term occurs in the text at some offset |
| Sequences.Filter | src/pages/todo/Todo.jsx:66 | the filtered list is no longer than the input and every element kept satisfies the predicate |
| Sequences.FilterIsSubsequence | src/pages/todo/Todo.jsx:66 | the filtered list keeps its elements in their original relative order |
| Sequences.FilterOccurrences | src/pages/todo/Todo.jsx:66 | every element satisfying the predicate keeps all its occurrences; every other element has none |
| Sorting.Insert | src/pages/todo/Todo.jsx:84 | inserting adds exactly one occurrence of the element and removes nothing |
| Sorting.SortDescending | src/pages/todo/Todo.jsx:84 | the sorted list is a permutation of the input whose keys never increase |
| Sorting.SortStable | src/pages/todo/Todo.jsx:84 | for every key value, the elements with that key appear in the same order as in the input |
| Students.TrimForm | src/pages/todo/Todo.jsx:32-37 | no contract of its own: name, surname and country are trimmed, date and score kept; what it yields is stated by `Students.AcceptedFormIsWellFormed` and the submit lemmas |
| Students.MissingField | src/pages/todo/Todo.jsx:41 | no contract of its own: the first check, stated by `Students.SubmitRejectsMissingField` and `Students.SubmitAcceptance` |
| Students.ScoreAccepted | src/pages/todo/Todo.jsx:39-45 | no contract of its own: the second check, stated by `Students.SubmitRejectsScore`, `Students.ScoreBoundaries` and `Students.SubmitAcceptance` |
| Students.IsEditing | src/pages/todo/Todo.jsx:49 | no contract of its own: the truthiness of `editId` that selects the branch, stated by `Students.SubmitCreateAppends` and `Students.SubmitEditReplaces` |
| Students.Submit | src/pages/todo/Todo.jsx:29-63 | no contract of its own: the submit transition, specified by `Students.SubmitRejectsMissingField`, `Students.SubmitRejectsScore`, `Students.SubmitAcceptance`, `Students.SubmitCreateAppends` and `Students.SubmitEditReplaces` |
| Students.RemoveById | src/pages/todo/Todo.jsx:66 | no contract of its own: the delete filter, specified by `Students.RemoveByIdSpec`, `Students.RemoveAbsentId` and `Students.RemoveUniqueId` |
| Students.BeginEdit | src/pages/todo/Todo.jsx:71-73 | no contract of its own: the edit handler, specified by `Students.BeginEditSpec` |
| Students.ReplaceById | src/pages/todo/Todo.jsx:50-52 | the edit `map` keeps the length; every record with the selected id becomes the trimmed form under that id, and every other record stays unchanged at its position |
| Students.SubmitRejectsMissingField | src/pages/todo/Todo.jsx:41-43 | an empty trimmed name, surname or country, or an empty date, rejects the submit whatever the score, leaving list, form and editId unchanged |
| Students.SubmitRejectsScore | src/pages/todo/Todo.jsx:45-47 | with every field present, a NaN score or one below 0 or above 100 rejects the submit and changes nothing |
| Students.SubmitAcceptance | src/pages/todo/Todo.jsx:41-62 | a submit is accepted exactly when both checks pass; an accepted submit resets the form to empty and a rejected one changes no state |
| Students.ScoreBoundaries | src/pages/todo/Todo.jsx:45-47 | with every field present, a score reading as 0 or 100 makes the submit accepted; one reading as -1 or 101 gets the range notification and leaves the state unchanged |
| Students.SubmitCreateAppends | src/pages/todo/Todo.jsx:56-62 | in Create mode an accepted submit grows the list by exactly one and keeps the earlier records in place; the new last record is the trimmed form with the generated id; the form is reset |
| Students.SubmitEditReplaces | src/pages/todo/Todo.jsx:49-62 | in Edit mode an accepted submit keeps the length; records with the selected id become the trimmed form under that id and the others keep value and position; the form is reset and editId cleared |
| Students.SubmitAcceptsUnlistedCountry | src/pages/todo/Todo.jsx:36-59 | a trimmed country outside the select's list is accepted and stored |
| Students.SubmitAcceptsEmptyScore | src/pages/todo/Todo.jsx:39-47 | when `Number("")` is 0, an empty score text passes the handler's checks |
| Students.SubmitScenario | src/pages/todo/Todo.jsx:29-63 | a valid submit on an empty list adds one record holding the score text; resubmitting the same form with score 150 is rejected and the list keeps that one record |
| Students.AcceptedFormIsWellFormed | src/pages/todo/Todo.jsx:32-47 | a form that passes both checks becomes a record whose name, surname and country are non-empty and trimmed, whose date is non-empty, and whose score is in range |
| Students.SubmitPreservesWellFormed | src/pages/todo/Todo.jsx:29-63 | every submit keeps every stored record well-formed |
| Students.SubmitPreservesUniqueIds | src/pages/todo/Todo.jsx:49-58 | if the generated id is fresh, a submit keeps the ids of the list distinct |
| Students.RemoveByIdSpec | src/pages/todo/Todo.jsx:65-67 | delete leaves no record with the id, keeps every occurrence of every other record, keeps the survivors in their relative order, and never grows the list |
| Students.RemoveAbsentId | src/pages/todo/Todo.jsx:66 | deleting an id no record carries leaves the list unchanged |
| Students.RemoveUniqueId | src/pages/todo/Todo.jsx:66 | with distinct ids, deleting the id of the record at position i removes exactly that record, so the length drops by one |
| Students.RemovePreservesInvariants | src/pages/todo/Todo.jsx:66 | delete keeps every record well-formed and the ids distinct |
| Students.BeginEditSpec | src/pages/todo/Todo.jsx:71-73 | begin-edit copies the record's fields into the form, selects its id, and leaves the list unchanged |
| Students.EditThenSubmitKeepsList | src/pages/todo/Todo.jsx:49-73 | editing a stored well-formed record with distinct ids and submitting the unchanged form gives back the same list, an empty form and Create mode |
| Filtering.ScoreKey | src/pages/todo/Todo.jsx:84 | no contract of its own: the number the comparator subtracts, with key 0 for NaN; the order it gives is stated by `Filtering.ViewIsSortedSelection` and `Filtering.ViewOrdersByParsedScore` |
| Filtering.FilteredStudents | src/pages/todo/Todo.jsx:77-84 | no contract of its own: the view pipeline, specified by `Filtering.ViewIsSortedSelection`, `Filtering.ViewIsStable` and `Filtering.ViewWithoutFilters` |
| Filtering.SearchIgnoresCase | src/pages/todo/Todo.jsx:79 | changing the ASCII case of the search term or of the searched field does not change whether a record matches |
| Filtering.SearchIsSubstring | src/pages/todo/Todo.jsx:79 | a record matches the search exactly when the lower-cased term occurs at some offset of the lower-cased field |
| Filtering.FiltersCombine | src/pages/todo/Todo.jsx:77-83 | the search filter followed by the country filter keeps exactly the records both filters keep, in order |
| Filtering.ViewIsSortedSelection | src/pages/todo/Todo.jsx:77-84 | the table is a rearrangement of exactly the records matching both filters, with their multiplicities; each row contains the search term in the selected field ignoring case and has the chosen country when one is set; scores never increase down the table |
| Filtering.ViewIsStable | src/pages/todo/Todo.jsx:84 | records with the same score keep their relative order from the list |
| Filtering.ViewOrdersByParsedScore | src/pages/todo/Todo.jsx:84 | when every stored record is well-formed, each row's parsed score is at least that of every row below it |
| Filtering.ViewWithoutFilters | src/pages/todo/Todo.jsx:77-84 | an empty search term and no country filter show every record, sorted by score |
| Filtering.ViewScenario | src/pages/todo/Todo.jsx:77-84 | two records scored 70 and 90, in that order, are shown 90 first |
| Manager.WithInput | src/pages/todo/Todo.jsx:99-128 | typing into one input sets exactly that input and leaves the other four as they were |
| Manager.StudentManager.constructor | src/pages/todo/Todo.jsx:7-23 | the list starts as the saved snapshot, or empty when none is saved; the form is empty; editId is null; the search is by name with an empty term and no country |
| Manager.StudentManager.SetInput | src/pages/todo/Todo.jsx:99-128 | typing changes only the form |
| Manager.StudentManager.Submit | src/pages/todo/Todo.jsx:29-63 | the new list, form, editId and notification are those of the submit transition; the view settings are unchanged |
| Manager.StudentManager.Delete | src/pages/todo/Todo.jsx:65-69 | the list becomes the delete filter of the old list; nothing else changes |
| Manager.StudentManager.BeginEdit | src/pages/todo/Todo.jsx:71-75 | form and editId are those of the edit handler; the list and the view settings are unchanged |
| Manager.StudentManager.SetFilterType | src/pages/todo/Todo.jsx:155-171 | choosing name or surname changes only filterType |
| Manager.StudentManager.SetSearchTerm | src/pages/todo/Todo.jsx:151 | typing a search changes only searchTerm |
| Manager.StudentManager.SetCountryFilter | src/pages/todo/Todo.jsx:176 | choosing a country changes only countryFilter |
| Manager.StudentManager.Table | src/pages/todo/Todo.jsx:77-84 | the rows shown for the current fields are exactly the records matching the search and the country filter, with their multiplicities, highest score first |
| Manager.AddThenRejectScenario | src/pages/todo/Todo.jsx:29-63 | typing a complete form with score 85 and submitting adds the record; typing it again with score 150 and submitting gives the range notification, and the list still holds only the first record |

## Left out

- Rendering: the JSX markup, the table and the select options (lines 86-228) are presentation. `Manager.StudentManager.Table` only gives the rows that would be shown.
- Notifications: `toast` and `<Toaster>` are calls into a library. `Submit` returns their kind as an `Outcome` instead. Delete and begin-edit have no outcome, since their toasts do not depend on state.
- Persistence: `localStorage` and `JSON.stringify`/`JSON.parse` (lines 7-10 and 25-27) are foreign storage and serialisation calls.
  - The constructor takes the already-parsed snapshot, or `None` when the key is absent.
  - The write-back after every change is not modelled, so neither is the save/load round trip.
  - The exception a corrupt saved value would raise is not modelled.
- Id generation: `uuidv4()` is the `newId` parameter. Its freshness is assumed only where a property needs it (`Students.SubmitPreservesUniqueIds`).
- Number parsing: `Number()` is the `parse` parameter, giving a `real` or NaN (`None`). IEEE rounding, infinities and signed zero are not modelled.
- Students.SubmitAcceptsEmptyScore: depends on the parameter `parse` mapping `""` to 0, as `Number` does, because `parse` is abstract.
- Text.Lower: does not model Unicode case mapping (`toLowerCase` on non-ASCII letters, and length-changing mappings). Only ASCII A-Z are lowered.
- Text.Trim: JavaScript strings are UTF-16 code units, while Dafny characters are Unicode scalar values. The whitespace set is the same; unpaired surrogates are not modelled.
- Filtering.ScoreKey: a stored score that `Number` reads as NaN makes the comparator of line 84 treat the row as equal to every other, which leaves the order implementation-defined. The model gives such a row key 0. A row like this can only come from a saved list this component did not write; `Filtering.ViewOrdersByParsedScore` covers the case where every record is well-formed.
- Missing fields: `student[filterType]?.` (line 79) excludes a record that lacks the selected field. Records here always carry every field, and the radio buttons only offer `name` and `surname`, so that path is not modelled.
- Form id: `setForm(student)` (line 72) also copies the record's `id` into the form. Both submit branches overwrite `id` (lines 51 and 57), so `Form` has no id field.
- React scheduling: `useState` batching and effect timing are not modelled. Each handler is one atomic step on the state it reads.
