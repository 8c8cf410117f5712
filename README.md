# CelestiCare charting core in Dafny

CelestiCare is a small clinical charting application. A React front end
shows a patient list. For the selected patient, a clinician writes a note,
asks the back end to detect problems in it, adjusts the detected candidates,
and commits the selected problems and the note to the patient record. A
search box over a problem knowledge base adds candidates by click or by
keyboard: ArrowDown and ArrowUp move a highlight, Enter commits, Escape
clears. A Flask service keeps the patient list in memory. It serves detection
through a variation map built from the knowledge base, and it updates,
creates and deletes patients.

This project models that core and proves its properties:

- `Text`: JavaScript `trim` (the full ECMAScript white-space set), ASCII
  `toLowerCase`, and `includes`.
- `Search`: the search effect, a stable case-insensitive filter capped at
  seven results.
- `Navigator`: the index arithmetic of the arrow keys, and the key handler's
  decision table.
- `Grouping`: `groupProblems`, written as a loop over an accumulator.
- `Commit`: the commit plan of `handleAddProblems` and the payloads of the record edits.
- `Chart`: the whole session as a value, with one transition per event
  handler.
- `AppSession`: the `App` component as a class. Its fields are the state
  hooks, and each handler is a method proved to perform the matching `Chart`
  transition.
- `LabSort`: the sort-direction toggle of the lab table.
- `Detection`: the back end's `variation_map` build and the de-duplication
  loop of detection, in class `Engine`.
- `PatientStore`: the back end's list operations, in class `Store`, for both
  `backend/app.py` and the older root `app.py`.

Transport, files and clocks are parameters:

- A save's outcome is `Saved(echo)` or `SaveFailed`.
- Detection's answer is `Detected(candidates)` or `DetectFailed`.
- The time stamps of a new note are a `Clock`.
- The back end starts from the matched variation strings rather than from
  the regular expression.

Some behaviours of the code that the model keeps as they are:

- Escape with no results shown does nothing. The key handler returns before
  it looks at the key.
- The search matches the lower-cased query as typed. Only the blank test
  trims it, so a query with surrounding spaces matches only entries that
  contain those spaces.
- Re-selecting a term that was deselected moves it to the end of the selection
  order. A JavaScript `Set` iterates in insertion order.
- Enter with no results does not call `preventDefault`.

## Model

| member | source | states |
|---|---|---|
| Text.Trim | frontend/src/App.js:162 | the result is no longer than the input and neither starts nor ends with white space |
| Text.TrimIsSlice | frontend/src/App.js:162 | the trimmed string is the slice of the input between a white-space-only prefix and a white-space-only suffix |
| Text.TrimEmptyIffBlank | frontend/src/App.js:162 | the trimmed string is empty exactly when every character is white space |
| Text.Lower | frontend/src/App.js:168-171 | same length as the input; each ASCII capital becomes the letter 32 code points above it, every other character is kept, and no ASCII capital is left |
| Text.IncludesIffOccurs | frontend/src/App.js:170-171 | `includes` holds exactly when the needle occurs at some position of the haystack |
| Search.MatchesQueryIffOccurs | frontend/src/App.js:170-172 | an entry matches exactly when the lower-cased query occurs at some position of its lower-cased term or of one of its lower-cased variations |
| Search.Matching | frontend/src/App.js:169-172 | an entry is in the result exactly when it is in the knowledge base and matches; the result is a subsequence of the knowledge base, so in its order |
| Search.MatchingCount | frontend/src/App.js:169-172 | each matching entry occurs in the result as often as in the knowledge base, and a non-matching entry not at all |
| Search.SearchResults | frontend/src/App.js:161-180 | a blank query gives no results, and never more than seven are shown |
| Search.SearchResultsSpec | frontend/src/App.js:161-180 | otherwise the results are the first min(7, number of matches) matches in knowledge-base order, each a knowledge-base entry matching the lower-cased query, and all matches are shown when fewer than seven are |
| Search.BlankQueryGivesNothing | frontend/src/App.js:161-165 | a whitespace-only query gives no results |
| Search.ResultsContainQuery | frontend/src/App.js:168-172 | every result has the lower-cased query as a substring of its lower-cased term or of one lower-cased variation |
| Navigator.ArrowDownIndex | frontend/src/App.js:380-388 | i goes to i+1 below the last index and to 0 otherwise, so -1 goes to 0; the result lies in [0, len) |
| Navigator.ArrowUpIndex | frontend/src/App.js:389-397 | i goes to i-1 above 0 and to len-1 otherwise, so -1 and 0 both go to len-1; the result lies in [0, len) |
| Navigator.ArrowsUndoEachOther | frontend/src/App.js:380-397 | from a highlighted result, ArrowUp undoes ArrowDown and ArrowDown undoes ArrowUp |
| Navigator.ArrowDownWalks | frontend/src/App.js:380-388 | starting from -1, n+1 ArrowDown presses highlight result n |
| Navigator.ArrowDownWrapsAround | frontend/src/App.js:380-388 | from nothing highlighted, one ArrowDown press more than there are results wraps the highlight back to the first result |
| Navigator.KeyEffectOf | frontend/src/App.js:367-416 | with no results only Enter acts, by adding a custom problem; otherwise the arrows move the highlight, Enter picks the highlighted result or falls back to custom add, Escape clears, and any other key is ignored (each as an if-and-only-if) |
| Navigator.PreventsDefaultWhenConsumed | frontend/src/App.js:367-416 | `preventDefault` is called exactly when results are shown and the key is an arrow or Enter |
| Grouping.CategoryOf | frontend/src/App.js:6 | a missing or empty category becomes "Other", and any other category is kept |
| Grouping.CategoriesOf | frontend/src/App.js:6 | one category per candidate, in candidate order, each `CategoryOf` that candidate |
| Grouping.InCategory | frontend/src/App.js:4-13 | a candidate is in the category's list exactly when it is among the candidates and has that category |
| Grouping.InCategoryInOrder | frontend/src/App.js:4-13 | the category's list is a subsequence of the candidates, so in insertion order |
| Grouping.InCategoryCount | frontend/src/App.js:4-13 | the category's list holds each candidate of the category as often as it occurs, and no other candidate |
| Seqs.FirstSeenOrder | frontend/src/App.js:4-13 | the distinct elements are listed in the order of their first occurrence: an element listed before another occurs before every occurrence of the other |
| Grouping.GroupProblems | frontend/src/App.js:4-13 | the categories are `Seqs.FirstSeen` of the candidates' categories, so once each in first-seen order (`Seqs.FirstSeenOrder`), none empty; each group is exactly its candidates in insertion order; group sizes sum to the number of candidates |
| Commit.NewProblemTerms | frontend/src/App.js:229-231 | exactly the selected terms not already on the patient's list, in selection order, without duplicates when the selection has none, and empty when every selected term is already there |
| Commit.NewNote | frontend/src/App.js:241-245 | the new note holds the given text, its id is the clock's ISO time and its time stamp the clock's local time |
| Records.CandidateOf | frontend/src/App.js:334-335 | the candidate a picked entry becomes carries the entry's term and category |
| Commit.PlanCommit | frontend/src/App.js:228-259 | nothing is saved exactly when no term is new and the trimmed note is empty; otherwise the problems become the old list followed by the new terms, the trimmed note is appended only when non-empty, and every other field is kept |
| Commit.CommitCoversSelection | frontend/src/App.js:253-257 | after a save, the old problems come first and unchanged, every selected term is on the list, no other term is added, and a list without duplicates stays without duplicates |
| Commit.CommitIsIdempotent | frontend/src/App.js:228-236 | planning the same selection again against the saved payload, with an empty note, finds nothing to save |
| Commit.CommitExampleAppendsNewTerm | frontend/src/App.js:228-259 | the patient with problem "A", a selection of "A" and "B" and a blank note gets ["A", "B"] |
| Commit.CommitExampleNothing | frontend/src/App.js:232-236 | an empty selection with a whitespace-only note has nothing to save |
| Commit.NoteOnlyPayload | frontend/src/App.js:418-434 | no payload when the note is blank; otherwise the patient with the trimmed note appended and nothing else changed |
| Commit.WithoutNote | frontend/src/App.js:305-309 | no note with the id is left, every other note is kept, the result is a subsequence of the notes, and the list is unchanged when the id is absent |
| Commit.WithoutNoteCount | frontend/src/App.js:305-309 | each note of another id is kept as often as it occurs, and a note with the id not at all |
| Seqs.Without | frontend/src/App.js:278-280 | the removed value is gone, every other value keeps its membership, the result is a subsequence, an absent value changes nothing, and a list without duplicates stays without |
| Seqs.WithoutCount | frontend/src/App.js:278-280 | every other value is kept as often as it occurs, and the removed value not at all |
| Commit.ReplaceById | frontend/src/App.js:264-266 | same length; every entry with the saved id becomes the saved patient, every other entry stays |
| Commit.ReplaceByIdKeepsIds | frontend/src/App.js:264-266 | ids keep their positions, replacing twice is replacing once, an absent id changes nothing, and a present id puts the saved patient on the list |
| Chart.SetToggle | frontend/src/App.js:216-226 | flips the term's membership and keeps every other term's; a new term goes last, a removal keeps the others in their order (a subsequence); the selection stays free of duplicates |
| Chart.SetAdd | frontend/src/App.js:336-340 | the term becomes a member and goes last when it is new; a present term leaves the selection as it was; no duplicates appear |
| Chart.ClearSearch | frontend/src/App.js:407-412 | query, results and highlight are emptied and nothing else changes; the invariant is kept |
| Chart.RunSearch | frontend/src/App.js:161-180 | the search effect stores `Search.SearchResults` of the knowledge base and query and clears the highlight, changing nothing else and keeping the invariant |
| Chart.LoadPatients | frontend/src/App.js:144-149 | the patient list becomes the loaded one and nothing else changes |
| Chart.EditNote | frontend/src/App.js:191-193 | the note text becomes the typed text and nothing else changes |
| Chart.EditSearch | frontend/src/App.js:665 | typing sets the query; the same query again leaves the state exactly as it was; a changed query stores `Search.SearchResults` of the knowledge base and the new query and clears the highlight; nothing else changes; the invariant is kept |
| Chart.LoadProblemDatabase | frontend/src/App.js:151-159 | the knowledge base is replaced, the results become `Search.SearchResults` of it and the current query, the highlight is cleared, and nothing else changes |
| Chart.SelectPatient | frontend/src/App.js:182-189 | the patient is selected; note, candidates, selection and search are emptied; patients and knowledge base are kept |
| Chart.DetectProblems | frontend/src/App.js:195-214 | nothing happens with an empty note; otherwise selection and query are cleared, the search results and highlight are cleared unless the query was already empty (then the effect does not re-run), the candidates become the answer or stay empty on failure, and note, patient, patients and knowledge base are kept |
| Chart.ToggleProblem | frontend/src/App.js:216-226 | only the selection changes: a new term is appended at the end, a selected one is removed with the others kept in order; the candidates never change |
| Chart.ToggleTwiceRestoresMembership | frontend/src/App.js:216-226 | toggling a term twice restores membership of every term, and restores the selection exactly when the term was not selected |
| Chart.ToggleTwiceMovesToEnd | frontend/src/App.js:216-226 | toggling a selected term twice restores membership but moves the term to the end: ["a","b"] becomes ["b","a"] |
| Chart.AddAndSelect | frontend/src/App.js:334-365 | the candidate is appended, its term joins the selection at the end when new (the selection is unchanged when it is present), query, results and highlight are cleared, and nothing else changes; the invariant and the coverage of the selection are kept |
| Chart.PickSearchResult | frontend/src/App.js:334-344 | the entry's candidate is appended, its term is selected (at the end when new, the selection unchanged when already selected), query, results and highlight are cleared, and nothing else changes |
| Chart.AddCustomProblem | frontend/src/App.js:346-365 | nothing happens when the trimmed query is blank; otherwise {term: trimmed query, category: "Custom"} is appended, its term selected (at the end when new, the selection unchanged when already selected), the search box cleared, and nothing else changes |
| Chart.SearchKeyDown | frontend/src/App.js:367-416 | every key press keeps the session invariant and the coverage of the selection by the candidates |
| Chart.ArrowKeysMoveHighlight | frontend/src/App.js:380-397 | with results shown, an arrow key changes only the highlight, to a shown result, by the wrap-around rules |
| Chart.ArrowsWithoutResults | frontend/src/App.js:372-376 | with no results shown, ArrowDown and ArrowUp change nothing |
| Chart.EnterCommitsHighlighted | frontend/src/App.js:398-403 | Enter on a highlighted result picks that result |
| Chart.EnterFallsBackToCustom | frontend/src/App.js:372-405 | Enter with nothing highlighted or no results takes the custom-add path |
| Chart.EscapeAndOtherKeys | frontend/src/App.js:372-415 | with results shown, Escape clears the search and keeps candidates and selection; with none, Escape changes nothing; every other key changes nothing |
| Chart.EscapeAfterArrows | frontend/src/App.js:380-414 | any run of arrow keys changes only the highlight, and a following Escape leaves the same state as Escape alone |
| Chart.DownDownEnterCommitsSecond | frontend/src/App.js:380-403 | over results [X, Y, Z] with nothing highlighted, ArrowDown, ArrowDown, Enter picks Y |
| Chart.EnterAddsHeadache | frontend/src/App.js:372-376 | Enter with no results and the query "Headache" adds the candidate {Headache, Custom} |
| Chart.CommitRequest | frontend/src/App.js:228-259 | nothing is sent without a patient or when there is nothing to save; otherwise exactly the payload of `Commit.PlanCommit` is sent |
| Chart.AfterSave | frontend/src/App.js:264-267 | the echo replaces every patient of its id on the list and becomes the selected patient; nothing else changes |
| Chart.AddProblems | frontend/src/App.js:228-274 | the commit keeps the session invariant and the coverage of the selection by the candidates |
| Chart.AddProblemsOutcomes | frontend/src/App.js:228-274 | without a patient nothing changes; with nothing to save only candidates and selection are cleared; a failed save changes nothing; a successful one replaces the patient by id, selects the echo and clears note, candidates and selection |
| Chart.CommitPersistsNewTerms | frontend/src/App.js:253-270 | when the echo is the payload, the patient's problems are the old ones followed by the new terms and every selected term is on the list |
| Chart.DeleteProblemRequest | frontend/src/App.js:276-283 | nothing is sent without a patient; otherwise the payload's problems are `Seqs.Without` of the patient's problems and the problem, and no other field changes |
| Chart.DeleteNoteRequest | frontend/src/App.js:305-312 | nothing is sent without a patient; otherwise the payload's notes are `Commit.WithoutNote` of the patient's notes and the id, and no other field changes |
| Chart.AfterEdit | frontend/src/App.js:276-332 | after a problem or note deletion: on success the echo replaces the patient by id and is selected; without a patient or on failure nothing changes; the invariant is kept |
| Chart.SaveNoteRequest | frontend/src/App.js:418-434 | nothing is sent without a patient or with a blank note; otherwise the patient with the trimmed note appended |
| Chart.SaveNote | frontend/src/App.js:418-456 | on success the echo replaces the patient and the note text is cleared, keeping candidates and selection; otherwise nothing changes |
| AppSession.App.RunSearchEffect | frontend/src/App.js:161-180 | the object's new state is `Chart.RunSearch` of its old state |
| AppSession.App.constructor | frontend/src/App.js:121-133 | the fields start as the initial hook values (everything empty, no patient, highlight -1), which satisfy the session invariant |
| AppSession.App.LoadPatients | frontend/src/App.js:144-149 | the object's new state is `Chart.LoadPatients` of its old state |
| AppSession.App.LoadProblemDatabase | frontend/src/App.js:151-159 | the object's new state is `Chart.LoadProblemDatabase` of its old state |
| AppSession.App.NoteChange | frontend/src/App.js:191-193 | the object's new state is `Chart.EditNote` of its old state |
| AppSession.App.SetSearchQuery | frontend/src/App.js:161-180 | the object's new state is `Chart.EditSearch` of its old state |
| AppSession.App.PatientClick | frontend/src/App.js:182-189 | the object's new state is `Chart.SelectPatient` of its old state |
| AppSession.App.DetectProblems | frontend/src/App.js:195-214 | the object's new state is `Chart.DetectProblems` of its old state |
| AppSession.App.ProblemClick | frontend/src/App.js:216-226 | the object's new state is `Chart.ToggleProblem` of its old state |
| AppSession.App.ApplySaved | frontend/src/App.js:264-267 | the object's new state is `Chart.AfterSave` of its old state |
| AppSession.App.ClearCommitted | frontend/src/App.js:268-270 | note text, candidates and selection are emptied and nothing else changes |
| AppSession.App.AddProblems | frontend/src/App.js:228-274 | the update sent is `Chart.CommitRequest` and the new state is `Chart.AddProblems` of the old state |
| AppSession.App.DeleteProblem | frontend/src/App.js:276-303 | the update sent is `Chart.DeleteProblemRequest` and the new state is `Chart.AfterEdit` of the old state |
| AppSession.App.DeleteNote | frontend/src/App.js:305-332 | the update sent is `Chart.DeleteNoteRequest` and the new state is `Chart.AfterEdit` of the old state |
| AppSession.App.AddAndSelect | frontend/src/App.js:334-365 | the object's new state is `Chart.AddAndSelect` of its old state |
| AppSession.App.SearchResultClick | frontend/src/App.js:334-344 | the object's new state is `Chart.PickSearchResult` of its old state |
| AppSession.App.AddCustomProblem | frontend/src/App.js:346-365 | the object's new state is `Chart.AddCustomProblem` of its old state |
| AppSession.App.SearchKeyDown | frontend/src/App.js:367-416 | `preventDefault` is reported as `Navigator.PreventsDefault`, and the new state is `Chart.SearchKeyDown` of the old state |
| AppSession.App.SaveNote | frontend/src/App.js:418-456 | the update sent and the new state are those of `Chart.SaveNoteRequest` and `Chart.SaveNote` |
| LabSort.NextSortConfig | frontend/src/App.js:38-46 | the clicked column becomes the key; the direction is descending exactly when that column was already sorted ascending |
| LabSort.ClickingTwiceFlips | frontend/src/App.js:38-46 | clicking the same column again flips the direction, and the third click restores the first click's configuration |
| LabSort.NewColumnStartsAscending | frontend/src/App.js:38-46 | a different column always starts ascending |
| LabSort.FirstDateClickAscends | frontend/src/App.js:18 | from the initial configuration (date, descending), clicking "date" sorts ascending |
| LabSort.LabView.RequestSort | frontend/src/App.js:38-46 | the new configuration is `NextSortConfig` of the old one |
| LabSort.LabView.constructor | frontend/src/App.js:18 | the sort configuration starts as (date, descending) |
| Detection.WriteVariationsSpec | backend/app.py:26-32 | writing one item's variations adds exactly their lower-cased forms as keys, all mapped to the item, and keeps other keys' values |
| Detection.WriteItemsKeys | backend/app.py:21-33 | the keys after the build are the old keys and the lower-cased variations of every item; unwritten keys keep their values |
| Detection.WriteItemsLastWins | backend/app.py:21-33 | a written key maps to the {term, category} of the last item having that variation |
| Detection.VariationMapLastWriterWins | backend/app.py:21-33 | from an empty map, a key is present exactly when some item has a variation lowering to it, and it maps to the {term, category} of the one such item with no later item having it |
| Detection.Engine.Build | backend/app.py:13-37 | the map becomes the build's write-out of the knowledge base over the old map, and the variation list is every lower-cased variation in order; app.py:13-36 is the same loop |
| Detection.Engine.constructor | backend/app.py:11 | the variation map starts empty |
| Detection.LookupsFound | backend/app.py:78-83 | lookups succeed exactly when every lower-cased match is a key, and then give the map's value for each match, position by position |
| Detection.LookupsMissing | backend/app.py:78-83 | a failed lookup names a lower-cased match that is not a key while every earlier match is one: the first missing variation |
| Detection.AssignAllKeys | backend/app.py:86 | the dictionary's keys are `Seqs.FirstSeen` of the terms, so the distinct terms in first-seen order (`Seqs.FirstSeenOrder`), and each term's value carries that term |
| Detection.AssignAllLastWins | backend/app.py:86 | each term maps to the last info that carries it |
| Detection.DetectionCoversMatches | backend/app.py:78-86 | when every lookup succeeds, the term of every match becomes a key of the dictionary |
| Detection.DetectionTakesLastMatch | backend/app.py:78-86 | every value of the dictionary is the map's value for some match, and no later match carries its term |
| Detection.DetectionDeduplicates | backend/app.py:77-89 | at most one entry per canonical term; every matched term is answered; each entry is the map's value for the last match with that term |
| Detection.Engine.Detect | backend/app.py:71-89 | the answer is the de-duplicated values in first-seen order, or an unknown-variation failure (a `KeyError`); app.py:61-79 is the same loop |
| PatientStore.FirstIndexOfId | backend/app.py:64-65 | the first position with the id, or -1 exactly when no patient has it |
| PatientStore.ReplaceFirstId | backend/app.py:64-69 | none when the id is absent; otherwise same length, the first match replaced by the body, every other entry kept |
| PatientStore.Store.UpdatePatient | backend/app.py:60-69 | 200 and the list is `ReplaceFirstId`, or 404 and the list is unchanged; app.py:50-58 is the same loop |
| PatientStore.Store.constructor | backend/app.py:49 | the store holds the patient list it was loaded with |
| PatientStore.RemoveValue | backend/app.py:140 | `list.remove` of a value on the list leaves one element fewer |
| PatientStore.RemoveValueAt | backend/app.py:140 | removing by value an element that no earlier element equals removes exactly its position, keeping the rest in order |
| PatientStore.RemoveFirstMatch | backend/app.py:133-140 | removing the found patient by value removes exactly the position of the first id match |
| PatientStore.DeleteFirstId | backend/app.py:132-144 | none when the id is absent; otherwise the list without the first match, others in order, one shorter |
| PatientStore.DeleteKeepsOthers | backend/app.py:132-144 | every patient with a different id survives a deletion |
| PatientStore.Store.DeletePatient | backend/app.py:127-144 | 200 and the list is `DeleteFirstId`, or 404 and the list is unchanged; app.py:116-132 is the same code without persistence |
| PatientStore.MaxId | backend/app.py:105 | the largest id on a non-empty list, and an id on the list |
| PatientStore.NextId | backend/app.py:104-107 | larger than and different from every id on the list; 1 on an empty list; otherwise one more than an existing id |
| PatientStore.NewPatient | backend/app.py:110-118 | the new record carries the id, name and age and empty notes, problems, labs and medications |
| PatientStore.AddOutcomeOf | backend/app.py:98-125 | refused with 400 exactly when the name is falsy or the age missing; otherwise the new patient with a fresh id is appended at the end |
| PatientStore.Store.AddPatient | backend/app.py:91-125 | 400 with no change, or 201 with the created record, and the list is `AddOutcomeOf` |
| PatientStore.AddOutcomeUnguarded | app.py:89-110 | 400 for a bad request before anything else; 500 on an empty list; otherwise the same as `AddOutcomeOf` |
| PatientStore.Store.AddPatientUnguarded | app.py:83-113 | 400 or 500 with no change, or 201 with the created record, as `AddOutcomeUnguarded` says |
| PatientStore.AddVersionsDiffer | app.py:96 | the two versions disagree exactly on an empty list with an acceptable request, where the newer one creates patient 1 |

## Left out

- HTTP transport (`fetch`, Flask routing, `jsonify`, `request.json`). Each call is an input that succeeds with an answer or fails. A non-JSON or error body that `response.json()` would still parse on detection is not modelled.
- File input and output (`load_data`, `save_data`, the knowledge-base reads). This is I/O, and persistence does not change the in-memory list.
- The regular expression and its `\b` word boundaries (backend/app.py:35-36, 79). Detection starts from the matched variation strings. `re.escape` is left out of the variation list.
- The clock (`toISOString`, `toLocaleString`). It is the `Clock` parameter.
- The password gate, JSX rendering, `alert`/`prompt`/`confirm`, `console.log`, `isLoading` and `activeTab`. These are UI with no bearing on the modelled state.
- `handleAddNewPatient` and `handleDeletePatient`. They are outside the modelled core, being prompt-driven UI around the back-end routes.
- The `LabView` comparator sort (frontend/src/App.js:26-34). It compares arbitrary JavaScript values of mixed types with `<` and `>`. Only `requestSort` is modelled.
- Async interleaving. The model treats each handler as running to completion, with the state current at the event; the code has no guard against stale responses.
- Text.Trim: its own contract states only that the ends are not white space. That the result is the slice between the leading and trailing white space is stated by `Text.TrimIsSlice`.
- Search.Matching: its own contract states membership and order. How often each entry is kept is stated by `Search.MatchingCount`.
- Grouping.InCategory: its own contract states membership only. Order is stated by `Grouping.InCategoryInOrder` and multiplicity by `Grouping.InCategoryCount`.
- Commit.WithoutNote: its own contract states membership and order. How often each note is kept is stated by `Commit.WithoutNoteCount`.
- Seqs.Without: its own contract states membership and order. How often each element is kept is stated by `Seqs.WithoutCount`.
- PatientStore.RemoveValue: its own contract states only the length. Which element goes is stated by `PatientStore.RemoveValueAt`.
- Grouping.GroupProblems: a category named like a property of `Object.prototype` ("constructor", "toString", "valueOf", "__proto__") finds an inherited value in the `{}` accumulator, so the list is never created and the `push` throws during rendering. The model groups such a candidate like any other.
- Chart.SearchKeyDown: its own contract states only invariant preservation. The per-key behaviour is in the lemmas beside it.
- Search.SearchResults: its own contract states only the blank case and the cap. What the results are is stated in `Search.SearchResultsSpec`.
- Text.Lower: lower-cases ASCII letters only. JavaScript `toLowerCase` and Python `str.lower` also lower-case other scripts.
- Category keys that look like integers. `Object.keys` lists those first in numeric order; the model keeps insertion order for every key.
- A knowledge-base item without `term`, `category` or `variations`. The back end's build raises `KeyError` on the missing field (backend/app.py:23-26), and the front end's search raises `TypeError` on a missing `variations` (frontend/src/App.js:172). The model gives every item all three fields.
- A record whose `problems` or `notes` field is missing. Every record has both, so the `|| []` and `Array.isArray` fallbacks coincide with the field.
- The name and age fields of a create request are taken as string and integer. A non-string but falsy name (0, false, an empty list) and the `int()` conversion of an age (which can raise) are not modelled.
- A picked search result is appended whole to the candidates in the code. The model keeps its term and category, the only fields read afterwards.
- The truthiness test of a found patient (backend/app.py:139). A found record is a non-empty dictionary, so the test is true exactly when a patient was found.
