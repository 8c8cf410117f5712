/** The charting session of the front end as a state machine: one value per
    moment, and one transition per event handler. The class in
    `AppSession` performs these transitions field by field. */
module Chart {
  import opened Text
  import opened Seqs
  import opened Records
  import opened Search
  import opened Navigator
  import opened Commit

  /** The state the `App` component keeps. `selectedProblems` is a
      JavaScript `Set`, which iterates in insertion order: a sequence without
      duplicates. */
  datatype ChartState = ChartState(
    patients: seq<Patient>,
    selectedPatient: Option<Patient>,
    noteText: string,
    detectedProblems: seq<Candidate>,
    selectedProblems: seq<string>,
    problemDatabase: seq<ProblemTerm>,
    searchQuery: string,
    searchResults: seq<ProblemTerm>,
    selectedSearchIndex: int)

  /** The state before anything has loaded. */
  const Initial := ChartState([], None, "", [], [], [], "", [], -1)

  /** The session invariant: the selection has no duplicates, the shown
      results are those of the current query over the current knowledge base,
      and the highlight is -1 or points at a shown result. */
  predicate Valid(s: ChartState)
  {
    && NoDup(s.selectedProblems)
    && s.searchResults == SearchResults(s.problemDatabase, s.searchQuery)
    && -1 <= s.selectedSearchIndex < |s.searchResults|
  }

  /** Every selected term is the term of a current candidate. */
  predicate SelectionCovered(s: ChartState)
  {
    forall t :: t in s.selectedProblems ==> t in Terms(s.detectedProblems)
  }

  /** `Set.prototype.add`: the term becomes a member; a member already present keeps its place. */
  function SetAdd(selected: seq<string>, t: string): (r: seq<string>)
    ensures forall u :: u in r <==> u in selected || u == t
    ensures t in selected ==> r == selected
    ensures t !in selected ==> r == selected + [t]
    ensures NoDup(selected) ==> NoDup(r)
  {
    if t in selected then selected else selected + [t]
  }

  /** `handleProblemClick`'s update: delete the term when present, keeping
      the others in their order; add it at the end otherwise. */
  function SetToggle(selected: seq<string>, t: string): (r: seq<string>)
    ensures t in r <==> t !in selected
    ensures forall u :: u != t ==> (u in r <==> u in selected)
    ensures t !in selected ==> r == selected + [t]
    ensures t in selected ==> r == Without(selected, t) && IsSubseq(r, selected)
    ensures NoDup(selected) ==> NoDup(r)
  {
    if t in selected then Without(selected, t) else selected + [t]
  }

  /** The search box emptied: no query, no results, no highlight. */
  function ClearSearch(s: ChartState): (r: ChartState)
    ensures Valid(s) ==> Valid(r)
    ensures r.searchQuery == "" && r.searchResults == [] && r.selectedSearchIndex == -1
    ensures r.(searchQuery := s.searchQuery, searchResults := s.searchResults,
               selectedSearchIndex := s.selectedSearchIndex) == s
  {
    s.(searchQuery := "", searchResults := [], selectedSearchIndex := -1)
  }

  /** The search effect: the results for the current query and knowledge
      base (none for a blank query), with nothing highlighted; nothing else
      changes. */
  function RunSearch(s: ChartState): (r: ChartState)
    ensures NoDup(s.selectedProblems) ==> Valid(r)
    ensures r.searchResults == SearchResults(s.problemDatabase, s.searchQuery) && r.selectedSearchIndex == -1
    ensures r.(searchResults := s.searchResults, selectedSearchIndex := s.selectedSearchIndex) == s
  {
    s.(searchResults := SearchResults(s.problemDatabase, s.searchQuery), selectedSearchIndex := -1)
  }

  /** A new query typed into the search box (`setSearchQuery`) and the search
      effect it triggers. The effect depends on the query by value: setting
      the same query again does not re-run it. */
  function EditSearch(s: ChartState, q: string): (r: ChartState)
    ensures Valid(s) ==> Valid(r)
    ensures r.searchQuery == q
    ensures q == s.searchQuery ==> r == s
    ensures q != s.searchQuery ==>
              r.searchResults == SearchResults(s.problemDatabase, q) && r.selectedSearchIndex == -1
    ensures r.(searchQuery := s.searchQuery, searchResults := s.searchResults,
               selectedSearchIndex := s.selectedSearchIndex) == s
  {
    if q == s.searchQuery then s else RunSearch(s.(searchQuery := q))
  }

  /** Under the invariant, setting the query to "" empties the search box. */
  lemma EditSearchEmptyClears(s: ChartState)
    requires Valid(s)
    ensures EditSearch(s, "") == ClearSearch(s)
  {
  }

  /** The problem knowledge base arrives: the search effect re-runs on the
      current query (a fresh array always differs from the previous one). */
  function LoadProblemDatabase(s: ChartState, db: seq<ProblemTerm>): (r: ChartState)
    ensures Valid(s) ==> Valid(r)
    ensures r.problemDatabase == db && r.selectedSearchIndex == -1
    ensures r.searchResults == SearchResults(db, s.searchQuery)
    ensures r.(problemDatabase := s.problemDatabase, searchResults := s.searchResults,
               selectedSearchIndex := s.selectedSearchIndex) == s
  {
    RunSearch(s.(problemDatabase := db))
  }

  /** The patient list arrives from the service. */
  function LoadPatients(s: ChartState, patients: seq<Patient>): (r: ChartState)
    ensures Valid(s) ==> Valid(r)
    ensures r.patients == patients && r.(patients := s.patients) == s
  {
    s.(patients := patients)
  }

  /** `handleNoteChange`: the note text follows the text area; nothing else changes. */
  function EditNote(s: ChartState, text: string): (r: ChartState)
    ensures Valid(s) ==> Valid(r)
    ensures SelectionCovered(s) ==> SelectionCovered(r)
    ensures r.noteText == text && r.(noteText := s.noteText) == s
  {
    s.(noteText := text)
  }

  /** `handlePatientClick`: the patient becomes the selected one and the
      session starts afresh: no note text, no candidates, no selection, an
      empty search box. */
  function SelectPatient(s: ChartState, p: Patient): (r: ChartState)
    ensures Valid(s) ==> Valid(r) && r.searchResults == [] && r.selectedSearchIndex == -1
    ensures r.selectedPatient == Some(p) && r.noteText == "" && r.searchQuery == ""
    ensures r.detectedProblems == [] && r.selectedProblems == [] && SelectionCovered(r)
    ensures r.patients == s.patients && r.problemDatabase == s.problemDatabase
  {
    EditSearch(s.(selectedPatient := Some(p), noteText := "", detectedProblems := [], selectedProblems := []), "")
  }

  /** What the detection service answered: its candidates, or a failure. */
  datatype DetectResponse = Detected(problems: seq<Candidate>) | DetectFailed

  /** `handleDetectProblems`: nothing when the note text is empty; otherwise
      the candidates, the selection and the search box are cleared and the
      candidates become the service's answer, or stay empty if it failed. */
  function DetectProblems(s: ChartState, response: DetectResponse): (r: ChartState)
    ensures Valid(s) ==> Valid(r)
    ensures s.noteText == "" ==> r == s
    ensures s.noteText != "" ==>
              && r.selectedProblems == [] && r.searchQuery == ""
              && r.detectedProblems == (if response.Detected? then response.problems else [])
              && r.noteText == s.noteText && r.selectedPatient == s.selectedPatient && r.patients == s.patients
              && r.problemDatabase == s.problemDatabase
              && r.searchResults == (if s.searchQuery == "" then s.searchResults else [])
              && r.selectedSearchIndex == (if s.searchQuery == "" then s.selectedSearchIndex else -1)
    ensures SelectionCovered(s) ==> SelectionCovered(r)
  {
    if s.noteText == "" then s
    else
      var cleared := EditSearch(s.(detectedProblems := [], selectedProblems := []), "");
      match response
      case Detected(problems) => cleared.(detectedProblems := problems)
      case DetectFailed => cleared
  }

  /** `handleProblemClick`: flips one term's membership in the selection and
      nothing else. */
  function ToggleProblem(s: ChartState, term: string): (r: ChartState)
    ensures Valid(s) ==> Valid(r)
    ensures term in r.selectedProblems <==> term !in s.selectedProblems
    ensures forall u :: u != term ==> (u in r.selectedProblems <==> u in s.selectedProblems)
    ensures term !in s.selectedProblems ==> r.selectedProblems == s.selectedProblems + [term]
    ensures term in s.selectedProblems ==>
              r.selectedProblems == Without(s.selectedProblems, term) && IsSubseq(r.selectedProblems, s.selectedProblems)
    ensures r.(selectedProblems := s.selectedProblems) == s
    ensures SelectionCovered(s) && term in Terms(s.detectedProblems) ==> SelectionCovered(r)
  {
    s.(selectedProblems := SetToggle(s.selectedProblems, term))
  }

  /** Toggling a term twice restores the selection's membership and never
      touches the candidates; when the term was not selected, the selection
      comes back exactly. */
  lemma ToggleTwiceRestoresMembership(s: ChartState, term: string)
    ensures var r := ToggleProblem(ToggleProblem(s, term), term);
            && (forall u :: u in r.selectedProblems <==> u in s.selectedProblems)
            && r.detectedProblems == s.detectedProblems
            && (term !in s.selectedProblems ==> r == s)
  {
    var once := ToggleProblem(s, term);
    var r := ToggleProblem(once, term);
    if term !in s.selectedProblems {
      assert once.selectedProblems == s.selectedProblems + [term];
      WithoutLast(s.selectedProblems, term);
    }
  }

  lemma {:induction false} WithoutLast(xs: seq<string>, t: string)
    requires t !in xs
    ensures Without(xs + [t], t) == xs
  {
    if xs != [] {
      assert (xs + [t])[1..] == xs[1..] + [t];
      WithoutLast(xs[1..], t);
    }
  }

  /** The order a selected term had is not restored: it moves to the end. */
  lemma ToggleTwiceMovesToEnd()
    ensures SetToggle(SetToggle(["a", "b"], "a"), "a") == ["b", "a"]
  {
    assert Without(["a", "b"], "a") == ["b"] by {
      assert ["a", "b"][1..] == ["b"];
      assert ["b"][1..] == [];
    }
  }

  /** A candidate appended and its term selected, with the search box emptied. */
  function AddAndSelect(s: ChartState, c: Candidate): (r: ChartState)
    ensures Valid(s) ==> Valid(r)
    ensures r.detectedProblems == s.detectedProblems + [c]
    ensures forall u :: u in r.selectedProblems <==> u in s.selectedProblems || u == c.term
    ensures c.term !in s.selectedProblems ==> r.selectedProblems == s.selectedProblems + [c.term]
    ensures c.term in s.selectedProblems ==> r.selectedProblems == s.selectedProblems
    ensures r.searchQuery == "" && r.searchResults == [] && r.selectedSearchIndex == -1
    ensures r.(detectedProblems := s.detectedProblems, selectedProblems := s.selectedProblems,
               searchQuery := s.searchQuery, searchResults := s.searchResults,
               selectedSearchIndex := s.selectedSearchIndex) == s
    ensures SelectionCovered(s) ==> SelectionCovered(r)
  {
    TermsSnoc(s.detectedProblems, c);
    ClearSearch(s.(detectedProblems := s.detectedProblems + [c],
                   selectedProblems := SetAdd(s.selectedProblems, c.term)))
  }

  /** `handleSearchResultClick`: the picked term's candidate is appended and
      selected, and the search box is emptied. */
  function PickSearchResult(s: ChartState, problem: ProblemTerm): (r: ChartState)
    ensures Valid(s) ==> Valid(r)
    ensures r.detectedProblems == s.detectedProblems + [CandidateOf(problem)]
    ensures forall u :: u in r.selectedProblems <==> u in s.selectedProblems || u == problem.term
    ensures problem.term !in s.selectedProblems ==> r.selectedProblems == s.selectedProblems + [problem.term]
    ensures problem.term in s.selectedProblems ==> r.selectedProblems == s.selectedProblems
    ensures r.searchQuery == "" && r.searchResults == [] && r.selectedSearchIndex == -1
    ensures r.(detectedProblems := s.detectedProblems, selectedProblems := s.selectedProblems,
               searchQuery := s.searchQuery, searchResults := s.searchResults,
               selectedSearchIndex := s.selectedSearchIndex) == s
    ensures SelectionCovered(s) ==> SelectionCovered(r)
  {
    AddAndSelect(s, CandidateOf(problem))
  }

  /** `handleAddCustomProblem`: nothing when the trimmed query is empty;
      otherwise a candidate of category "Custom" named by the trimmed query is
      appended and selected, and the search box is emptied. */
  function AddCustomProblem(s: ChartState): (r: ChartState)
    ensures Valid(s) ==> Valid(r)
    ensures Trim(s.searchQuery) == [] ==> r == s
    ensures Trim(s.searchQuery) != [] ==>
              && r.detectedProblems == s.detectedProblems + [Candidate(Trim(s.searchQuery), "Custom")]
              && (forall u :: u in r.selectedProblems <==> u in s.selectedProblems || u == Trim(s.searchQuery))
              && (Trim(s.searchQuery) !in s.selectedProblems ==>
                    r.selectedProblems == s.selectedProblems + [Trim(s.searchQuery)])
              && (Trim(s.searchQuery) in s.selectedProblems ==> r.selectedProblems == s.selectedProblems)
              && r.searchQuery == "" && r.searchResults == [] && r.selectedSearchIndex == -1
              && r.(detectedProblems := s.detectedProblems, selectedProblems := s.selectedProblems,
                    searchQuery := s.searchQuery, searchResults := s.searchResults,
                    selectedSearchIndex := s.selectedSearchIndex) == s
    ensures SelectionCovered(s) ==> SelectionCovered(r)
  {
    var trimmed := Trim(s.searchQuery);
    if trimmed == [] then s else AddAndSelect(s, Candidate(trimmed, "Custom"))
  }

  /** `handleSearchKeyDown`, following the navigator's decision. */
  function SearchKeyDown(s: ChartState, key: string): (r: ChartState)
    ensures Valid(s) ==> Valid(r)
    ensures SelectionCovered(s) ==> SelectionCovered(r)
  {
    match KeyEffectOf(key, s.searchResults, s.selectedSearchIndex)
    case MoveHighlight(i) => s.(selectedSearchIndex := i)
    case PickResult(problem) => PickSearchResult(s, problem)
    case AddCustom => AddCustomProblem(s)
    case ClearSearch => ClearSearch(s)
    case Ignore => s
  }

  /** With results shown, the arrow keys move only the highlight, with
      wrap-around, and it lands on a shown result. */
  lemma ArrowKeysMoveHighlight(s: ChartState, key: string)
    requires -1 <= s.selectedSearchIndex < |s.searchResults| && s.searchResults != []
    requires key == "ArrowDown" || key == "ArrowUp"
    ensures var r := SearchKeyDown(s, key);
            && r == s.(selectedSearchIndex := r.selectedSearchIndex)
            && 0 <= r.selectedSearchIndex < |s.searchResults|
            && r.selectedSearchIndex == (if key == "ArrowDown"
                                         then ArrowDownIndex(s.selectedSearchIndex, |s.searchResults|)
                                         else ArrowUpIndex(s.selectedSearchIndex, |s.searchResults|))
  {
  }

  /** Enter on a highlighted result commits that result. */
  lemma EnterCommitsHighlighted(s: ChartState)
    requires 0 <= s.selectedSearchIndex < |s.searchResults|
    ensures SearchKeyDown(s, "Enter") == PickSearchResult(s, s.searchResults[s.selectedSearchIndex])
  {
  }

  /** Enter with no result highlighted, or with no results at all, takes the
      custom-add path. */
  lemma EnterFallsBackToCustom(s: ChartState)
    requires !(0 <= s.selectedSearchIndex < |s.searchResults|)
    ensures SearchKeyDown(s, "Enter") == AddCustomProblem(s)
  {
  }

  /** With no results shown the handler returns before looking at the key,
      so the arrow keys change nothing. */
  lemma ArrowsWithoutResults(s: ChartState, key: string)
    requires s.searchResults == [] && (key == "ArrowDown" || key == "ArrowUp")
    ensures SearchKeyDown(s, key) == s
  {
  }

  /** Escape empties the search box and keeps candidates and selection; with
      no results shown the handler returns before looking at the key, so
      Escape then changes nothing. Every other key changes nothing. */
  lemma EscapeAndOtherKeys(s: ChartState, key: string)
    ensures s.searchResults != [] ==> SearchKeyDown(s, "Escape") == ClearSearch(s)
    ensures s.searchResults == [] ==> SearchKeyDown(s, "Escape") == s
    ensures key != "ArrowDown" && key != "ArrowUp" && key != "Enter" && key != "Escape" ==>
              SearchKeyDown(s, key) == s
  {
  }

  /** The state after a sequence of key presses. */
  function PressKeys(s: ChartState, keys: seq<string>): ChartState
    decreases |keys|
  {
    if keys == [] then s else PressKeys(SearchKeyDown(s, keys[0]), keys[1..])
  }

  /** Arrow keys alone change only the highlight; so Escape after any number
      of them returns the search box to its empty state with candidates and
      selection untouched. */
  lemma {:induction false} EscapeAfterArrows(s: ChartState, keys: seq<string>)
    requires -1 <= s.selectedSearchIndex < |s.searchResults| && s.searchResults != []
    requires forall i :: 0 <= i < |keys| ==> keys[i] == "ArrowDown" || keys[i] == "ArrowUp"
    ensures PressKeys(s, keys) == s.(selectedSearchIndex := PressKeys(s, keys).selectedSearchIndex)
    ensures -1 <= PressKeys(s, keys).selectedSearchIndex < |s.searchResults|
    ensures SearchKeyDown(PressKeys(s, keys), "Escape") == ClearSearch(s)
    decreases |keys|
  {
    if keys == [] {
      EscapeAndOtherKeys(s, "Escape");
    } else {
      var s1 := SearchKeyDown(s, keys[0]);
      ArrowKeysMoveHighlight(s, keys[0]);
      assert PressKeys(s, keys) == PressKeys(s1, keys[1..]);
      EscapeAfterArrows(s1, keys[1..]);
    }
  }

  /** Over results [X, Y, Z] with nothing highlighted, ArrowDown, ArrowDown,
      Enter commits Y. */
  lemma DownDownEnterCommitsSecond(s: ChartState, x: ProblemTerm, y: ProblemTerm, z: ProblemTerm)
    requires s.searchResults == [x, y, z] && s.selectedSearchIndex == -1
    ensures PressKeys(s, ["ArrowDown", "ArrowDown", "Enter"]) == PickSearchResult(s, y)
  {
    ArrowKeysMoveHighlight(s, "ArrowDown");
    var s1 := SearchKeyDown(s, "ArrowDown");
    assert s1 == s.(selectedSearchIndex := 0);
    ArrowKeysMoveHighlight(s1, "ArrowDown");
    var s2 := SearchKeyDown(s1, "ArrowDown");
    assert s2 == s.(selectedSearchIndex := 1);
    EnterCommitsHighlighted(s2);
    assert PickSearchResult(s2, y) == PickSearchResult(s, y);
    var keys := ["ArrowDown", "ArrowDown", "Enter"];
    assert keys[1..] == ["ArrowDown", "Enter"] && keys[1..][1..] == ["Enter"] && keys[1..][1..][1..] == [];
    assert PressKeys(s2, ["Enter"]) == PressKeys(SearchKeyDown(s2, "Enter"), []);
    assert PressKeys(s1, ["ArrowDown", "Enter"]) == PressKeys(s2, ["Enter"]);
  }

  /** Enter with no results and the query "Headache" adds the one custom
      candidate {term: "Headache", category: "Custom"}. */
  lemma EnterAddsHeadache(s: ChartState)
    requires s.searchResults == [] && s.searchQuery == "Headache"
    ensures SearchKeyDown(s, "Enter").detectedProblems == s.detectedProblems + [Candidate("Headache", "Custom")]
  {
    assert KeyEffectOf("Enter", s.searchResults, s.selectedSearchIndex) == AddCustom;
    assert Trim("Headache") == "Headache" by {
      assert !IsWhitespace('H') && !IsWhitespace('e');
      assert TrimStart("Headache") == "Headache";
    }
    assert SearchKeyDown(s, "Enter") == AddCustomProblem(s);
  }

  /** A patient record refreshed from the service's echo. */
  function AfterSave(s: ChartState, saved: Patient): (r: ChartState)
    ensures Valid(s) ==> Valid(r)
    ensures r.selectedPatient == Some(saved) && r.patients == ReplaceById(s.patients, saved)
    ensures r.(patients := s.patients, selectedPatient := s.selectedPatient) == s
  {
    s.(patients := ReplaceById(s.patients, saved), selectedPatient := Some(saved))
  }

  /** The update the commit button sends, if any (`None` also when no patient
      is selected, where the handler fails before sending). */
  function CommitRequest(s: ChartState, clock: Clock): (r: Option<Patient>)
    ensures s.selectedPatient.None? ==> r.None?
    ensures s.selectedPatient.Some? ==>
              (r.None? <==> PlanCommit(s.selectedPatient.value, s.selectedProblems, s.noteText, clock).NothingToSave?)
    ensures r.Some? ==> PlanCommit(s.selectedPatient.value, s.selectedProblems, s.noteText, clock) == SaveUpdate(r.value)
  {
    match s.selectedPatient
    case None => None
    case Some(p) =>
      match PlanCommit(p, s.selectedProblems, s.noteText, clock)
      case NothingToSave => None
      case SaveUpdate(payload) => Some(payload)
  }

  /** `handleAddProblems`. Without a selected patient nothing changes. With
      nothing to persist only the candidates and the selection are cleared.
      Otherwise the update is sent; if saving fails nothing changes, and if it
      succeeds the echoed patient replaces the local copies and the note text,
      candidates and selection are cleared. */
  function AddProblems(s: ChartState, clock: Clock, response: SaveResponse): (r: ChartState)
    ensures Valid(s) ==> Valid(r)
    ensures SelectionCovered(s) ==> SelectionCovered(r)
  {
    match s.selectedPatient
    case None => s
    case Some(p) =>
      match PlanCommit(p, s.selectedProblems, s.noteText, clock)
      case NothingToSave => s.(detectedProblems := [], selectedProblems := [])
      case SaveUpdate(_) =>
        match response
        case SaveFailed => s
        case Saved(saved) => AfterSave(s, saved).(noteText := "", detectedProblems := [], selectedProblems := [])
  }

  /** The outcomes of a commit, by the update sent (`CommitRequest`) and
      what came back. */
  lemma AddProblemsOutcomes(s: ChartState, clock: Clock, response: SaveResponse)
    ensures var r := AddProblems(s, clock, response);
            && (s.selectedPatient.None? ==> r == s)
            && (s.selectedPatient.Some? && CommitRequest(s, clock).None? ==>
                  r == s.(detectedProblems := [], selectedProblems := []))
            && (CommitRequest(s, clock).Some? && response.SaveFailed? ==> r == s)
            && (CommitRequest(s, clock).Some? && response.Saved? ==>
                  r == AfterSave(s, response.patient).(noteText := "", detectedProblems := [], selectedProblems := []))
  {
  }

  /** When the service echoes what was sent, the selected patient's problems
      become its old problems followed by the newly selected terms, and every
      selected term is on the list. */
  lemma CommitPersistsNewTerms(s: ChartState, clock: Clock)
    requires s.selectedPatient.Some? && CommitRequest(s, clock).Some?
    ensures var p := s.selectedPatient.value;
            var r := AddProblems(s, clock, Saved(CommitRequest(s, clock).value));
            && r.selectedPatient.Some?
            && r.selectedPatient.value.problems == p.problems + NewProblemTerms(s.selectedProblems, p.problems)
            && (forall t :: t in s.selectedProblems ==> t in r.selectedPatient.value.problems)
            && r.detectedProblems == [] && r.selectedProblems == [] && r.noteText == ""
  {
    CommitCoversSelection(s.selectedPatient.value, s.selectedProblems, s.noteText, clock);
  }

  /** The update the problem deletion sends: the selected patient without
      every occurrence of that problem. */
  function DeleteProblemRequest(s: ChartState, problem: string): (r: Option<Patient>)
    ensures r.None? <==> s.selectedPatient.None?
    ensures r.Some? ==>
              && problem !in r.value.problems
              && r.value.problems == Without(s.selectedPatient.value.problems, problem)
              && r.value == s.selectedPatient.value.(problems := r.value.problems)
              && (forall u :: u != problem ==> (u in r.value.problems <==> u in s.selectedPatient.value.problems))
  {
    match s.selectedPatient
    case None => None
    case Some(p) => Some(p.(problems := Without(p.problems, problem)))
  }

  /** What `handleDeleteProblem` and `handleDeleteNote` do with the
      service's answer: on success the echoed patient replaces the local
      copies; without a patient or on failure nothing changes. */
  function AfterEdit(s: ChartState, response: SaveResponse): (r: ChartState)
    ensures Valid(s) ==> Valid(r)
    ensures s.selectedPatient.None? || response.SaveFailed? ==> r == s
    ensures s.selectedPatient.Some? && response.Saved? ==> r == AfterSave(s, response.patient)
  {
    if s.selectedPatient.None? then s
    else
      match response
      case SaveFailed => s
      case Saved(saved) => AfterSave(s, saved)
  }

  /** The update the note deletion sends: the selected patient without the
      notes of that identifier. */
  function DeleteNoteRequest(s: ChartState, noteId: string): (r: Option<Patient>)
    ensures r.None? <==> s.selectedPatient.None?
    ensures r.Some? ==>
              && (forall n :: n in r.value.notes ==> n.id != noteId)
              && r.value.notes == WithoutNote(s.selectedPatient.value.notes, noteId)
              && r.value == s.selectedPatient.value.(notes := r.value.notes)
  {
    match s.selectedPatient
    case None => None
    case Some(p) => Some(p.(notes := WithoutNote(p.notes, noteId)))
  }

  /** The update "Save Note Only" sends: none without a patient or with a
      blank note; otherwise the patient with the trimmed note appended. */
  function SaveNoteRequest(s: ChartState, clock: Clock): (r: Option<Patient>)
    ensures r.None? <==> s.selectedPatient.None? || IsBlank(s.noteText)
    ensures r.Some? ==> r.value == s.selectedPatient.value.(notes := s.selectedPatient.value.notes + [NewNote(Trim(s.noteText), clock)])
  {
    match s.selectedPatient
    case None => None
    case Some(p) => NoteOnlyPayload(p, s.noteText, clock)
  }

  /** `handleSaveNote`: on success the echoed patient replaces the local
      copies and the note text is cleared, candidates and selection are kept;
      otherwise nothing changes. */
  function SaveNote(s: ChartState, clock: Clock, response: SaveResponse): (r: ChartState)
    ensures Valid(s) ==> Valid(r)
    ensures SaveNoteRequest(s, clock).None? || response.SaveFailed? ==> r == s
    ensures SaveNoteRequest(s, clock).Some? && response.Saved? ==> r == AfterSave(s, response.patient).(noteText := "")
  {
    if SaveNoteRequest(s, clock).None? then s
    else
      match response
      case SaveFailed => s
      case Saved(saved) => AfterSave(s, saved).(noteText := "")
  }
}
