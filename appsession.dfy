/** The `App` component as an object: its state hooks are fields, and each
    event handler is a method that updates them. Every method is proved to
    perform exactly one transition of `Chart` (named in its `ensures`), so
    whatever is proved there holds of the object. */
module AppSession {
  import opened Text
  import opened Seqs
  import opened Records
  import opened Search
  import opened Navigator
  import opened Commit
  import opened Chart

  class App {
    var patients: seq<Patient>
    var selectedPatient: Option<Patient>
    var noteText: string
    var detectedProblems: seq<Candidate>
    var selectedProblems: seq<string>
    var problemDatabase: seq<ProblemTerm>
    var searchQuery: string
    var searchResults: seq<ProblemTerm>
    var selectedSearchIndex: int

    /** The fields as one session value. */
    function State(): ChartState
      reads this
    {
      ChartState(patients, selectedPatient, noteText, detectedProblems, selectedProblems,
                 problemDatabase, searchQuery, searchResults, selectedSearchIndex)
    }

    /** The initial hook values. */
    constructor ()
      ensures State() == Initial && Valid(State())
    {
      patients := [];
      selectedPatient := None;
      noteText := "";
      detectedProblems := [];
      selectedProblems := [];
      problemDatabase := [];
      searchQuery := "";
      searchResults := [];
      selectedSearchIndex := -1;
    }

    /** The search effect: the results for the current query (none for a
        blank one, as `SearchResults` says), and nothing highlighted. */
    method RunSearchEffect()
      modifies this
      ensures State() == RunSearch(old(State()))
    {
      ghost var s0 := State();
      searchResults := SearchResults(problemDatabase, searchQuery);
      selectedSearchIndex := -1;
      assert State() == RunSearch(s0);
    }

    /** `setSearchQuery`, followed by the effect when the value changed. */
    method SetSearchQuery(q: string)
      modifies this
      ensures State() == EditSearch(old(State()), q)
    {
      if q != searchQuery {
        searchQuery := q;
        RunSearchEffect();
      }
    }

    method LoadPatients(data: seq<Patient>)
      modifies this
      ensures State() == Chart.LoadPatients(old(State()), data)
    {
      patients := data;
    }

    method LoadProblemDatabase(data: seq<ProblemTerm>)
      modifies this
      ensures State() == Chart.LoadProblemDatabase(old(State()), data)
    {
      problemDatabase := data;
      RunSearchEffect();
    }

    method PatientClick(patient: Patient)
      modifies this
      ensures State() == SelectPatient(old(State()), patient)
    {
      ghost var s0 := State();
      selectedPatient := Some(patient);
      noteText := "";
      detectedProblems := [];
      selectedProblems := [];
      assert State() == s0.(selectedPatient := Some(patient), noteText := "", detectedProblems := [], selectedProblems := []);
      SetSearchQuery("");
    }

    method NoteChange(text: string)
      modifies this
      ensures State() == EditNote(old(State()), text)
    {
      noteText := text;
    }

    method DetectProblems(response: DetectResponse)
      modifies this
      ensures State() == Chart.DetectProblems(old(State()), response)
    {
      ghost var s0 := State();
      if noteText == "" {
        return;
      }
      detectedProblems := [];
      selectedProblems := [];
      ghost var s1 := State();
      assert s1 == s0.(detectedProblems := [], selectedProblems := []);
      SetSearchQuery("");
      assert State() == EditSearch(s1, "");
      if response.Detected? {
        detectedProblems := response.problems;
      }
    }

    method ProblemClick(term: string)
      modifies this
      ensures State() == ToggleProblem(old(State()), term)
    {
      if term in selectedProblems {
        selectedProblems := Without(selectedProblems, term);
      } else {
        selectedProblems := selectedProblems + [term];
      }
    }

    /** The echoed patient replaces the list entry of its id and the
        selected patient. */
    method ApplySaved(saved: Patient)
      modifies this
      ensures State() == AfterSave(old(State()), saved)
    {
      patients := ReplaceById(patients, saved);
      selectedPatient := Some(saved);
    }

    /** The note text, candidates and selection cleared after a commit. */
    method ClearCommitted()
      modifies this
      ensures State() == old(State()).(noteText := "", detectedProblems := [], selectedProblems := [])
    {
      noteText := "";
      detectedProblems := [];
      selectedProblems := [];
    }

    /** `handleAddProblems`; `sent` is the update posted to the service, if any. */
    method AddProblems(clock: Clock, response: SaveResponse) returns (sent: Option<Patient>)
      modifies this
      ensures sent == CommitRequest(old(State()), clock)
      ensures State() == Chart.AddProblems(old(State()), clock, response)
    {
      ghost var s0 := State();
      AddProblemsOutcomes(s0, clock, response);
      sent := CommitRequest(State(), clock);
      if selectedPatient.None? {
        return;
      }
      if sent.None? {
        detectedProblems := [];
        selectedProblems := [];
        return;
      }
      if response.SaveFailed? {
        return;
      }
      ApplySaved(response.patient);
      ClearCommitted();
    }

    method DeleteProblem(problem: string, response: SaveResponse) returns (sent: Option<Patient>)
      modifies this
      ensures sent == DeleteProblemRequest(old(State()), problem)
      ensures State() == AfterEdit(old(State()), response)
    {
      if selectedPatient.None? {
        return None;
      }
      var p := selectedPatient.value;
      sent := Some(p.(problems := Without(p.problems, problem)));
      if response.Saved? {
        ApplySaved(response.patient);
      }
    }

    method DeleteNote(noteId: string, response: SaveResponse) returns (sent: Option<Patient>)
      modifies this
      ensures sent == DeleteNoteRequest(old(State()), noteId)
      ensures State() == AfterEdit(old(State()), response)
    {
      if selectedPatient.None? {
        return None;
      }
      var p := selectedPatient.value;
      sent := Some(p.(notes := WithoutNote(p.notes, noteId)));
      if response.Saved? {
        ApplySaved(response.patient);
      }
    }

    /** Appends a candidate, selects its term and empties the search box. */
    method AddAndSelect(c: Candidate)
      modifies this
      ensures State() == Chart.AddAndSelect(old(State()), c)
    {
      detectedProblems := detectedProblems + [c];
      selectedProblems := SetAdd(selectedProblems, c.term);
      searchQuery := "";
      searchResults := [];
      selectedSearchIndex := -1;
    }

    method SearchResultClick(problem: ProblemTerm)
      modifies this
      ensures State() == PickSearchResult(old(State()), problem)
    {
      AddAndSelect(CandidateOf(problem));
    }

    method AddCustomProblem()
      modifies this
      ensures State() == Chart.AddCustomProblem(old(State()))
    {
      var trimmed := Trim(searchQuery);
      if trimmed == [] {
        return;
      }
      AddAndSelect(Candidate(trimmed, "Custom"));
    }

    /** `handleSearchKeyDown`; `prevented` tells whether `preventDefault` was called. */
    method SearchKeyDown(key: string) returns (prevented: bool)
      modifies this
      ensures prevented == PreventsDefault(key, old(searchResults))
      ensures State() == Chart.SearchKeyDown(old(State()), key)
    {
      prevented := false;
      if searchResults == [] {
        if key == "Enter" {
          AddCustomProblem();
        }
        return;
      }
      if key == "ArrowDown" {
        prevented := true;
        selectedSearchIndex := ArrowDownIndex(selectedSearchIndex, |searchResults|);
      } else if key == "ArrowUp" {
        prevented := true;
        selectedSearchIndex := ArrowUpIndex(selectedSearchIndex, |searchResults|);
      } else if key == "Enter" {
        prevented := true;
        if 0 <= selectedSearchIndex < |searchResults| {
          SearchResultClick(searchResults[selectedSearchIndex]);
        } else {
          AddCustomProblem();
        }
      } else if key == "Escape" {
        searchQuery := "";
        searchResults := [];
        selectedSearchIndex := -1;
      }
    }

    method SaveNote(clock: Clock, response: SaveResponse) returns (sent: Option<Patient>)
      modifies this
      ensures sent == SaveNoteRequest(old(State()), clock)
      ensures State() == Chart.SaveNote(old(State()), clock, response)
    {
      ghost var s0 := State();
      if selectedPatient.None? {
        return None;
      }
      sent := NoteOnlyPayload(selectedPatient.value, noteText, clock);
      assert sent == SaveNoteRequest(s0, clock);
      if sent.None? {
        return;
      }
      if response.Saved? {
        ApplySaved(response.patient);
        noteText := "";
        assert State() == AfterSave(s0, response.patient).(noteText := "");
      }
    }
  }
}
