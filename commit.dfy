/** The payloads the front end sends to the persistence service: the commit
    plan of the "Add Selected Problem(s)" button, the note-only save, and
    the problem and note deletions; and the local patient-list refresh that
    follows a successful save. */
module Commit {
  import opened Text
  import opened Seqs
  import opened Records

  /** `Array.from(selectedProblems).filter(term => !currentProblems.includes(term))`:
      the selected terms the patient does not have yet, in selection order. */
  function NewProblemTerms(selected: seq<string>, current: seq<string>): (r: seq<string>)
    ensures forall t :: t in r <==> t in selected && t !in current
    ensures IsSubseq(r, selected)
    ensures NoDup(selected) ==> NoDup(r)
    ensures (forall t :: t in selected ==> t in current) ==> r == []
  {
    if selected == [] then []
    else if selected[0] in current then NewProblemTerms(selected[1..], current)
    else
      var rest := NewProblemTerms(selected[1..], current);
      assert NoDup(selected) ==> selected[0] !in selected[1..] && NoDup(selected[1..]);
      assert forall j :: 0 < j < |[selected[0]] + rest| ==> ([selected[0]] + rest)[j] == rest[j - 1];
      [selected[0]] + rest
  }

  /** The note a save appends: identified and stamped by the clock, holding the trimmed text. */
  function NewNote(text: string, clock: Clock): (n: Note)
    ensures n.text == text && n.id == clock.iso && n.timestamp == clock.local
  {
    Note(clock.iso, clock.local, text)
  }

  /** The outcome of the commit plan: nothing to persist, or the full patient to send. */
  datatype CommitPlan = NothingToSave | SaveUpdate(payload: Patient)

  /** The commit plan of `handleAddProblems`. There is nothing to persist exactly when no selected
      term is new and the trimmed note is empty. Otherwise the payload is the
      patient with the new terms appended to its problems, the trimmed note
      appended to its notes when it is not empty, and every other field kept. */
  function PlanCommit(p: Patient, selected: seq<string>, noteText: string, clock: Clock): (plan: CommitPlan)
    ensures plan.NothingToSave? <==> NewProblemTerms(selected, p.problems) == [] && Trim(noteText) == []
    ensures plan.SaveUpdate? ==>
              && plan.payload.problems == p.problems + NewProblemTerms(selected, p.problems)
              && plan.payload.notes == p.notes + (if Trim(noteText) == [] then [] else [NewNote(Trim(noteText), clock)])
              && plan.payload.(problems := p.problems, notes := p.notes) == p
  {
    var newTerms := NewProblemTerms(selected, p.problems);
    var trimmed := Trim(noteText);
    if newTerms == [] && trimmed == [] then NothingToSave
    else
      var notes := if trimmed != [] then p.notes + [NewNote(trimmed, clock)] else p.notes;
      SaveUpdate(p.(problems := p.problems + newTerms, notes := notes))
  }

  /** After a commit that saves, every selected term is on the problem list,
      the existing problems come first and unchanged, and a list without
      duplicates stays without duplicates. */
  lemma CommitCoversSelection(p: Patient, selected: seq<string>, noteText: string, clock: Clock)
    requires PlanCommit(p, selected, noteText, clock).SaveUpdate?
    ensures var q := PlanCommit(p, selected, noteText, clock).payload.problems;
            && q[..|p.problems|] == p.problems
            && (forall t :: t in selected ==> t in q)
            && (forall t :: t in q ==> t in p.problems || t in selected)
            && (NoDup(p.problems) && NoDup(selected) ==> NoDup(q))
  {
    var newTerms := NewProblemTerms(selected, p.problems);
    var q := p.problems + newTerms;
    assert q[..|p.problems|] == p.problems;
    if NoDup(p.problems) && NoDup(selected) {
      forall i, j | 0 <= i < j < |q| ensures q[i] != q[j] {
        if j >= |p.problems| {
          assert q[j] == newTerms[j - |p.problems|];
          if i >= |p.problems| {
            assert q[i] == newTerms[i - |p.problems|];
          } else {
            assert q[i] in p.problems;
          }
        }
      }
    }
  }

  /** Committing the same selection again, with no note, has nothing to persist. */
  lemma CommitIsIdempotent(p: Patient, selected: seq<string>, noteText: string, clock: Clock, clock': Clock)
    requires PlanCommit(p, selected, noteText, clock).SaveUpdate?
    ensures PlanCommit(PlanCommit(p, selected, noteText, clock).payload, selected, "", clock') == NothingToSave
  {
    var q := PlanCommit(p, selected, noteText, clock).payload;
    CommitCoversSelection(p, selected, noteText, clock);
    assert Trim("") == [];
  }

  /** For a patient whose problems are ["A"], committing the selection
      ["A", "B"] with an empty note saves the problems ["A", "B"] and no note. */
  lemma CommitExampleAppendsNewTerm(p: Patient, clock: Clock)
    requires p.problems == ["A"]
    ensures PlanCommit(p, ["A", "B"], "", clock) == SaveUpdate(p.(problems := ["A", "B"]))
  {
    assert NewProblemTerms(["A", "B"], ["A"]) == ["B"] by {
      assert ["A", "B"][1..] == ["B"];
      assert ["B"][1..] == [];
    }
  }

  /** For a patient with no problems, committing an empty selection with a
      note of three spaces has nothing to save. */
  lemma CommitExampleNothing(p: Patient, clock: Clock)
    requires p.problems == []
    ensures PlanCommit(p, [], "   ", clock) == NothingToSave
  {
    TrimEmptyIffBlank("   ");
  }

  /** The note-only save: nothing when the trimmed note is empty, otherwise
      the patient with that note appended and every other field kept. */
  function NoteOnlyPayload(p: Patient, noteText: string, clock: Clock): (r: Option<Patient>)
    ensures r.None? <==> IsBlank(noteText)
    ensures r.Some? ==> r.value == p.(notes := p.notes + [NewNote(Trim(noteText), clock)])
  {
    TrimEmptyIffBlank(noteText);
    var trimmed := Trim(noteText);
    if trimmed == [] then None else Some(p.(notes := p.notes + [NewNote(trimmed, clock)]))
  }

  /** `notes.filter(note => note.id !== noteId)`: no note with that identifier
      is left; every other note is kept, in order. */
  function WithoutNote(notes: seq<Note>, noteId: string): (r: seq<Note>)
    ensures forall n :: n in r ==> n in notes && n.id != noteId
    ensures forall n :: n in notes && n.id != noteId ==> n in r
    ensures IsSubseq(r, notes)
    ensures (forall n :: n in notes ==> n.id != noteId) ==> r == notes
  {
    if notes == [] then []
    else if notes[0].id == noteId then WithoutNote(notes[1..], noteId)
    else [notes[0]] + WithoutNote(notes[1..], noteId)
  }

  /** Each note of another identifier is kept as often as it occurs. */
  lemma {:induction false} WithoutNoteCount(notes: seq<Note>, noteId: string, n: Note)
    ensures multiset(WithoutNote(notes, noteId))[n] == if n.id == noteId then 0 else multiset(notes)[n]
  {
    if notes != [] {
      var rest := WithoutNote(notes[1..], noteId);
      WithoutNoteCount(notes[1..], noteId, n);
      assert multiset(notes)[n] == multiset([notes[0]])[n] + multiset(notes[1..])[n] by {
        assert notes == [notes[0]] + notes[1..];
      }
      if notes[0].id != noteId {
        assert WithoutNote(notes, noteId) == [notes[0]] + rest;
        assert multiset([notes[0]] + rest)[n] == multiset([notes[0]])[n] + multiset(rest)[n];
      }
    }
  }

  /** `patients.map(p => p.id === saved.id ? saved : p)`: the list keeps its
      length; every entry with the saved patient's id becomes the saved
      patient and every other entry stays. */
  function ReplaceById(patients: seq<Patient>, saved: Patient): (r: seq<Patient>)
    ensures |r| == |patients|
    ensures forall i :: 0 <= i < |r| ==> r[i] == (if patients[i].id == saved.id then saved else patients[i])
  {
    seq(|patients|, i requires 0 <= i < |patients| => if patients[i].id == saved.id then saved else patients[i])
  }

  /** Replacing keeps every position's id, so it can be repeated without
      effect, and does nothing when the id is not on the list. */
  lemma ReplaceByIdKeepsIds(patients: seq<Patient>, saved: Patient)
    ensures forall i :: 0 <= i < |patients| ==> ReplaceById(patients, saved)[i].id == patients[i].id
    ensures ReplaceById(ReplaceById(patients, saved), saved) == ReplaceById(patients, saved)
    ensures (forall i :: 0 <= i < |patients| ==> patients[i].id != saved.id) ==> ReplaceById(patients, saved) == patients
    ensures (exists i :: 0 <= i < |patients| && patients[i].id == saved.id) ==> saved in ReplaceById(patients, saved)
  {
  }
}
