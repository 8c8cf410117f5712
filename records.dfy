/** The records the front end and the back ends exchange: knowledge-base
    entries, problem candidates, notes and patients. */
module Records {

  datatype Option<+T> = None | Some(value: T)

  /** One knowledge-base entry of `problems_kb.json`. */
  datatype ProblemTerm = ProblemTerm(term: string, category: string, variations: seq<string>)

  /** A problem under consideration for the current note. The empty category
      stands for a missing or empty `category` field (both falsy). */
  datatype Candidate = Candidate(term: string, category: string)

  /** The terms of a sequence of candidates, in order. */
  function Terms(cs: seq<Candidate>): (ts: seq<string>)
    ensures |ts| == |cs| && forall i :: 0 <= i < |cs| ==> ts[i] == cs[i].term
  {
    seq(|cs|, i requires 0 <= i < |cs| => cs[i].term)
  }

  /** One more candidate adds its term at the end. */
  lemma TermsSnoc(cs: seq<Candidate>, c: Candidate)
    ensures Terms(cs + [c]) == Terms(cs) + [c.term]
  {
  }

  /** The candidate a picked search result becomes; its variations are never
      read again once it is a candidate. */
  function CandidateOf(p: ProblemTerm): (c: Candidate)
    ensures c.term == p.term && c.category == p.category
  {
    Candidate(p.term, p.category)
  }

  datatype Note = Note(id: string, timestamp: string, text: string)

  datatype Lab = Lab(name: string, value: string, units: string, date: string)

  datatype Medication = Medication(name: string, status: string)

  datatype Patient = Patient(
    id: int,
    name: string,
    age: int,
    notes: seq<Note>,
    problems: seq<string>,
    labs: seq<Lab>,
    medications: seq<Medication>)

  /** The two readings of `new Date()` a saved note carries: the identifier
      (`toISOString`) and the display timestamp (`toLocaleString`). */
  datatype Clock = Clock(iso: string, local: string)

  /** What the persistence service answered to a patient update: the saved
      patient it echoes, or a failure (network error or a non-OK status). */
  datatype SaveResponse = Saved(patient: Patient) | SaveFailed
}
