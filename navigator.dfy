/** The keyboard navigator of the search box: arrow keys move the highlight
    with wrap-around, Enter commits, Escape dismisses, all else is inert. */
module Navigator {
  import opened Records

  /** ArrowDown: the next index, wrapping from the last to the first; from
      "nothing highlighted" (-1) it goes to the first. */
  function ArrowDownIndex(index: int, count: nat): (r: int)
    requires count > 0
    ensures -1 <= index < count ==> 0 <= r < count
    ensures index == -1 ==> r == 0
    ensures 0 <= index < count ==> r == (index + 1) % count
  {
    if index < count - 1 then index + 1 else 0
  }

  /** ArrowUp: the previous index, wrapping from the first to the last; from
      "nothing highlighted" (-1) it also goes to the last. */
  function ArrowUpIndex(index: int, count: nat): (r: int)
    requires count > 0
    ensures -1 <= index < count ==> 0 <= r < count
    ensures index == -1 ==> r == count - 1
    ensures 0 <= index < count ==> r == (index - 1 + count) % count
  {
    if index > 0 then index - 1 else count - 1
  }

  /** On a highlighted entry, ArrowUp undoes ArrowDown and vice versa. */
  lemma ArrowsUndoEachOther(index: int, count: nat)
    requires 0 <= index < count
    ensures ArrowUpIndex(ArrowDownIndex(index, count), count) == index
    ensures ArrowDownIndex(ArrowUpIndex(index, count), count) == index
  {
  }

  /** The index after pressing ArrowDown `n` times. */
  function ArrowDownTimes(index: int, count: nat, n: nat): int
    requires count > 0
  {
    if n == 0 then index else ArrowDownIndex(ArrowDownTimes(index, count, n - 1), count)
  }

  /** From "nothing highlighted", `n + 1` presses of ArrowDown highlight
      entry `n`, for every entry. */
  lemma {:induction false} ArrowDownWalks(count: nat, n: nat)
    requires n < count
    ensures ArrowDownTimes(-1, count, n + 1) == n
  {
    if n > 0 {
      ArrowDownWalks(count, n - 1);
    }
  }

  /** One press past the last entry wraps back to the first. */
  lemma ArrowDownWrapsAround(count: nat)
    requires count > 0
    ensures ArrowDownTimes(-1, count, count + 1) == 0
  {
    ArrowDownWalks(count, count - 1);
  }

  /** What a key press does to the search state. */
  datatype KeyEffect =
    | MoveHighlight(index: int)
    | PickResult(problem: ProblemTerm)
    | AddCustom
    | ClearSearch
    | Ignore

  /** The decision of the key handler for `key`, given the shown results and
      the highlighted index. With no results only Enter does anything (the
      custom-add path); Escape then does nothing either. */
  function KeyEffectOf(key: string, results: seq<ProblemTerm>, index: int): (e: KeyEffect)
    ensures results == [] ==> e == (if key == "Enter" then AddCustom else Ignore)
    ensures e.PickResult? <==> key == "Enter" && 0 <= index < |results|
    ensures e.PickResult? ==> e.problem == results[index]
    ensures e.AddCustom? <==> key == "Enter" && !(0 <= index < |results|)
    ensures e.ClearSearch? <==> key == "Escape" && results != []
    ensures e.MoveHighlight? <==> results != [] && (key == "ArrowDown" || key == "ArrowUp")
    ensures e.MoveHighlight? && -1 <= index < |results| ==> 0 <= e.index < |results|
    ensures e.Ignore? <==>
              (key != "ArrowDown" && key != "ArrowUp" && key != "Enter" && key != "Escape") ||
              (results == [] && key != "Enter")
  {
    if results == [] then
      (if key == "Enter" then AddCustom else Ignore)
    else if key == "ArrowDown" then MoveHighlight(ArrowDownIndex(index, |results|))
    else if key == "ArrowUp" then MoveHighlight(ArrowUpIndex(index, |results|))
    else if key == "Enter" then
      (if 0 <= index < |results| then PickResult(results[index]) else AddCustom)
    else if key == "Escape" then ClearSearch
    else Ignore
  }

  /** The handler calls `preventDefault` for the arrow keys and Enter, and
      only while results are shown. */
  function PreventsDefault(key: string, results: seq<ProblemTerm>): bool
  {
    results != [] && (key == "ArrowDown" || key == "ArrowUp" || key == "Enter")
  }

  /** The default action is suppressed exactly when the key moved the
      highlight or committed while results were shown; Escape and ignored keys
      keep it. */
  lemma PreventsDefaultWhenConsumed(key: string, results: seq<ProblemTerm>, index: int)
    ensures PreventsDefault(key, results) <==>
              results != [] && !KeyEffectOf(key, results, index).ClearSearch? &&
              !KeyEffectOf(key, results, index).Ignore?
  {
  }
}
