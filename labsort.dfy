/** The sort header of the lab results table: which column the rows are
    ordered by and in which direction. */
module LabSort {
  datatype Direction = Ascending | Descending

  datatype SortConfig = SortConfig(key: string, direction: Direction)

  /** The configuration the table opens with: newest date first. */
  const InitialSort := SortConfig("date", Descending)

  /** `requestSort`: clicking a column sorts by it; clicking the column
      already sorted ascending reverses it to descending, and every other
      click sorts ascending. */
  function NextSortConfig(config: SortConfig, key: string): (r: SortConfig)
    ensures r.key == key
    ensures r.direction == Descending <==> config.key == key && config.direction == Ascending
  {
    var direction :=
      if config.key == key && config.direction == Ascending then Descending
      else if config.key == key && config.direction == Descending then Ascending
      else Ascending;
    SortConfig(key, direction)
  }

  /** Clicking the same column again always flips its direction, so the
      third click restores the configuration of the first. */
  lemma ClickingTwiceFlips(config: SortConfig, key: string)
    ensures var once := NextSortConfig(config, key);
            var twice := NextSortConfig(once, key);
            && twice.key == key
            && twice.direction != once.direction
            && NextSortConfig(twice, key) == once
  {
  }

  /** A new column always starts ascending, whatever the old direction. */
  lemma NewColumnStartsAscending(config: SortConfig, key: string)
    requires config.key != key
    ensures NextSortConfig(config, key) == SortConfig(key, Ascending)
  {
  }

  /** From the initial configuration, the first click on "date" sorts oldest first. */
  lemma FirstDateClickAscends()
    ensures NextSortConfig(InitialSort, "date") == SortConfig("date", Ascending)
  {
  }

  /** The `LabView` component's sort state. */
  class LabView {
    var sortConfig: SortConfig

    constructor ()
      ensures sortConfig == InitialSort
    {
      sortConfig := InitialSort;
    }

    method RequestSort(key: string)
      modifies this
      ensures sortConfig == NextSortConfig(old(sortConfig), key)
    {
      var direction := Ascending;
      if sortConfig.key == key && sortConfig.direction == Ascending {
        direction := Descending;
      } else if sortConfig.key == key && sortConfig.direction == Descending {
        direction := Ascending;
      }
      sortConfig := SortConfig(key, direction);
    }
  }
}
