/** The two record shapes of the upload pipeline and the date-only ordering
    of parsed rows. */
module Models {
  import opened Wrappers

  /** A calendar date as an ordered key (for instance a day number); only its
      order and equality matter to the pipeline. */
  type Date = int

  /** A raw data row as read from the file: a nullable row number and the two
      field texts, not yet parsed. */
  datatype CsvRecord = CsvRecord(id: Option<int>, beginDate: string, irr: string)

  /** A parsed row: its row number, its date, the period's return in percent
      (`irr`) and, once compounding has run, the cumulative percentage. */
  datatype PercentModel = PercentModel(id: Option<int>, beginDate: Date, irr: real, percent: Option<real>)
  {
    /** Three-way comparison on the date alone, a missing row counting as
        smaller than any row. */
    function CompareTo(other: Option<PercentModel>): (r: int)
      ensures r == -1 || r == 0 || r == 1
      ensures other.None? ==> r == 1
      ensures other.Some? ==> (r == 0 <==> beginDate == other.value.beginDate)
      ensures other.Some? ==> (r < 0 <==> beginDate < other.value.beginDate)
    {
      if other.None? then 1
      else if beginDate > other.value.beginDate then 1
      else if beginDate < other.value.beginDate then -1
      else 0
    }
  }

  /** Swapping the operands negates the comparison. */
  lemma CompareToAntisymmetric(a: PercentModel, b: PercentModel)
    ensures a.CompareTo(Some(b)) == -b.CompareTo(Some(a))
  {
  }

  /** "Not after" under the comparison is transitive. */
  lemma CompareToTransitive(a: PercentModel, b: PercentModel, c: PercentModel)
    requires a.CompareTo(Some(b)) <= 0 && b.CompareTo(Some(c)) <= 0
    ensures a.CompareTo(Some(c)) <= 0
  {
  }

  /** Only the dates take part: rows that differ in everything else compare
      as their dates do. */
  lemma CompareToOnlyDates(a: PercentModel, b: PercentModel, a': PercentModel, b': PercentModel)
    requires a.beginDate == a'.beginDate && b.beginDate == b'.beginDate
    ensures a.CompareTo(Some(b)) == a'.CompareTo(Some(b'))
  {
  }

  /** Rows in non-decreasing date order. */
  predicate SortedByDate(s: seq<PercentModel>) {
    forall i, j :: 0 <= i < j < |s| ==> s[i].beginDate <= s[j].beginDate
  }

  /** Sorted by date is exactly "no row compares greater than a later one",
      the order a sort with `CompareTo` produces. */
  lemma SortedByDateIffCompareTo(s: seq<PercentModel>)
    ensures SortedByDate(s) <==> forall i, j :: 0 <= i < j < |s| ==> s[i].CompareTo(Some(s[j])) <= 0
  {
  }
}
