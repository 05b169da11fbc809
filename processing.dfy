/** Reading the stored file into numbered raw rows, converting them to parsed
    rows, and assembling the series: sorted by date, duplicate dates
    reported, cumulative percentages filled in. */
module Processing {
  import opened Wrappers
  import opened Models
  import opened Diagnostics
  import opened Platform

  const DefaultDelimiter: char := ';'
  const DefaultDateFormat: string := "dd.MM.yyyy"

  /** The date `DateTime` would hold before parsing; it never reaches a kept row. */
  const UnsetDate: Date := 0

  // ---------------------------------------------------------------------------
  // Header gate and numbering

  /** The delimiter: the setting when `char.TryParse` accepts it, i.e. when it
      is present and exactly one character long, and `';'` otherwise. */
  function Delimiter(setting: Option<string>): (c: char)
    ensures setting.Some? && |setting.value| == 1 ==> c == setting.value[0]
    ensures setting.None? || |setting.value| != 1 ==> c == DefaultDelimiter
  {
    if setting.Some? && |setting.value| == 1 then setting.value[0] else DefaultDelimiter
  }

  /** A header matches its setting when the setting is present and equal to
      it ignoring case; comparing with a missing setting is always false. */
  predicate HeaderMatches(header: string, expected: Option<string>, env: Primitives) {
    expected.Some? && env.equalsIgnoreCase(header, expected.value)
  }

  /** What the header gate appends: at most one error, and none exactly when
      there are two fields and both headers match. */
  function HeaderErrors(fieldCount: int, headers: seq<string>, cfg: Settings, env: Primitives): (r: seq<Error>)
    requires fieldCount == 2 ==> |headers| >= 2
    ensures |r| <= 1
    ensures r == [] <==>
      fieldCount == 2 && HeaderMatches(headers[0], cfg.header0, env) && HeaderMatches(headers[1], cfg.header1, env)
  {
    if fieldCount != 2 then [TooManyColumns]
    else if !HeaderMatches(headers[0], cfg.header0, env) then [FirstHeaderMismatch(cfg.header0)]
    else if !HeaderMatches(headers[1], cfg.header1, env) then [SecondHeaderMismatch(cfg.header1)]
    else []
  }

  /** The checks are tried in a fixed order and only the first failing one
      reports: the field count, then the first header, then the second. */
  lemma HeaderErrorsPriority(fieldCount: int, headers: seq<string>, cfg: Settings, env: Primitives)
    requires fieldCount == 2 ==> |headers| >= 2
    ensures fieldCount != 2 ==> HeaderErrors(fieldCount, headers, cfg, env) == [TooManyColumns]
    ensures fieldCount == 2 && !HeaderMatches(headers[0], cfg.header0, env) ==>
      HeaderErrors(fieldCount, headers, cfg, env) == [FirstHeaderMismatch(cfg.header0)]
    ensures fieldCount == 2 && HeaderMatches(headers[0], cfg.header0, env)
            && !HeaderMatches(headers[1], cfg.header1, env) ==>
      HeaderErrors(fieldCount, headers, cfg, env) == [SecondHeaderMismatch(cfg.header1)]
  {
  }

  // ---------------------------------------------------------------------------
  // Conversion of raw rows

  /** The date format: the setting unless it is missing or empty. */
  function DateFormat(setting: Option<string>): (format: string)
    ensures setting.Some? && setting.value != "" ==> format == setting.value
    ensures setting.None? || setting.value == "" ==> format == DefaultDateFormat
  {
    if setting.Some? && setting.value != "" then setting.value else DefaultDateFormat
  }

  /** Both fields of the record parse. */
  predicate Parses(r: CsvRecord, format: string, env: Primitives) {
    env.tryParseExactDate(r.beginDate, format).Some? && env.tryParseDouble(r.irr).Some?
  }

  /** The parsed row of a record, when both of its fields parse. */
  function Convert(r: CsvRecord, format: string, env: Primitives): Option<PercentModel> {
    if Parses(r, format, env) then
      Some(PercentModel(r.id, env.tryParseExactDate(r.beginDate, format).value, env.tryParseDouble(r.irr).value, None))
    else None
  }

  /** The errors one record adds: a date error first, then a value error,
      each naming the record's row number. */
  function RecordErrors(r: CsvRecord, format: string, env: Primitives): seq<Error> {
    (if env.tryParseExactDate(r.beginDate, format).Some? then [] else [IncorrectDate(r.beginDate, r.id)])
    + (if env.tryParseDouble(r.irr).Some? then [] else [IncorrectValue(r.irr, r.id)])
  }

  /** A record yields no error exactly when it parses; otherwise one error
      per failing field, naming its row, the date's before the value's. */
  lemma RecordErrorsSpec(r: CsvRecord, format: string, env: Primitives)
    ensures var errs := RecordErrors(r, format, env);
      && |errs| <= 2
      && (errs == [] <==> Parses(r, format, env))
      && (IncorrectDate(r.beginDate, r.id) in errs <==> env.tryParseExactDate(r.beginDate, format).None?)
      && (IncorrectValue(r.irr, r.id) in errs <==> env.tryParseDouble(r.irr).None?)
      && (forall e :: e in errs ==> e == IncorrectDate(r.beginDate, r.id) || e == IncorrectValue(r.irr, r.id))
      && (|errs| == 2 ==> errs[0].IncorrectDate? && errs[1].IncorrectValue?)
  {
  }

  /** The parsed rows of the records that parse, in record order. */
  function KeptRows(rs: seq<CsvRecord>, format: string, env: Primitives): seq<PercentModel>
    decreases |rs|
  {
    if rs == [] then []
    else
      var init := KeptRows(rs[..|rs| - 1], format, env);
      match Convert(rs[|rs| - 1], format, env)
      case Some(m) => init + [m]
      case None => init
  }

  /** The errors of all records, record by record. */
  function ConversionErrors(rs: seq<CsvRecord>, format: string, env: Primitives): seq<Error>
    decreases |rs|
  {
    if rs == [] then []
    else ConversionErrors(rs[..|rs| - 1], format, env) + RecordErrors(rs[|rs| - 1], format, env)
  }

  /** One more record adds its parsed row, if any, and its errors. */
  lemma ConversionStep(rs: seq<CsvRecord>, i: nat, format: string, env: Primitives,
                       kept: seq<PercentModel>, errs: seq<Error>, item: Option<PercentModel>)
    requires i < |rs|
    requires kept == KeptRows(rs[..i], format, env)
    requires errs == ConversionErrors(rs[..i], format, env)
    requires item == Convert(rs[i], format, env)
    ensures KeptRows(rs[..i + 1], format, env) == kept + (if item.Some? then [item.value] else [])
    ensures ConversionErrors(rs[..i + 1], format, env) == errs + RecordErrors(rs[i], format, env)
  {
    assert rs[..i + 1][..i] == rs[..i];
  }

  /** A row is kept exactly when it is the parse of some record whose two
      fields both parse; it then carries that record's row number and no
      cumulative percentage yet. */
  lemma {:induction false} KeptRowsMembership(rs: seq<CsvRecord>, format: string, env: Primitives)
    ensures forall m :: m in KeptRows(rs, format, env) <==>
      exists i :: 0 <= i < |rs| && Convert(rs[i], format, env) == Some(m)
    ensures forall m :: m in KeptRows(rs, format, env) ==> m.percent.None?
    ensures |KeptRows(rs, format, env)| <= |rs|
    decreases |rs|
  {
    if rs != [] {
      var init := rs[..|rs| - 1];
      KeptRowsMembership(init, format, env);
      assert forall i :: 0 <= i < |init| ==> init[i] == rs[i];
      forall m | exists i :: 0 <= i < |rs| && Convert(rs[i], format, env) == Some(m)
        ensures m in KeptRows(rs, format, env)
      {
        var i :| 0 <= i < |rs| && Convert(rs[i], format, env) == Some(m);
        if i < |init| {
          assert Convert(init[i], format, env) == Some(m);
        }
      }
    }
  }

  /** The errors of a concatenation are the errors of its parts, in order. */
  lemma {:induction false} ConversionErrorsAppend(a: seq<CsvRecord>, b: seq<CsvRecord>, format: string, env: Primitives)
    ensures ConversionErrors(a + b, format, env) == ConversionErrors(a, format, env) + ConversionErrors(b, format, env)
    decreases |b|
  {
    if b != [] {
      var b' := b[..|b| - 1];
      assert (a + b)[..|a + b| - 1] == a + b';
      ConversionErrorsAppend(a, b', format, env);
    } else {
      assert a + b == a;
    }
  }

  /** A record's errors sit after those of every earlier record and before
      those of every later one. */
  lemma ConversionErrorsAt(rs: seq<CsvRecord>, i: nat, format: string, env: Primitives)
    requires i < |rs|
    ensures ConversionErrors(rs, format, env) ==
      ConversionErrors(rs[..i], format, env) + RecordErrors(rs[i], format, env) + ConversionErrors(rs[i + 1..], format, env)
  {
    assert rs == rs[..i] + [rs[i]] + rs[i + 1..];
    ConversionErrorsAppend(rs[..i] + [rs[i]], rs[i + 1..], format, env);
    ConversionErrorsAppend(rs[..i], [rs[i]], format, env);
    assert ConversionErrors([rs[i]], format, env) == RecordErrors(rs[i], format, env) by {
      assert [rs[i]][..0] == [];
    }
  }

  /** A record whose date alone fails is dropped with one error naming its
      row, and the records around it are kept as they are. */
  lemma RowFailureIsolation(r1: CsvRecord, r2: CsvRecord, r3: CsvRecord, format: string, env: Primitives)
    requires Parses(r1, format, env) && Parses(r3, format, env)
    requires env.tryParseExactDate(r2.beginDate, format).None? && env.tryParseDouble(r2.irr).Some?
    ensures KeptRows([r1, r2, r3], format, env) == [Convert(r1, format, env).value, Convert(r3, format, env).value]
    ensures ConversionErrors([r1, r2, r3], format, env) == [IncorrectDate(r2.beginDate, r2.id)]
  {
    var m1, m3 := Convert(r1, format, env).value, Convert(r3, format, env).value;
    assert [r1, r2, r3][..2] == [r1, r2];
    assert [r1, r2][..1] == [r1];
    assert [r1][..0] == [];
    assert KeptRows([r1], format, env) == [m1];
    assert KeptRows([r1, r2], format, env) == [m1];
    assert ConversionErrors([r1], format, env) == [];
    assert ConversionErrors([r1, r2], format, env) == [IncorrectDate(r2.beginDate, r2.id)];
  }

  // ---------------------------------------------------------------------------
  // Sorting

  /** Inserting one row before the first row with a later date; the result
      holds the rows of `s` and `x`. */
  function InsertByDate(s: seq<PercentModel>, x: PercentModel): (r: seq<PercentModel>)
    ensures multiset(r) == multiset(s) + multiset{x}
    decreases |s|
  {
    if s == [] then [x]
    else if x.CompareTo(Some(s[0])) < 0 then [x] + s
    else
      assert s == [s[0]] + s[1..];
      [s[0]] + InsertByDate(s[1..], x)
  }

  /** Inserting a row no earlier than `lo` into rows no earlier than `lo`
      gives rows no earlier than `lo`. */
  lemma {:induction false} InsertByDateLowerBound(s: seq<PercentModel>, x: PercentModel, lo: Date)
    requires forall i :: 0 <= i < |s| ==> lo <= s[i].beginDate
    requires lo <= x.beginDate
    ensures forall i :: 0 <= i < |InsertByDate(s, x)| ==> lo <= InsertByDate(s, x)[i].beginDate
    decreases |s|
  {
    if s != [] && x.CompareTo(Some(s[0])) >= 0 {
      var rest := InsertByDate(s[1..], x);
      InsertByDateLowerBound(s[1..], x, lo);
      var r := [s[0]] + rest;
      assert r == InsertByDate(s, x);
      forall i | 0 <= i < |r| ensures lo <= r[i].beginDate {
        if i > 0 {
          assert r[i] == rest[i - 1];
        }
      }
    }
  }

  /** Inserting into a sorted list keeps it sorted. */
  lemma {:induction false} InsertByDateSorted(s: seq<PercentModel>, x: PercentModel)
    requires SortedByDate(s)
    ensures SortedByDate(InsertByDate(s, x))
    decreases |s|
  {
    if s != [] && x.CompareTo(Some(s[0])) >= 0 {
      var rest := InsertByDate(s[1..], x);
      InsertByDateSorted(s[1..], x);
      InsertByDateLowerBound(s[1..], x, s[0].beginDate);
      var r := [s[0]] + rest;
      assert r == InsertByDate(s, x);
      forall i, j | 0 <= i < j < |r| ensures r[i].beginDate <= r[j].beginDate {
        if i > 0 {
          assert r[i] == rest[i - 1] && r[j] == rest[j - 1];
        } else {
          assert r[j] == rest[j - 1];
        }
      }
    }
  }

  // ---------------------------------------------------------------------------
  // Duplicate dates

  /** The dates of the rows, in order. */
  function Dates(s: seq<PercentModel>): (ds: seq<Date>)
    ensures |ds| == |s|
    ensures forall i :: 0 <= i < |s| ==> ds[i] == s[i].beginDate
  {
    seq(|s|, i requires 0 <= i < |s| => s[i].beginDate)
  }

  /** No value occurs twice. */
  predicate Distinct(ds: seq<Date>) {
    forall i, j :: 0 <= i < j < |ds| ==> ds[i] != ds[j]
  }

  /** Strictly increasing. */
  predicate Increasing(ds: seq<Date>) {
    forall i, j :: 0 <= i < j < |ds| ==> ds[i] < ds[j]
  }

  /** The keys `GroupBy` forms: each distinct date once, in order of first
      occurrence. */
  function GroupKeys(ds: seq<Date>): (keys: seq<Date>)
    ensures forall d :: d in keys <==> d in ds
    ensures Distinct(keys)
    decreases |ds|
  {
    if ds == [] then []
    else
      var keys := GroupKeys(ds[..|ds| - 1]);
      assert forall d :: d in ds <==> d in ds[..|ds| - 1] || d == ds[|ds| - 1] by {
        assert ds == ds[..|ds| - 1] + [ds[|ds| - 1]];
      }
      if ds[|ds| - 1] in keys then keys else keys + [ds[|ds| - 1]]
  }

  /** The keys that do not pass `Skip(1).Any()` dropped: those of groups with
      more than one member. */
  function Repeated(keys: seq<Date>, ds: seq<Date>): (r: seq<Date>)
    ensures forall d :: d in r <==> d in keys && multiset(ds)[d] > 1
    decreases |keys|
  {
    if keys == [] then []
    else
      var rest := Repeated(keys[1..], ds);
      assert keys == [keys[0]] + keys[1..];
      if multiset(ds)[keys[0]] > 1 then [keys[0]] + rest else rest
  }

  /** Dropping keys keeps the remaining ones in their order: distinct keys
      stay distinct and increasing keys stay increasing. */
  lemma {:induction false} RepeatedKeepsOrder(keys: seq<Date>, ds: seq<Date>)
    ensures Distinct(keys) ==> Distinct(Repeated(keys, ds))
    ensures Increasing(keys) ==> Increasing(Repeated(keys, ds))
    decreases |keys|
  {
    if keys != [] {
      var rest := Repeated(keys[1..], ds);
      RepeatedKeepsOrder(keys[1..], ds);
      if multiset(ds)[keys[0]] > 1 {
        var r := [keys[0]] + rest;
        forall j | 0 <= j < |rest|
          ensures (Distinct(keys) ==> rest[j] != keys[0]) && (Increasing(keys) ==> keys[0] < rest[j])
        {
          assert rest[j] in rest;
          var k :| 0 <= k < |keys[1..]| && keys[1..][k] == rest[j];
          assert keys[k + 1] == rest[j];
        }
        forall i, j | 0 <= i < j < |r|
          ensures (Distinct(keys) ==> r[i] != r[j]) && (Increasing(keys) ==> r[i] < r[j])
        {
          assert r[j] == rest[j - 1];
          if i > 0 {
            assert r[i] == rest[i - 1];
          }
        }
      }
    }
  }

  /** The dates of the groups `ValidateForDuplicationOfDate` reports: each
      date that occurs at least twice, once. */
  function DuplicatedDates(ds: seq<Date>): (dups: seq<Date>)
    ensures forall d :: d in dups <==> multiset(ds)[d] >= 2
    ensures Distinct(dups)
  {
    RepeatedKeepsOrder(GroupKeys(ds), ds);
    Repeated(GroupKeys(ds), ds)
  }

  /** One duplicate error per given date, in the same order. */
  function DuplicateErrors(dates: seq<Date>): (errs: seq<Error>)
    ensures |errs| == |dates|
    ensures forall i :: 0 <= i < |dates| ==> errs[i] == DuplicateDate(dates[i])
    decreases |dates|
  {
    if dates == [] then [] else DuplicateErrors(dates[..|dates| - 1]) + [DuplicateDate(dates[|dates| - 1])]
  }

  /** The duplicate check's errors name every date that occurs at least
      twice, each exactly once, and no other date. */
  lemma DuplicateErrorsExactlyOnce(ds: seq<Date>)
    ensures forall d :: DuplicateDate(d) in DuplicateErrors(DuplicatedDates(ds)) <==> multiset(ds)[d] >= 2
    ensures forall e :: e in DuplicateErrors(DuplicatedDates(ds)) ==> e.DuplicateDate?
    ensures forall i, j :: 0 <= i < j < |DuplicatedDates(ds)| ==>
      DuplicateErrors(DuplicatedDates(ds))[i] != DuplicateErrors(DuplicatedDates(ds))[j]
  {
    var dups := DuplicatedDates(ds);
    var errs := DuplicateErrors(dups);
    forall d ensures DuplicateDate(d) in errs <==> d in dups {
      if DuplicateDate(d) in errs {
        var i :| 0 <= i < |errs| && errs[i] == DuplicateDate(d);
        assert dups[i] == d;
      }
      if d in dups {
        var i :| 0 <= i < |dups| && dups[i] == d;
        assert errs[i] == DuplicateDate(d);
      }
    }
  }

  /** On a sorted list the first occurrences are strictly increasing. */
  lemma {:induction false} GroupKeysOfSorted(ds: seq<Date>)
    requires forall i, j :: 0 <= i < j < |ds| ==> ds[i] <= ds[j]
    ensures Increasing(GroupKeys(ds))
    decreases |ds|
  {
    if ds != [] {
      var init := ds[..|ds| - 1];
      var last := ds[|ds| - 1];
      GroupKeysOfSorted(init);
      var keys := GroupKeys(init);
      if last !in keys {
        var r := keys + [last];
        assert GroupKeys(ds) == r;
        forall i, j | 0 <= i < j < |r| ensures r[i] < r[j] {
          if j < |keys| {
            assert r[i] == keys[i] && r[j] == keys[j];
          } else {
            assert r[i] == keys[i] && r[i] in init;
            var k :| 0 <= k < |init| && init[k] == r[i];
            assert ds[k] == r[i];
          }
        }
      }
    }
  }

  /** After the sort, the duplicate errors come in chronological order. */
  lemma DuplicatesOfSortedInOrder(s: seq<PercentModel>)
    requires SortedByDate(s)
    ensures Increasing(DuplicatedDates(Dates(s)))
  {
    GroupKeysOfSorted(Dates(s));
    RepeatedKeepsOrder(GroupKeys(Dates(s)), Dates(s));
  }

  // ---------------------------------------------------------------------------
  // Compounding

  /** The growth factor of a run of periods: the product of `1 + r/100` over
      their returns. */
  function Growth(s: seq<PercentModel>): real
    decreases |s|
  {
    if s == [] then 1.0 else Growth(s[..|s| - 1]) * (1.0 + s[|s| - 1].irr / 100.0)
  }

  /** The growth up to and including row `i` is the growth before it times
      row `i`'s factor. */
  lemma GrowthStep(s: seq<PercentModel>, i: nat)
    requires i < |s|
    ensures Growth(s[..i + 1]) == Growth(s[..i]) * (1.0 + s[i].irr / 100.0)
  {
    assert s[..i + 1][..i] == s[..i];
  }

  /** Each row with its cumulative percentage: the growth over it and all
      rows before it, as a percentage. */
  function Compounded(s: seq<PercentModel>): seq<PercentModel> {
    seq(|s|, i requires 0 <= i < |s| => s[i].(percent := Some((Growth(s[..i + 1]) - 1.0) * 100.0)))
  }

  /** The rows with the cumulative percentage cleared. */
  function WithoutPercent(s: seq<PercentModel>): seq<PercentModel> {
    seq(|s|, i requires 0 <= i < |s| => s[i].(percent := None))
  }

  /** The cumulative percentages, in order. */
  function Percents(s: seq<PercentModel>): seq<Option<real>> {
    seq(|s|, i requires 0 <= i < |s| => s[i].percent)
  }

  /** Compounding sets every row's percentage and changes no other field. */
  lemma CompoundedOnlySetsPercent(s: seq<PercentModel>)
    ensures |Compounded(s)| == |s|
    ensures forall i :: 0 <= i < |s| ==> Compounded(s)[i].percent.Some?
    ensures WithoutPercent(Compounded(s)) == WithoutPercent(s)
    ensures Dates(Compounded(s)) == Dates(s)
  {
  }

  /** The first row's percentage is its own return; each later row's growth
      is the previous row's growth times its own factor, so
      `1 + P[i]/100 == (1 + P[i-1]/100) * (1 + r[i]/100)`. */
  lemma CompoundedRecurrence(s: seq<PercentModel>, i: nat)
    requires i < |s|
    ensures i == 0 ==> Compounded(s)[0].percent == Some(s[0].irr)
    ensures i > 0 ==>
      1.0 + Compounded(s)[i].percent.value / 100.0
      == (1.0 + Compounded(s)[i - 1].percent.value / 100.0) * (1.0 + s[i].irr / 100.0)
  {
    GrowthStep(s, i);
    if i == 0 {
      assert s[..0] == [];
    }
  }

  /** Returns of 10 and -5 percent give cumulative 10 and 4.5 percent; a
      third period at 0 percent keeps 4.5. */
  lemma CompoundingExample(a: PercentModel, b: PercentModel, c: PercentModel)
    requires a.irr == 10.0 && b.irr == -5.0 && c.irr == 0.0
    ensures Percents(Compounded([a, b])) == [Some(10.0), Some(4.5)]
    ensures Percents(Compounded([a, b, c])) == [Some(10.0), Some(4.5), Some(4.5)]
  {
    assert [a, b][..1] == [a] && [a, b][..2] == [a, b];
    assert [a, b, c][..1] == [a] && [a, b, c][..2] == [a, b] && [a, b, c][..3] == [a, b, c];
    assert [a][..0] == [];
    assert Growth([a]) == 1.1;
    assert Growth([a, b]) == 1.045;
    assert Growth([a, b, c]) == 1.045;
  }

  // ---------------------------------------------------------------------------
  // The list and the processor

  /** The `List<PercentModel>` the pipeline builds, sorts and updates in place. */
  class PercentList {
    var items: seq<PercentModel>

    constructor ()
      ensures items == []
    {
      items := [];
    }

    method Add(item: PercentModel)
      modifies this
      ensures items == old(items) + [item]
    {
      items := items + [item];
    }

    /** `List.Sort()` with `PercentModel.CompareTo`: afterwards the rows are
        in date order and are the rows that were there; which of two rows
        with equal dates comes first is not promised. */
    method Sort()
      modifies this
      ensures SortedByDate(items)
      ensures multiset(items) == multiset(old(items))
    {
      var sorted := [];
      var i := 0;
      while i < |items|
        invariant 0 <= i <= |items|
        invariant items == old(items)
        invariant SortedByDate(sorted)
        invariant multiset(sorted) == multiset(items[..i])
      {
        assert items[..i + 1] == items[..i] + [items[i]];
        InsertByDateSorted(sorted, items[i]);
        sorted := InsertByDate(sorted, items[i]);
        i := i + 1;
      }
      assert items[..i] == items;
      items := sorted;
    }
  }

  /** `FileProcessor`: reads and converts an uploaded file, appending to the
      shared error list. */
  class FileProcessor {
    const errors: ErrorLog

    constructor (errors: ErrorLog)
      ensures this.errors == errors
    {
      this.errors := errors;
    }

    /** Reads the stored file with the configured delimiter, runs the header
        gate and numbers the data rows 1, 2, ... in read order. With fewer
        than two headers the first data row makes the source's `headers[1]`
        (or `headers[0]`) fail, which is `None` here. */
    method ProcessFile(filePath: string, cfg: Settings, env: Primitives) returns (records: Option<seq<CsvRecord>>)
      modifies errors
      ensures var table := env.readCsv(filePath, Delimiter(cfg.delimiter));
        && errors.entries == old(errors.entries) + HeaderErrors(|table.headers|, table.headers, cfg, env)
        && (records.None? <==> |table.headers| < 2 && |table.rows| > 0)
        && (records.Some? ==>
              && |records.value| == |table.rows|
              && forall k :: 0 <= k < |table.rows| ==>
                   records.value[k] == CsvRecord(Some(k + 1), table.rows[k].date, table.rows[k].value))
    {
      var delimiter := Delimiter(cfg.delimiter);
      var table := env.readCsv(filePath, delimiter);
      var fieldCount := |table.headers|;
      var headers := table.headers;
      ValidateHeadersAndColumns(fieldCount, headers, cfg, env);
      if |headers| < 2 && |table.rows| > 0 {
        return None;
      }
      var rs: seq<CsvRecord> := [];
      var i := 0;
      while i < |table.rows|
        invariant 0 <= i <= |table.rows|
        invariant |rs| == i
        invariant forall k :: 0 <= k < i ==> rs[k] == CsvRecord(Some(k + 1), table.rows[k].date, table.rows[k].value)
      {
        var row := table.rows[i];
        i := i + 1;
        var item := CsvRecord(Some(i), row.date, row.value);
        rs := rs + [item];
      }
      records := Some(rs);
    }

    /** Converts the records, sorts the kept rows by date, reports duplicate
        dates and fills in the cumulative percentages. The result holds
        exactly the rows that parsed (duplicates included), in date order,
        each with its percentage compounded in that order. */
    method ProcessCSVModels(records: seq<CsvRecord>, cfg: Settings, env: Primitives) returns (list: PercentList)
      modifies errors
      ensures fresh(list)
      ensures SortedByDate(list.items)
      ensures multiset(WithoutPercent(list.items)) == multiset(KeptRows(records, DateFormat(cfg.dateFormat), env))
      ensures list.items == Compounded(WithoutPercent(list.items))
      ensures errors.entries == old(errors.entries)
        + ConversionErrors(records, DateFormat(cfg.dateFormat), env)
        + DuplicateErrors(DuplicatedDates(Dates(list.items)))
    {
      var dateFormat := DateFormat(cfg.dateFormat);
      list := ConvertRecords(records, dateFormat, env);
      KeptRowsMembership(records, dateFormat, env);
      list.Sort();
      ghost var sorted := list.items;
      ValidateForDuplicationOfDate(list);
      CalculatePercents(list);
      AssemblyFacts(KeptRows(records, dateFormat, env), sorted, list.items);
    }

    /** The conversion loop: every record in order, keeping the rows that
        parse and logging the errors of those that do not. */
    method ConvertRecords(records: seq<CsvRecord>, dateFormat: string, env: Primitives) returns (list: PercentList)
      modifies errors
      ensures fresh(list)
      ensures list.items == KeptRows(records, dateFormat, env)
      ensures errors.entries == old(errors.entries) + ConversionErrors(records, dateFormat, env)
    {
      list := new PercentList();
      var i := 0;
      while i < |records|
        invariant 0 <= i <= |records|
        invariant fresh(list)
        invariant list.items == KeptRows(records[..i], dateFormat, env)
        invariant errors.entries == old(errors.entries) + ConversionErrors(records[..i], dateFormat, env)
      {
        ghost var kept := list.items;
        ghost var done := ConversionErrors(records[..i], dateFormat, env);
        var item := ConvertRecord(records[i], dateFormat, env);
        if item.Some? {
          list.Add(item.value);
        }
        ConversionStep(records, i, dateFormat, env, kept, done, item);
        i := i + 1;
      }
      assert records[..i] == records;
    }

    /** Parses one record's date and value; every field that fails adds
        an error naming the record's row, the date's first. The row is
        returned only when both fields parse. */
    method ConvertRecord(record: CsvRecord, dateFormat: string, env: Primitives) returns (item: Option<PercentModel>)
      modifies errors
      ensures item == Convert(record, dateFormat, env)
      ensures errors.entries == old(errors.entries) + RecordErrors(record, dateFormat, env)
    {
      var isValidRecord := true;
      var model := PercentModel(record.id, UnsetDate, 0.0, None);
      var beginDate := env.tryParseExactDate(record.beginDate, dateFormat);
      if beginDate.Some? {
        model := model.(beginDate := beginDate.value);
      } else {
        isValidRecord := false;
        errors.Add(IncorrectDate(record.beginDate, record.id));
      }
      var irrResult := env.tryParseDouble(record.irr);
      if irrResult.Some? {
        model := model.(irr := irrResult.value);
      } else {
        isValidRecord := false;
        errors.Add(IncorrectValue(record.irr, record.id));
      }
      item := if isValidRecord then Some(model) else None;
    }

    /** The header gate; appends at most one error. */
    method ValidateHeadersAndColumns(fieldCount: int, headers: seq<string>, cfg: Settings, env: Primitives)
      requires fieldCount == 2 ==> |headers| >= 2
      modifies errors
      ensures errors.entries == old(errors.entries) + HeaderErrors(fieldCount, headers, cfg, env)
    {
      if fieldCount != 2 {
        errors.Add(TooManyColumns);
      } else if !HeaderMatches(headers[0], cfg.header0, env) {
        errors.Add(FirstHeaderMismatch(cfg.header0));
      } else if !HeaderMatches(headers[1], cfg.header1, env) {
        errors.Add(SecondHeaderMismatch(cfg.header1));
      }
    }

    /** Appends one error per date that occurs more than once, in the order
        of the groups; the list itself is left as it is. */
    method ValidateForDuplicationOfDate(list: PercentList)
      modifies errors
      ensures unchanged(list)
      ensures errors.entries == old(errors.entries) + DuplicateErrors(DuplicatedDates(Dates(list.items)))
    {
      var duplications := DuplicatedDates(Dates(list.items));
      if |duplications| > 0 {
        var j := 0;
        while j < |duplications|
          invariant 0 <= j <= |duplications|
          invariant errors.entries == old(errors.entries) + DuplicateErrors(duplications[..j])
        {
          assert duplications[..j + 1][..j] == duplications[..j];
          errors.Add(DuplicateDate(duplications[j]));
          j := j + 1;
        }
        assert duplications[..j] == duplications;
      }
    }

    /** Runs the compounding multiplier `k` over the list, from 1, setting
        each row's percentage from the multiplier before and including it. */
    static method CalculatePercents(list: PercentList)
      modifies list
      ensures list.items == Compounded(old(list.items))
    {
      ghost var original := list.items;
      ghost var target := Compounded(original);
      var k := 1.0;
      var i := 0;
      while i < |list.items|
        invariant 0 <= i <= |list.items| == |original|
        invariant k == Growth(original[..i])
        invariant list.items == target[..i] + original[i..]
      {
        var item := list.items[i];
        var next := k * (1.0 + item.irr / 100.0);
        CompoundingStep(original, list.items, i, k, item, next);
        list.items := list.items[i := item.(percent := Some((next - 1.0) * 100.0))];
        k := next;
        i := i + 1;
      }
      assert target[..i] == target;
    }
  }

  /** One iteration of the compounding loop: with the rows before `i` done
      and `k` their growth, `next` is the growth up to row `i`, and setting
      row `i`'s percentage from it does row `i` too. */
  lemma CompoundingStep(original: seq<PercentModel>, items: seq<PercentModel>, i: nat, k: real,
                        item: PercentModel, next: real)
    requires i < |original|
    requires k == Growth(original[..i])
    requires items == Compounded(original)[..i] + original[i..]
    requires item == items[i]
    requires next == k * (1.0 + item.irr / 100.0)
    ensures next == Growth(original[..i + 1])
    ensures items[i := item.(percent := Some((next - 1.0) * 100.0))]
            == Compounded(original)[..i + 1] + original[i + 1..]
  {
    var target := Compounded(original);
    assert item == original[i];
    GrowthStep(original, i);
    assert target[i] == original[i].(percent := Some((Growth(original[..i + 1]) - 1.0) * 100.0));
  }

  /** What the assembly steps give together: a sorted permutation of rows
      without percentages, compounded, is sorted, has the same dates, and
      with the percentages cleared is that permutation again. */
  lemma AssemblyFacts(kept: seq<PercentModel>, sorted: seq<PercentModel>, result: seq<PercentModel>)
    requires forall m :: m in kept ==> m.percent.None?
    requires SortedByDate(sorted) && multiset(sorted) == multiset(kept)
    requires result == Compounded(sorted)
    ensures SortedByDate(result)
    ensures multiset(WithoutPercent(result)) == multiset(kept)
    ensures result == Compounded(WithoutPercent(result))
    ensures Dates(result) == Dates(sorted)
  {
    forall m | m in sorted ensures m.percent.None? {
      assert m in multiset(sorted);
    }
    CompoundedOnlySetsPercent(sorted);
    assert WithoutPercent(sorted) == sorted;
    SortedDatesOnly(sorted, result);
  }

  /** The one date-sorted arrangement of two rows with different dates. */
  lemma SortedPairIsOrdered(w: seq<PercentModel>, m1: PercentModel, m2: PercentModel)
    requires m1.beginDate < m2.beginDate
    requires multiset(w) == multiset([m1, m2])
    requires SortedByDate(w)
    ensures w == [m1, m2]
  {
    assert |w| == 2 by {
      assert |multiset(w)| == |multiset([m1, m2])|;
    }
    assert w[0] in multiset(w) && w[1] in multiset(w);
  }

  /** Two different dates have no duplicate to report. */
  lemma NoDuplicatesOfTwoDates(d1: Date, d2: Date)
    requires d1 != d2
    ensures DuplicatedDates([d1, d2]) == []
  {
    var ds := [d1, d2];
    assert ds[..1] == [d1] && [d1][..0] == [];
    assert GroupKeys([d1]) == [d1];
    assert d2 !in GroupKeys([d1]);
    assert GroupKeys(ds) == GroupKeys([d1]) + [d2];
    assert multiset(ds)[d1] == 1 && multiset(ds)[d2] == 1;
    assert ds[1..] == [d2] && [d2][1..] == [];
    assert Repeated([d2], ds) == [];
  }

  /** For two rows that parse to returns of 10 and -5 percent on two
      different dates, the postconditions of `ProcessCSVModels` leave one
      possible answer: no error, the rows in date order, cumulative
      percentages 10 and 4.5. */
  lemma TwoRowExample(r1: CsvRecord, r2: CsvRecord, format: string, env: Primitives, result: seq<PercentModel>)
    requires Parses(r1, format, env) && Parses(r2, format, env)
    requires env.tryParseExactDate(r1.beginDate, format).value < env.tryParseExactDate(r2.beginDate, format).value
    requires env.tryParseDouble(r1.irr).value == 10.0 && env.tryParseDouble(r2.irr).value == -5.0
    requires SortedByDate(result)
    requires multiset(WithoutPercent(result)) == multiset(KeptRows([r1, r2], format, env))
    requires result == Compounded(WithoutPercent(result))
    ensures ConversionErrors([r1, r2], format, env) + DuplicateErrors(DuplicatedDates(Dates(result))) == []
    ensures WithoutPercent(result) == [Convert(r1, format, env).value, Convert(r2, format, env).value]
    ensures Percents(result) == [Some(10.0), Some(4.5)]
  {
    var m1, m2 := Convert(r1, format, env).value, Convert(r2, format, env).value;
    TwoParsedRecords(r1, r2, format, env);
    var w := WithoutPercent(result);
    CompoundedOnlySetsPercent(w);
    SortedDatesOnly(w, result);
    SortedPairIsOrdered(w, m1, m2);
    CompoundingExample(m1, m2, m2.(irr := 0.0));
    assert Dates(result) == [m1.beginDate, m2.beginDate];
    NoDuplicatesOfTwoDates(m1.beginDate, m2.beginDate);
  }

  /** Two records that both parse are both kept, in order, without errors. */
  lemma TwoParsedRecords(r1: CsvRecord, r2: CsvRecord, format: string, env: Primitives)
    requires Parses(r1, format, env) && Parses(r2, format, env)
    ensures KeptRows([r1, r2], format, env) == [Convert(r1, format, env).value, Convert(r2, format, env).value]
    ensures ConversionErrors([r1, r2], format, env) == []
  {
    assert [r1, r2][..1] == [r1] && [r1][..0] == [];
    assert KeptRows([r1], format, env) == [Convert(r1, format, env).value];
    assert ConversionErrors([r1], format, env) == [];
  }

  /** Two lists with the same dates are sorted alike. */
  lemma SortedDatesOnly(s: seq<PercentModel>, t: seq<PercentModel>)
    requires Dates(s) == Dates(t)
    ensures SortedByDate(s) <==> SortedByDate(t)
  {
    assert forall i :: 0 <= i < |s| ==> s[i].beginDate == Dates(s)[i];
  }
}
