/**
 * Index names: selecting the catalog entries that belong to the configured
 * pattern, and extracting the date a daily index carries in its name
 * (`<pattern>-YYYY.MM.DD`).
 */
module IndexNames {
  import opened Results
  import opened Sequences
  import opened Text
  import opened Calendar

  /** Why a name yields no date; every one of these ends the whole run. */
  datatype DateError =
    | NotThreeParts(parts: seq<string>)
    | NotAnInteger(part: string)
    | NotACalendarDate(year: nat, month: nat, day: nat)

  /**
   * What is left of `name` once every occurrence of `<glob>-` is deleted: a name
   * without the pattern is left whole, and each occurrence shortens it.
   */
  function DatePart(glob: string, name: string): (r: string)
    ensures |r| <= |name|
    ensures !Contains(name, glob + "-") ==> r == name
    ensures Contains(name, glob + "-") ==> |r| + |glob| + 1 <= |name|
  {
    RemoveAll(name, glob + "-")
  }

  /**
   * The date embedded in an index name: delete every `<glob>-`, split the rest
   * on '.' and read the pieces as a date. The parse succeeds exactly when the
   * remainder has three decimal pieces that form a date `datetime.date`
   * accepts, and then yields the date of their values.
   */
  function ParseIndexDate(glob: string, name: string): (r: Result<Date, DateError>)
    ensures r.Ok? ==> IsValid(r.value)
    ensures r.Ok? ==> multiset(DatePart(glob, name))['.'] == 2
    ensures var parts := Split(DatePart(glob, name), '.');
      r.Ok? <==> (|parts| == 3 && (forall k :: 0 <= k < 3 ==> IsDecimal(parts[k]))
        && IsValid(Date(ValueOf(parts[0]), ValueOf(parts[1]), ValueOf(parts[2]))))
    ensures var parts := Split(DatePart(glob, name), '.');
      r.Ok? ==> r.value == Date(ValueOf(parts[0]), ValueOf(parts[1]), ValueOf(parts[2]))
  {
    ReadDate(Split(DatePart(glob, name), '.'))
  }

  /**
   * Unpacks exactly three pieces, reads each as a decimal integer and builds
   * the calendar date; the first piece that fails decides the error.
   */
  function ReadDate(parts: seq<string>): (r: Result<Date, DateError>)
    ensures r.Ok? ==> |parts| == 3 && IsValid(r.value)
    ensures r.Ok? <==> (|parts| == 3 && (forall k :: 0 <= k < 3 ==> IsDecimal(parts[k]))
      && IsValid(Date(ValueOf(parts[0]), ValueOf(parts[1]), ValueOf(parts[2]))))
    ensures r.Ok? ==> r.value == Date(ValueOf(parts[0]), ValueOf(parts[1]), ValueOf(parts[2]))
  {
    if |parts| != 3 then Err(NotThreeParts(parts))
    else match (ParseNat(parts[0]), ParseNat(parts[1]), ParseNat(parts[2]))
      case (None, _, _) => Err(NotAnInteger(parts[0]))
      case (Some(_), None, _) => Err(NotAnInteger(parts[1]))
      case (Some(_), Some(_), None) => Err(NotAnInteger(parts[2]))
      case (Some(y), Some(m), Some(d)) =>
        if IsValid(Date(y, m, d)) then Ok(Date(y, m, d)) else Err(NotACalendarDate(y, m, d))
  }

  /** The daily index name for date `d`, as Beats name them: `<glob>-YYYY.MM.DD`. */
  function IndexName(glob: string, d: Date): string
    requires IsValid(d)
  {
    glob + "-" + DottedDate(ZeroPad(d.year, 4), ZeroPad(d.month, 2), ZeroPad(d.day, 2))
  }

  /** The text `Y.M.D` built from three digit strings. */
  function DottedDate(y: string, m: string, d: string): string {
    y + "." + m + "." + d
  }

  /** Digit strings and dots hold no '-'. */
  lemma DottedDateHasNoDash(y: string, m: string, d: string)
    requires IsDecimal(y) && IsDecimal(m) && IsDecimal(d)
    ensures '-' !in DottedDate(y, m, d)
  {
    var rest := DottedDate(y, m, d);
    forall i | 0 <= i < |rest| ensures rest[i] != '-' {
      if i < |y| {
        assert rest[i] == y[i];
      } else if i == |y| {
      } else if i < |y| + 1 + |m| {
        assert rest[i] == m[i - |y| - 1];
      } else if i == |y| + 1 + |m| {
      } else {
        assert rest[i] == d[i - |y| - 2 - |m|];
      }
    }
  }

  /** Deleting every `<glob>-` from `<glob>-Y.M.D` leaves exactly `Y.M.D`. */
  lemma DatePartOfDottedName(glob: string, y: string, m: string, d: string)
    requires IsDecimal(y) && IsDecimal(m) && IsDecimal(d)
    ensures DatePart(glob, glob + "-" + DottedDate(y, m, d)) == DottedDate(y, m, d)
  {
    var p := glob + "-";
    var rest := DottedDate(y, m, d);
    RemoveAllLeading(p, rest);
    DottedDateHasNoDash(y, m, d);
    assert '-' in p by { assert p[|p| - 1] == '-'; }
    if Contains(rest, p) {
      ContainsChar(rest, p, '-');
    }
  }

  /** `Y.M.D` splits on '.' into its three digit strings. */
  lemma SplitDottedDate(y: string, m: string, d: string)
    requires IsDecimal(y) && IsDecimal(m) && IsDecimal(d)
    ensures Split(DottedDate(y, m, d), '.') == [y, m, d]
  {
    DecimalWithout(y, '.');
    DecimalWithout(m, '.');
    DecimalWithout(d, '.');
    DottedDateShape(y, m, d);
    SplitAfter(y, '.', m + ['.'] + d);
    SplitAfter(m, '.', d);
    SplitNone(d, '.');
    Three(y, m, d);
  }

  /** `Y.M.D` is `Y`, a dot, and then `M.D`. */
  lemma DottedDateShape(y: string, m: string, d: string)
    ensures DottedDate(y, m, d) == y + ['.'] + (m + ['.'] + d)
  {
    AppendAssociative(y + ['.'], m + ['.'], d);
    AppendAssociative(y + ['.'], m, ['.']);
    AppendAssociative(y, ['.'], m + ['.'] + d);
  }

  /**
   * The name `<glob>-Y.M.D`, with Y, M and D decimal digit strings, parses to
   * the date their values denote when that is a calendar date, and fails
   * otherwise (2023.02.29, say). The pattern `<glob>-` cannot reappear after the
   * prefix, because the digits and dots hold no '-'.
   */
  lemma ParseDigits(glob: string, y: string, m: string, d: string)
    requires IsDecimal(y) && IsDecimal(m) && IsDecimal(d)
    ensures var date := Date(ValueOf(y), ValueOf(m), ValueOf(d));
      ParseIndexDate(glob, glob + "-" + DottedDate(y, m, d))
        == if IsValid(date) then Ok(date) else Err(NotACalendarDate(ValueOf(y), ValueOf(m), ValueOf(d)))
  {
    DatePartOfDottedName(glob, y, m, d);
    SplitDottedDate(y, m, d);
  }

  /** Formatting a date as an index name and parsing it back gives the same date. */
  lemma IndexNameRoundTrip(glob: string, d: Date)
    requires IsValid(d)
    ensures ParseIndexDate(glob, IndexName(glob, d)) == Ok(d)
  {
    ParseDigits(glob, ZeroPad(d.year, 4), ZeroPad(d.month, 2), ZeroPad(d.day, 2));
  }

  /** A remainder without exactly two dots cannot be read as three parts: the run aborts. */
  lemma WrongPartCountFails(glob: string, name: string)
    requires multiset(DatePart(glob, name))['.'] != 2
    ensures ParseIndexDate(glob, name) == Err(NotThreeParts(Split(DatePart(glob, name), '.')))
  {
  }

  /**
   * A name of the pattern whose remainder holds neither '-' nor '.', such as
   * `filebeat-latest`, is one piece, not three: the run aborts.
   */
  lemma UndatedNameMalformed(glob: string, rest: string)
    requires '-' !in rest && '.' !in rest
    ensures ParseIndexDate(glob, glob + "-" + rest) == Err(NotThreeParts([rest]))
  {
    var p := glob + "-";
    RemoveAllLeading(p, rest);
    assert '-' in p by { assert p[|p| - 1] == '-'; }
    if Contains(rest, p) {
      ContainsChar(rest, p, '-');
    }
    SplitNone(rest, '.');
  }

  /** Three parts of which one is not a decimal integer: the run aborts. */
  lemma NonIntegerPartFails(glob: string, name: string, k: nat)
    requires k < 3
    requires var parts := Split(DatePart(glob, name), '.'); |parts| == 3 && !IsDecimal(parts[k])
    ensures ParseIndexDate(glob, name).Err?
    ensures ParseIndexDate(glob, name).error.NotAnInteger?
  {
    NonIntegerPieceFails(Split(DatePart(glob, name), '.'), k);
  }

  /** Three pieces of which one is not a decimal integer are rejected with `NotAnInteger`. */
  lemma NonIntegerPieceFails(parts: seq<string>, k: nat)
    requires k < 3 && |parts| == 3 && !IsDecimal(parts[k])
    ensures ReadDate(parts).Err? && ReadDate(parts).error.NotAnInteger?
  {
  }

  /**
   * The catalog entries whose name contains the pattern anywhere (not only as
   * a prefix), in catalog order: `[e for e in catalog if glob in e]`.
   */
  function SelectIndices(glob: string, catalog: seq<string>): (r: seq<string>)
    ensures forall x :: x in r <==> x in catalog && Contains(x, glob)
    ensures forall x :: multiset(r)[x] == if Contains(x, glob) then multiset(catalog)[x] else 0
    ensures IsSubsequence(r, catalog)
  {
    FilterCount(x => Contains(x, glob), catalog);
    Filter(x => Contains(x, glob), catalog)
  }

  /** Selection works entry by entry: selecting from a concatenation concatenates the selections. */
  lemma SelectAppend(glob: string, a: seq<string>, b: seq<string>)
    ensures SelectIndices(glob, a + b) == SelectIndices(glob, a) + SelectIndices(glob, b)
  {
    FilterAppend(x => Contains(x, glob), a, b);
  }

  /** Selecting again with the same pattern changes nothing. */
  lemma SelectIdempotent(glob: string, catalog: seq<string>)
    ensures SelectIndices(glob, SelectIndices(glob, catalog)) == SelectIndices(glob, catalog)
  {
    FilterIdempotent(x => Contains(x, glob), catalog);
  }

  /** A name that contains the pattern, wherever, is selected; `<glob>-…` names in particular. */
  lemma PrefixedNameSelected(glob: string, rest: string)
    ensures Contains(glob + rest, glob)
  {
    assert (glob + rest)[..|glob|] == glob;
  }

  /** Every daily index name of the pattern is selected. */
  lemma IndexNameSelected(glob: string, d: Date)
    requires IsValid(d)
    ensures Contains(IndexName(glob, d), glob)
  {
    var rest := "-" + DottedDate(ZeroPad(d.year, 4), ZeroPad(d.month, 2), ZeroPad(d.day, 2));
    PrefixedNameSelected(glob, rest);
    assert IndexName(glob, d) == glob + rest;
  }

  /** A catalog made only of names containing the pattern is selected whole. */
  lemma SelectAll(glob: string, catalog: seq<string>)
    requires forall x :: x in catalog ==> Contains(x, glob)
    ensures SelectIndices(glob, catalog) == catalog
  {
    FilterAll(x => Contains(x, glob), catalog);
  }
}
