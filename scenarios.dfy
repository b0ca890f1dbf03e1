/**
 * Whole runs on concrete listings of daily indices, with today 2024-03-10 and
 * seven days kept: the retention example, a DELETE answered with 404 in the
 * middle of a run, and an impossible date that stops the run.
 */
module Scenarios {
  import opened Results
  import opened Sequences
  import opened Text
  import opened Calendar
  import opened Configuration
  import opened IndexNames
  import opened Pruning

  const Today := Date(2024, 3, 10)

  /** The loop over `[name] + rest` is one pass over `name`, then the loop over `rest`. */
  lemma PruneCons(settings: Settings, today: Date, server: string -> DeleteResponse, run: Run, names: seq<string>)
    requires IsValid(today) && names != []
    ensures Prune(settings, today, server, run, names)
      == Prune(settings, today, server, Step(settings, today, server, run, names[0]), names[1..])
  {
  }

  /** A listing of three daily index names of the pattern, answered with 200, is selected whole. */
  lemma ListThree(settings: Settings, a: Date, b: Date, c: Date)
    requires IsValid(a) && IsValid(b) && IsValid(c)
    ensures var g := settings.indexGlob;
      var names := [IndexName(g, a), IndexName(g, b), IndexName(g, c)];
      GetIndices(g, CatalogReply(200, names)) == Ok(names)
  {
    var g := settings.indexGlob;
    IndexNameSelected(g, a);
    IndexNameSelected(g, b);
    IndexNameSelected(g, c);
    SelectAll(g, [IndexName(g, a), IndexName(g, b), IndexName(g, c)]);
  }

  /** The ages, on 2024-03-10, of the indices of March 1, 5 and 9. */
  lemma MarchAges()
    ensures AgeDays(Today, Date(2024, 3, 1)) == 9
    ensures AgeDays(Today, Date(2024, 3, 5)) == 5
    ensures AgeDays(Today, Date(2024, 3, 9)) == 1
  {
  }

  /** The daily index of date `d` is stale exactly when `d` is older than the window. */
  lemma DailyIndexStale(settings: Settings, today: Date, d: Date)
    requires IsValid(today) && IsValid(d)
    ensures var name := IndexName(settings.indexGlob, d);
      ParseIndexDate(settings.indexGlob, name).Ok? &&
      (IsStaleName(settings, today, name) <==> AgeDays(today, d) > settings.daysToKeep)
  {
    IndexNameRoundTrip(settings.indexGlob, d);
  }

  /** A listing whose first name is stale and accepted, and whose other two are kept. */
  lemma FirstOfThreeDeleted(settings: Settings, today: Date, server: string -> DeleteResponse, a: string, b: string, c: string)
    requires IsValid(today)
    requires IsStaleName(settings, today, a) && server(a) == DeleteReply(200)
    requires ParseIndexDate(settings.indexGlob, b).Ok? && !IsStaleName(settings, today, b)
    requires ParseIndexDate(settings.indexGlob, c).Ok? && !IsStaleName(settings, today, c)
    ensures Prune(settings, today, server, Start, [a, b, c]) == Run([a], [a], None)
  {
    CleanThree(settings, today, server, a, b, c);
    CleanRun(settings, today, server, Start, [a, b, c]);
    OnlyFirstStale(settings, today, a, b, c);
    AcceptedCons(server, a, []);
    AppendEmpty([a]);
  }

  /** Three names that all carry a date, with a reachable server for the stale ones, make a clean listing. */
  lemma CleanThree(settings: Settings, today: Date, server: string -> DeleteResponse, a: string, b: string, c: string)
    requires IsValid(today)
    requires CleanName(settings, today, server, a) && CleanName(settings, today, server, b) && CleanName(settings, today, server, c)
    ensures Clean(settings, today, server, [a, b, c])
  {
  }

  /** When only the first of three names is stale, it is the only one sent. */
  lemma OnlyFirstStale(settings: Settings, today: Date, a: string, b: string, c: string)
    requires IsValid(today)
    requires IsStaleName(settings, today, a) && !IsStaleName(settings, today, b) && !IsStaleName(settings, today, c)
    ensures StaleNames(settings, today, [a, b, c]) == [a]
  {
    var names := [a, b, c];
    StaleNamesCons(settings, today, names);
    StaleNamesCons(settings, today, names[1..]);
    StaleNamesCons(settings, today, names[2..]);
    assert names[1..][1..] == names[2..] && names[2..][1..] == [];
    AppendEmpty([a]);
  }

  /**
   * Of the indices of March 1, 5 and 9 (ages 9, 5 and 1) only the first is
   * deleted, and the run ends normally.
   */
  lemma RetentionExample(settings: Settings, server: string -> DeleteResponse)
    requires settings.daysToKeep == 7
    requires server(IndexName(settings.indexGlob, Date(2024, 3, 1))) == DeleteReply(200)
    ensures var g := settings.indexGlob;
      var names := [IndexName(g, Date(2024, 3, 1)), IndexName(g, Date(2024, 3, 5)), IndexName(g, Date(2024, 3, 9))];
      var r := PruneRun(settings, Today, CatalogReply(200, names), server);
      r == Run([names[0]], [names[0]], None) && ExitCode(r) == 0
  {
    var g := settings.indexGlob;
    ListThree(settings, Date(2024, 3, 1), Date(2024, 3, 5), Date(2024, 3, 9));
    MarchAges();
    DailyIndexStale(settings, Today, Date(2024, 3, 1));
    DailyIndexStale(settings, Today, Date(2024, 3, 5));
    DailyIndexStale(settings, Today, Date(2024, 3, 9));
    FirstOfThreeDeleted(settings, Today, server,
      IndexName(g, Date(2024, 3, 1)), IndexName(g, Date(2024, 3, 5)), IndexName(g, Date(2024, 3, 9)));
  }

  /** The ages, on 2024-03-10, of the indices of February 28, March 1 and March 2. */
  lemma LeapAges()
    ensures AgeDays(Today, Date(2024, 2, 28)) == 11
    ensures AgeDays(Today, Date(2024, 3, 1)) == 9
    ensures AgeDays(Today, Date(2024, 3, 2)) == 8
  {
  }

  /** The server accepts the first and the last of three names and refuses the middle one. */
  lemma MiddleRefused(server: string -> DeleteResponse, a: string, b: string, c: string)
    requires server(a) == DeleteReply(200) && server(b) == DeleteReply(404) && server(c) == DeleteReply(200)
    ensures Accepted(server, [a, b, c]) == [a, c]
  {
    AcceptedCons(server, c, []);
    AppendEmpty([c]);
    assert Accepted(server, [c]) == [c] by { assert [c] + [] == [c]; }
    AcceptedCons(server, b, [c]);
    assert Accepted(server, [b, c]) == [c] by { assert [b] + [c] == [b, c]; }
    AcceptedCons(server, a, [b, c]);
    assert [a] + [b, c] == [a, b, c];
  }

  /**
   * Per-item skip: the indices of February 28, March 1 and March 2 (ages 11, 9
   * and 8) are all stale; the DELETE of the middle one is answered with 404, so
   * it is skipped, the run goes on, the other two are deleted and the run ends
   * normally.
   */
  lemma SkipExample(settings: Settings, server: string -> DeleteResponse)
    requires settings.daysToKeep == 7
    requires var g := settings.indexGlob;
      server(IndexName(g, Date(2024, 2, 28))) == DeleteReply(200) &&
      server(IndexName(g, Date(2024, 3, 1))) == DeleteReply(404) &&
      server(IndexName(g, Date(2024, 3, 2))) == DeleteReply(200)
    ensures var g := settings.indexGlob;
      var a, b, c := IndexName(g, Date(2024, 2, 28)), IndexName(g, Date(2024, 3, 1)), IndexName(g, Date(2024, 3, 2));
      var r := PruneRun(settings, Today, CatalogReply(200, [a, b, c]), server);
      r == Run([a, b, c], [a, c], None) && ExitCode(r) == 0
  {
    var g := settings.indexGlob;
    var a, b, c := IndexName(g, Date(2024, 2, 28)), IndexName(g, Date(2024, 3, 1)), IndexName(g, Date(2024, 3, 2));
    ListThree(settings, Date(2024, 2, 28), Date(2024, 3, 1), Date(2024, 3, 2));
    LeapAges();
    DailyIndexStale(settings, Today, Date(2024, 2, 28));
    DailyIndexStale(settings, Today, Date(2024, 3, 1));
    DailyIndexStale(settings, Today, Date(2024, 3, 2));
    MiddleSkipped(settings, Today, server, a, b, c);
  }

  /** Three stale names, the middle one refused: all three are sent and the other two deleted. */
  lemma MiddleSkipped(settings: Settings, today: Date, server: string -> DeleteResponse, a: string, b: string, c: string)
    requires IsValid(today)
    requires IsStaleName(settings, today, a) && IsStaleName(settings, today, b) && IsStaleName(settings, today, c)
    requires server(a) == DeleteReply(200) && server(b) == DeleteReply(404) && server(c) == DeleteReply(200)
    ensures Prune(settings, today, server, Start, [a, b, c]) == Run([a, b, c], [a, c], None)
  {
    CleanThree(settings, today, server, a, b, c);
    CleanRun(settings, today, server, Start, [a, b, c]);
    AllStale(settings, today, [a, b, c]);
    MiddleRefused(server, a, b, c);
    AppendEmpty([a, b, c]);
    AppendEmpty([a, c]);
  }

  /** `<glob>-2023.02.29`, however the digits are padded, names no date: 2023 is not a leap year. */
  lemma LeapDayRejected(glob: string, y: string, m: string, d: string)
    requires IsDecimal(y) && IsDecimal(m) && IsDecimal(d)
    requires ValueOf(y) == 2023 && ValueOf(m) == 2 && ValueOf(d) == 29
    ensures ParseIndexDate(glob, glob + "-" + DottedDate(y, m, d)) == Err(NotACalendarDate(2023, 2, 29))
  {
    assert !IsLeap(2023) && !IsValid(Date(2023, 2, 29));
    ParseDigits(glob, y, m, d);
  }

  /**
   * Ordered abort: the catalog lists March 1, then `<glob>-latest`, which
   * carries no date, then March 9. All three contain the pattern and are
   * selected; March 1 is deleted, the undated name ends the run with exit
   * status 1, and March 9 is never examined.
   */
  lemma AbortExample(settings: Settings, server: string -> DeleteResponse)
    requires settings.daysToKeep == 7
    requires server(IndexName(settings.indexGlob, Date(2024, 3, 1))) == DeleteReply(200)
    ensures var g := settings.indexGlob;
      var a, bad, c := IndexName(g, Date(2024, 3, 1)), g + "-" + "latest", IndexName(g, Date(2024, 3, 9));
      var r := PruneRun(settings, Today, CatalogReply(200, [a, bad, c]), server);
      r == Run([a], [a], Some(MalformedIndexName(bad))) && ExitCode(r) == 1
  {
    var g := settings.indexGlob;
    var a, bad, c := IndexName(g, Date(2024, 3, 1)), g + "-" + "latest", IndexName(g, Date(2024, 3, 9));
    ListUndated(g, Date(2024, 3, 1), "latest", Date(2024, 3, 9));
    LatestIsUndated(g);
    MarchAges();
    DailyIndexStale(settings, Today, Date(2024, 3, 1));
    StopsAtSecond(settings, Today, server, a, bad, c);
  }

  /** A listing of two daily names of the pattern around `<glob>-<rest>` is selected whole. */
  lemma ListUndated(g: string, a: Date, rest: string, c: Date)
    requires IsValid(a) && IsValid(c)
    ensures var names := [IndexName(g, a), g + "-" + rest, IndexName(g, c)];
      GetIndices(g, CatalogReply(200, names)) == Ok(names)
  {
    IndexNameSelected(g, a);
    IndexNameSelected(g, c);
    PrefixedNameSelected(g, "-" + rest);
    AppendAssociative(g, "-", rest);
    SelectAll(g, [IndexName(g, a), g + "-" + rest, IndexName(g, c)]);
  }

  /** `<glob>-latest` carries no date. */
  lemma LatestIsUndated(g: string)
    ensures ParseIndexDate(g, g + "-" + "latest").Err?
  {
    var rest := "latest";
    assert '-' !in rest && '.' !in rest;
    UndatedNameMalformed(g, rest);
  }

  /** A stale, accepted first name and a malformed second one: the first is deleted and the run stops at the second. */
  lemma StopsAtSecond(settings: Settings, today: Date, server: string -> DeleteResponse, a: string, bad: string, c: string)
    requires IsValid(today)
    requires IsStaleName(settings, today, a) && server(a) == DeleteReply(200)
    requires ParseIndexDate(settings.indexGlob, bad).Err?
    ensures Prune(settings, today, server, Start, [a, bad, c]) == Run([a], [a], Some(MalformedIndexName(bad)))
  {
    var names := [a, bad, c];
    assert names[..1] == [a];
    assert Clean(settings, today, server, [a]);
    OrderedAbort(settings, today, server, names, 1);
    StaleNamesCons(settings, today, [a]);
    AppendEmpty([a]);
    AcceptedCons(server, a, []);
  }
}
