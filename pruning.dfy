/**
 * The pruning run: list the catalog, then, name by name in catalog order,
 * extract the date, compare its age with the retention window and send a
 * DELETE for every index that is strictly older. A malformed name, a failed
 * listing or an unreachable server ends the run with exit status 1; a DELETE
 * answered with a status other than 200 only skips that index.
 *
 * The search engine is represented by what it answers: the catalog response is
 * an input, and `server(name)` is the answer to `DELETE <host>/<name>`.
 */
module Pruning {
  import opened Results
  import opened Sequences
  import opened Text
  import opened Calendar
  import opened Configuration
  import opened IndexNames

  /** The answer to `GET <host>/_cat/indices?format=json`: no connection, or a status with the `index` fields of the body. */
  datatype CatalogResponse = CatalogDown | CatalogReply(status: int, names: seq<string>)

  /** The answer to `DELETE <host>/<index>`: no connection, or a status. */
  datatype DeleteResponse = DeleteDown | DeleteReply(status: int)

  /** The conditions that end the run with exit status 1. */
  datatype Fatal =
    | CatalogUnreachable
    | CatalogRefused(status: int)
    | MalformedIndexName(name: string)
    | DeleteUnreachable(name: string)

  /**
   * What a run did: the DELETE requests it sent, in order; those answered with
   * 200; and the fatal condition that stopped it, if one did.
   */
  datatype Run = Run(requested: seq<string>, deleted: seq<string>, fatal: Option<Fatal>)

  const Start := Run([], [], None)

  /** The process exit status: 0 after the whole loop, 1 after a fatal condition. */
  function ExitCode(run: Run): (code: int)
    ensures code == 0 <==> run.fatal.None?
    ensures code == 1 <==> run.fatal.Some?
  {
    if run.fatal.None? then 0 else 1
  }

  /**
   * `get_indices`: a listing answered with 200 yields the names containing the
   * pattern, each as often as the catalog lists it, in catalog order; no
   * connection or any other status is fatal.
   */
  function GetIndices(glob: string, response: CatalogResponse): (r: Result<seq<string>, Fatal>)
    ensures r.Ok? <==> response.CatalogReply? && response.status == 200
    ensures r.Ok? ==> r.value == SelectIndices(glob, response.names)
    ensures r.Ok? ==> forall x :: x in r.value <==> x in response.names && Contains(x, glob)
    ensures r.Ok? ==> forall x :: multiset(r.value)[x] == if Contains(x, glob) then multiset(response.names)[x] else 0
    ensures r.Ok? ==> IsSubsequence(r.value, response.names)
  {
    match response
    case CatalogDown => Err(CatalogUnreachable)
    case CatalogReply(status, names) =>
      if status != 200 then Err(CatalogRefused(status)) else Ok(SelectIndices(glob, names))
  }

  /**
   * `delete_index`: returns 0 when the server answers 200, 1 for any other
   * status; no connection is fatal.
   */
  function DeleteIndex(response: DeleteResponse, name: string): (r: Result<int, Fatal>)
    ensures r == Ok(0) <==> response == DeleteReply(200)
    ensures r == Ok(1) <==> response.DeleteReply? && response.status != 200
    ensures r == Err(DeleteUnreachable(name)) <==> response == DeleteDown
  {
    match response
    case DeleteDown => Err(DeleteUnreachable(name))
    case DeleteReply(status) => if status != 200 then Ok(1) else Ok(0)
  }

  /**
   * The retention rule: the index is older than the window, strictly. An index
   * exactly as old as the window is kept, and with a window of zero days or
   * more only an index dated before today can be stale.
   */
  predicate IsStale(today: Date, d: Date, keep: int)
    requires IsValid(today) && IsValid(d)
    ensures AgeDays(today, d) == keep ==> !IsStale(today, d, keep)
    ensures keep >= 0 && IsStale(today, d, keep) ==> Before(d, today)
  {
    AgeDays(today, d) > keep
  }

  /**
   * An index whose name carries a date that the retention rule condemns; with a
   * window of zero days or more, that date is before today.
   */
  predicate IsStaleName(settings: Settings, today: Date, name: string)
    requires IsValid(today)
    ensures IsStaleName(settings, today, name) ==>
      var parsed := ParseIndexDate(settings.indexGlob, name);
      parsed.Ok? && (settings.daysToKeep >= 0 ==> Before(parsed.value, today))
  {
    var parsed := ParseIndexDate(settings.indexGlob, name);
    parsed.Ok? && IsStale(today, parsed.value, settings.daysToKeep)
  }

  /** One pass of the loop body of `delete_old_indices`, applied to the run so far; a stopped run stays as it is. */
  function Step(settings: Settings, today: Date, server: string -> DeleteResponse, run: Run, name: string): (r: Run)
    requires IsValid(today)
    ensures run.requested <= r.requested && run.deleted <= r.deleted
    ensures run.fatal.Some? ==> r == run
  {
    if run.fatal.Some? then run
    else match ParseIndexDate(settings.indexGlob, name)
      case Err(_) => run.(fatal := Some(MalformedIndexName(name)))
      case Ok(d) =>
        if !IsStale(today, d, settings.daysToKeep) then run
        else match DeleteIndex(server(name), name)
          case Err(f) => run.(requested := run.requested + [name], fatal := Some(f))
          case Ok(code) =>
            if code == 0 then run.(requested := run.requested + [name], deleted := run.deleted + [name])
            else run.(requested := run.requested + [name])
  }

  /** A name without a readable date stops the run. */
  lemma StepMalformed(settings: Settings, today: Date, server: string -> DeleteResponse, run: Run, name: string)
    requires IsValid(today) && run.fatal.None?
    requires ParseIndexDate(settings.indexGlob, name).Err?
    ensures Step(settings, today, server, run, name) == run.(fatal := Some(MalformedIndexName(name)))
  {
  }

  /** A name whose date is within the window leaves the run as it is. */
  lemma StepKeeps(settings: Settings, today: Date, server: string -> DeleteResponse, run: Run, name: string)
    requires IsValid(today) && run.fatal.None?
    requires ParseIndexDate(settings.indexGlob, name).Ok? && !IsStaleName(settings, today, name)
    ensures Step(settings, today, server, run, name) == run
  {
  }

  /** A stale name is sent for deletion and, when the server answers 200, counted as deleted. */
  lemma StepDeletes(settings: Settings, today: Date, server: string -> DeleteResponse, run: Run, name: string)
    requires IsValid(today) && run.fatal.None?
    requires IsStaleName(settings, today, name) && server(name) == DeleteReply(200)
    ensures Step(settings, today, server, run, name) == Run(run.requested + [name], run.deleted + [name], None)
  {
  }

  /** A stale name answered with another status is sent, skipped, and the run goes on. */
  lemma StepSkips(settings: Settings, today: Date, server: string -> DeleteResponse, run: Run, name: string)
    requires IsValid(today) && run.fatal.None?
    requires IsStaleName(settings, today, name) && server(name).DeleteReply? && server(name).status != 200
    ensures Step(settings, today, server, run, name) == Run(run.requested + [name], run.deleted, None)
  {
  }

  /** A stale name whose DELETE finds no server stops the run. */
  lemma StepUnreachable(settings: Settings, today: Date, server: string -> DeleteResponse, run: Run, name: string)
    requires IsValid(today) && run.fatal.None?
    requires IsStaleName(settings, today, name) && server(name) == DeleteDown
    ensures Step(settings, today, server, run, name) == Run(run.requested + [name], run.deleted, Some(DeleteUnreachable(name)))
  {
  }

  /** The five cases of one pass over a run that has not stopped. */
  lemma StepCases(settings: Settings, today: Date, server: string -> DeleteResponse, run: Run, name: string)
    requires IsValid(today) && run.fatal.None?
    ensures var r := Step(settings, today, server, run, name);
      (ParseIndexDate(settings.indexGlob, name).Err? ==> r == run.(fatal := Some(MalformedIndexName(name)))) &&
      (ParseIndexDate(settings.indexGlob, name).Ok? && !IsStaleName(settings, today, name) ==> r == run) &&
      (IsStaleName(settings, today, name) ==> r.requested == run.requested + [name]) &&
      (IsStaleName(settings, today, name) ==>
        r.deleted == if server(name) == DeleteReply(200) then run.deleted + [name] else run.deleted)
  {
    if ParseIndexDate(settings.indexGlob, name).Err? {
      StepMalformed(settings, today, server, run, name);
    } else if !IsStaleName(settings, today, name) {
      StepKeeps(settings, today, server, run, name);
    } else if server(name) == DeleteDown {
      StepUnreachable(settings, today, server, run, name);
    } else if server(name) == DeleteReply(200) {
      StepDeletes(settings, today, server, run, name);
    } else {
      StepSkips(settings, today, server, run, name);
    }
  }

  /**
   * The loop of `delete_old_indices` over `names`, from the run so far. It only
   * ever appends to what was requested and deleted, and a stopped run is final.
   */
  function Prune(settings: Settings, today: Date, server: string -> DeleteResponse, run: Run, names: seq<string>): (r: Run)
    requires IsValid(today)
    ensures run.requested <= r.requested && run.deleted <= r.deleted
    ensures run.fatal.Some? ==> r == run
    decreases |names|
  {
    if names == [] then run
    else Prune(settings, today, server, Step(settings, today, server, run, names[0]), names[1..])
  }

  /**
   * `delete_old_indices` as a whole: list the catalog, then run the loop over
   * the selected names. A failed listing ends the run before any DELETE.
   */
  function PruneRun(settings: Settings, today: Date, catalog: CatalogResponse, server: string -> DeleteResponse): (r: Run)
    requires IsValid(today)
    ensures !(catalog.CatalogReply? && catalog.status == 200) ==> r.requested == [] && r.deleted == [] && ExitCode(r) == 1
    ensures catalog.CatalogReply? && catalog.status == 200 ==>
      r == Prune(settings, today, server, Start, SelectIndices(settings.indexGlob, catalog.names))
  {
    match GetIndices(settings.indexGlob, catalog)
    case Err(f) => Run([], [], Some(f))
    case Ok(names) => Prune(settings, today, server, Start, names)
  }

  /**
   * The script: merge the options into the defaults, then prune. Every DELETE
   * it sends names a catalog entry that is stale under the merged settings.
   */
  function Script(args: Args, today: Date, catalog: CatalogResponse, server: string -> DeleteResponse): (r: Run)
    requires IsValid(today)
    ensures forall n :: n in r.requested ==>
      catalog.CatalogReply? && n in catalog.names && IsStaleName(Merge(Defaults, args), today, n)
  {
    RunSendsOnlyStale(Merge(Defaults, args), today, catalog, server);
    PruneRun(Merge(Defaults, args), today, catalog, server)
  }

  /** Without options the script prunes with the defaults. */
  lemma ScriptNoArgs(today: Date, catalog: CatalogResponse, server: string -> DeleteResponse)
    requires IsValid(today)
    ensures Script(NoArgs, today, catalog, server) == PruneRun(Defaults, today, catalog, server)
  {
    MergeNoArgs(Defaults);
  }

  /** `-d 0` is falsy: the whole run is the run without `-d`, which keeps seven days unless the defaults change. */
  lemma ScriptZeroDays(args: Args, today: Date, catalog: CatalogResponse, server: string -> DeleteResponse)
    requires IsValid(today)
    ensures Script(args.(daysToKeep := Some(0)), today, catalog, server) == Script(args.(daysToKeep := None), today, catalog, server)
    ensures Merge(Defaults, args.(daysToKeep := Some(0))).daysToKeep == 7
  {
    FalsyKeepsDefault(args.(daysToKeep := Some(0)));
  }

  /**
   * `delete_old_indices`: walks the selected names in order, sends a DELETE for
   * each stale one and stops at the first malformed name or unreachable server.
   */
  method DeleteOldIndices(settings: Settings, today: Date, catalog: CatalogResponse, server: string -> DeleteResponse)
    returns (run: Run)
    requires IsValid(today)
    ensures run == PruneRun(settings, today, catalog, server)
  {
    var listing := GetIndices(settings.indexGlob, catalog);
    if listing.Err? {
      return Run([], [], Some(listing.error));
    }
    var names := listing.value;
    run := Start;
    var i := 0;
    while i < |names|
      invariant 0 <= i <= |names|
      invariant run.fatal.None?
      invariant Prune(settings, today, server, run, names[i..]) == Prune(settings, today, server, Start, names)
    {
      var name := names[i];
      assert names[i..][1..] == names[i + 1..];
      var parsed := ParseIndexDate(settings.indexGlob, name);
      if parsed.Err? {
        run := run.(fatal := Some(MalformedIndexName(name)));
        return;
      }
      var age := AgeDays(today, parsed.value);
      if age > settings.daysToKeep {
        var status := DeleteIndex(server(name), name);
        if status.Err? {
          run := run.(requested := run.requested + [name], fatal := Some(status.error));
          return;
        }
        if status.value == 0 {
          run := run.(requested := run.requested + [name], deleted := run.deleted + [name]);
        } else {
          run := run.(requested := run.requested + [name]);
        }
      }
      i := i + 1;
    }
  }

  /** Running the loop over `a + b` is running it over `a` and then over `b`. */
  lemma {:induction false} PruneAppend(settings: Settings, today: Date, server: string -> DeleteResponse, run: Run, a: seq<string>, b: seq<string>)
    requires IsValid(today)
    ensures Prune(settings, today, server, run, a + b)
      == Prune(settings, today, server, Prune(settings, today, server, run, a), b)
    decreases |a|
  {
    if a == [] {
      assert a + b == b;
    } else {
      assert (a + b)[1..] == a[1..] + b;
      PruneAppend(settings, today, server, Step(settings, today, server, run, a[0]), a[1..], b);
    }
  }

  /** The names among `names` that will be sent for deletion, in order. */
  function StaleNames(settings: Settings, today: Date, names: seq<string>): (r: seq<string>)
    requires IsValid(today)
    ensures forall n :: n in r <==> n in names && IsStaleName(settings, today, n)
    ensures IsSubsequence(r, names)
  {
    Filter(n => IsStaleName(settings, today, n), names)
  }

  /** The stale names of a listing: its first name when that is stale, then the stale names of the rest. */
  lemma StaleNamesCons(settings: Settings, today: Date, names: seq<string>)
    requires IsValid(today) && names != []
    ensures StaleNames(settings, today, names)
      == (if IsStaleName(settings, today, names[0]) then [names[0]] else []) + StaleNames(settings, today, names[1..])
  {
    AppendEmpty(StaleNames(settings, today, names[1..]));
  }

  /** A listing of stale names only is sent whole. */
  lemma {:induction false} AllStale(settings: Settings, today: Date, names: seq<string>)
    requires IsValid(today)
    requires forall n :: n in names ==> IsStaleName(settings, today, n)
    ensures StaleNames(settings, today, names) == names
    decreases |names|
  {
    if names != [] {
      StaleNamesCons(settings, today, names);
      assert names[0] in names;
      assert forall n :: n in names[1..] ==> n in names;
      AllStale(settings, today, names[1..]);
      HeadTail(names);
    }
  }

  /** The names among `names` whose DELETE the server answers with 200, in order. */
  function Accepted(server: string -> DeleteResponse, names: seq<string>): (r: seq<string>)
    ensures forall n :: n in r <==> n in names && server(n) == DeleteReply(200)
    ensures IsSubsequence(r, names)
  {
    Filter(n => server(n) == DeleteReply(200), names)
  }

  /** Every name carries a date, and the server is reachable for every stale one. */
  predicate Clean(settings: Settings, today: Date, server: string -> DeleteResponse, names: seq<string>)
    requires IsValid(today)
  {
    forall n :: n in names ==> CleanName(settings, today, server, n)
  }

  /** The name carries a date, and if it is stale the server is reachable for its DELETE. */
  predicate CleanName(settings: Settings, today: Date, server: string -> DeleteResponse, name: string)
    requires IsValid(today)
  {
    ParseIndexDate(settings.indexGlob, name).Ok? && (IsStaleName(settings, today, name) ==> server(name) != DeleteDown)
  }

  /**
   * Strict retention and per-item skip: when no name is malformed and the
   * server is reachable, the run sends a DELETE for exactly the stale names, in
   * order, and goes on past every non-200 answer; the deleted ones are those
   * answered with 200.
   */
  lemma {:induction false} CleanRun(settings: Settings, today: Date, server: string -> DeleteResponse, run: Run, names: seq<string>)
    requires IsValid(today) && run.fatal.None?
    requires Clean(settings, today, server, names)
    ensures var stale := StaleNames(settings, today, names);
      Prune(settings, today, server, run, names)
        == Run(run.requested + stale, run.deleted + Accepted(server, stale), None)
    decreases |names|
  {
    if names == [] {
      AppendEmpty(run.requested);
      AppendEmpty(run.deleted);
    } else {
      CleanTail(settings, today, server, names);
      if IsStaleName(settings, today, names[0]) {
        CleanHeadStale(settings, today, server, run, names);
      } else {
        CleanHeadKept(settings, today, server, run, names);
      }
      CleanRun(settings, today, server, Step(settings, today, server, run, names[0]), names[1..]);
    }
  }

  /** The names after the first of a clean listing are clean, and so is the first. */
  lemma CleanTail(settings: Settings, today: Date, server: string -> DeleteResponse, names: seq<string>)
    requires IsValid(today) && names != []
    requires Clean(settings, today, server, names)
    ensures Clean(settings, today, server, names[1..])
    ensures CleanName(settings, today, server, names[0])
  {
    assert names[0] in names;
    forall n | n in names[1..] ensures n in names {
    }
  }

  /** A clean stale first name: what the rest of the run adds after it is what the whole run adds. */
  lemma CleanHeadStale(settings: Settings, today: Date, server: string -> DeleteResponse, run: Run, names: seq<string>)
    requires IsValid(today) && run.fatal.None? && names != []
    requires IsStaleName(settings, today, names[0]) && server(names[0]) != DeleteDown
    ensures var next := Step(settings, today, server, run, names[0]);
      var stale := StaleNames(settings, today, names[1..]);
      var all := StaleNames(settings, today, names);
      next.fatal.None? &&
      next.requested + stale == run.requested + all &&
      next.deleted + Accepted(server, stale) == run.deleted + Accepted(server, all)
  {
    var name, stale := names[0], StaleNames(settings, today, names[1..]);
    StaleStepRequested(settings, today, server, run, name, stale);
    StaleStepDeleted(settings, today, server, run, name, stale);
    HeadTail(names);
    assert StaleNames(settings, today, names) == [name] + stale;
  }

  /** A kept first name adds nothing. */
  lemma CleanHeadKept(settings: Settings, today: Date, server: string -> DeleteResponse, run: Run, names: seq<string>)
    requires IsValid(today) && run.fatal.None? && names != []
    requires ParseIndexDate(settings.indexGlob, names[0]).Ok? && !IsStaleName(settings, today, names[0])
    ensures Step(settings, today, server, run, names[0]) == run
    ensures StaleNames(settings, today, names) == StaleNames(settings, today, names[1..])
  {
    StepKeeps(settings, today, server, run, names[0]);
    HeadTail(names);
  }

  /** A stale name with a reachable server is sent, and the run goes on. */
  lemma StaleStepRequested(settings: Settings, today: Date, server: string -> DeleteResponse, run: Run, name: string, stale: seq<string>)
    requires IsValid(today) && run.fatal.None?
    requires IsStaleName(settings, today, name) && server(name) != DeleteDown
    ensures Step(settings, today, server, run, name).fatal.None?
    ensures Step(settings, today, server, run, name).requested + stale == run.requested + ([name] + stale)
  {
    if server(name) == DeleteReply(200) {
      StepDeletes(settings, today, server, run, name);
    } else {
      StepSkips(settings, today, server, run, name);
    }
    AppendAssociative(run.requested, [name], stale);
  }

  /** A stale name with a reachable server counts as deleted exactly when the server answers 200. */
  lemma StaleStepDeleted(settings: Settings, today: Date, server: string -> DeleteResponse, run: Run, name: string, stale: seq<string>)
    requires IsValid(today) && run.fatal.None?
    requires IsStaleName(settings, today, name) && server(name) != DeleteDown
    ensures Step(settings, today, server, run, name).deleted + Accepted(server, stale)
      == run.deleted + Accepted(server, [name] + stale)
  {
    AcceptedCons(server, name, stale);
    if server(name) == DeleteReply(200) {
      StepDeletes(settings, today, server, run, name);
    } else {
      StepSkips(settings, today, server, run, name);
    }
  }

  /** The accepted names of `[name] + rest`: `name` first when the server answers 200 for it. */
  lemma AcceptedCons(server: string -> DeleteResponse, name: string, rest: seq<string>)
    ensures Accepted(server, [name] + rest)
      == (if server(name) == DeleteReply(200) then [name] else []) + Accepted(server, rest)
  {
    assert ([name] + rest)[1..] == rest;
  }

  /**
   * Ordered abort: when the first malformed name is `names[k]` and nothing
   * before it stopped the run, every stale name before it has been sent for
   * deletion, and no name from `names[k]` on is touched.
   */
  lemma OrderedAbort(settings: Settings, today: Date, server: string -> DeleteResponse, names: seq<string>, k: nat)
    requires IsValid(today) && k < |names|
    requires Clean(settings, today, server, names[..k])
    requires ParseIndexDate(settings.indexGlob, names[k]).Err?
    ensures var stale := StaleNames(settings, today, names[..k]);
      Prune(settings, today, server, Start, names)
        == Run(stale, Accepted(server, stale), Some(MalformedIndexName(names[k])))
  {
    var prefix, tail := names[..k], names[k..];
    TakeDrop(names, k);
    PruneAppend(settings, today, server, Start, prefix, tail);
    CleanRun(settings, today, server, Start, prefix);
    var stale := StaleNames(settings, today, prefix);
    var mid := Run(stale, Accepted(server, stale), None);
    AppendEmpty(stale);
    AppendEmpty(Accepted(server, stale));
    StepMalformed(settings, today, server, mid, names[k]);
    assert tail[0] == names[k];
  }

  /**
   * An unreachable server on a DELETE ends the run at that name: every earlier
   * stale name was sent, this one was attempted, and no later name is touched.
   */
  lemma DeleteUnreachableAborts(settings: Settings, today: Date, server: string -> DeleteResponse, names: seq<string>, k: nat)
    requires IsValid(today) && k < |names|
    requires Clean(settings, today, server, names[..k])
    requires IsStaleName(settings, today, names[k]) && server(names[k]) == DeleteDown
    ensures var stale := StaleNames(settings, today, names[..k]);
      Prune(settings, today, server, Start, names)
        == Run(stale + [names[k]], Accepted(server, stale), Some(DeleteUnreachable(names[k])))
  {
    var prefix, tail := names[..k], names[k..];
    TakeDrop(names, k);
    PruneAppend(settings, today, server, Start, prefix, tail);
    CleanRun(settings, today, server, Start, prefix);
    var stale := StaleNames(settings, today, prefix);
    var mid := Run(stale, Accepted(server, stale), None);
    AppendEmpty(stale);
    AppendEmpty(Accepted(server, stale));
    StepUnreachable(settings, today, server, mid, names[k]);
    assert tail[0] == names[k];
  }

  /** Every DELETE sent so far names a stale index of `names`; every deletion was answered with 200. */
  predicate SentOnlyStale(settings: Settings, today: Date, server: string -> DeleteResponse, run: Run, names: seq<string>)
    requires IsValid(today)
  {
    (forall n :: n in run.requested ==> n in names && IsStaleName(settings, today, n)) &&
    (forall n :: n in run.deleted ==> n in names && server(n) == DeleteReply(200))
  }

  /** One pass over a name of `names` sends a DELETE only if that name is stale. */
  lemma StepSendsOnlyStale(settings: Settings, today: Date, server: string -> DeleteResponse, run: Run, name: string, names: seq<string>)
    requires IsValid(today) && name in names
    requires SentOnlyStale(settings, today, server, run, names)
    ensures SentOnlyStale(settings, today, server, Step(settings, today, server, run, name), names)
  {
    if run.fatal.None? {
      StepCases(settings, today, server, run, name);
    }
  }

  /** The loop over names drawn from `names` sends a DELETE only for stale names. */
  lemma {:induction false} PruneSendsOnlyStale(settings: Settings, today: Date, server: string -> DeleteResponse, run: Run, rest: seq<string>, names: seq<string>)
    requires IsValid(today)
    requires forall n :: n in rest ==> n in names
    requires SentOnlyStale(settings, today, server, run, names)
    ensures SentOnlyStale(settings, today, server, Prune(settings, today, server, run, rest), names)
    decreases |rest|
  {
    if rest != [] {
      StepSendsOnlyStale(settings, today, server, run, rest[0], names);
      PruneSendsOnlyStale(settings, today, server, Step(settings, today, server, run, rest[0]), rest[1..], names);
    }
  }

  /**
   * Whatever happens, a DELETE is only ever sent for a catalog name that
   * contains the pattern and carries a stale date, and only a name the server
   * accepted with 200 counts as deleted.
   */
  lemma RunSendsOnlyStale(settings: Settings, today: Date, catalog: CatalogResponse, server: string -> DeleteResponse)
    requires IsValid(today)
    ensures var r := PruneRun(settings, today, catalog, server);
      (forall n :: n in r.requested ==>
        catalog.CatalogReply? && n in catalog.names && Contains(n, settings.indexGlob) && IsStaleName(settings, today, n)) &&
      (forall n :: n in r.deleted ==> n in r.requested && server(n) == DeleteReply(200))
  {
    match GetIndices(settings.indexGlob, catalog)
    case Err(_) =>
    case Ok(names) =>
      PruneSendsOnlyStale(settings, today, server, Start, names, names);
      PruneDeletesOnlyRequested(settings, today, server, Start, names);
  }

  /** Every name that counts as deleted was also requested. */
  predicate DeletedWereRequested(run: Run) {
    forall n :: n in run.deleted ==> n in run.requested
  }

  /** One pass keeps every deleted name among the requested ones. */
  lemma StepDeletesOnlyRequested(settings: Settings, today: Date, server: string -> DeleteResponse, run: Run, name: string)
    requires IsValid(today) && DeletedWereRequested(run)
    ensures DeletedWereRequested(Step(settings, today, server, run, name))
  {
    if run.fatal.None? {
      StepCases(settings, today, server, run, name);
    }
  }

  /** The whole loop keeps every deleted name among the requested ones. */
  lemma {:induction false} PruneDeletesOnlyRequested(settings: Settings, today: Date, server: string -> DeleteResponse, run: Run, names: seq<string>)
    requires IsValid(today) && DeletedWereRequested(run)
    ensures DeletedWereRequested(Prune(settings, today, server, run, names))
    decreases |names|
  {
    if names != [] {
      StepDeletesOnlyRequested(settings, today, server, run, names[0]);
      PruneDeletesOnlyRequested(settings, today, server, Step(settings, today, server, run, names[0]), names[1..]);
    }
  }

  /** A day later, an index is one day older: staleness never wears off. */
  lemma StaleStaysStale(today: Date, d: Date, keep: int)
    requires IsValid(today) && IsValid(d) && today != Date(MaxYear, 12, 31)
    requires IsStale(today, d, keep)
    ensures IsStale(NextDay(today), d, keep)
  {
    OrdinalNextDay(today);
  }

  /** A run that reaches a malformed name ends with exit status 1 whatever came before. */
  lemma MalformedNameStops(settings: Settings, today: Date, server: string -> DeleteResponse, run: Run, name: string, rest: seq<string>)
    requires IsValid(today) && run.fatal.None?
    requires ParseIndexDate(settings.indexGlob, name).Err?
    ensures Prune(settings, today, server, run, [name] + rest) == run.(fatal := Some(MalformedIndexName(name)))
  {
    assert ([name] + rest)[1..] == rest;
  }
}
