/**
 * The script's settings: module-level defaults, each replaced by its
 * command-line value only when that value is truthy in Python's sense
 * (a missing option is `None`; `0` and `''` are falsy as well).
 */
module Configuration {
  import opened Results

  datatype Settings = Settings(
    hostname: string,
    daysToKeep: int,
    indexGlob: string,
    logLevel: string,
    logFile: string)

  /** The options as `argparse` delivers them; `None` when a flag was not given. */
  datatype Args = Args(
    hostname: Option<string>,
    daysToKeep: Option<int>,
    index: Option<string>,
    logLevel: Option<string>,
    logFile: Option<string>)

  const Defaults := Settings("http://localhost:9200", 7, "filebeat", "error", "elasticprune.log")

  const NoArgs := Args(None, None, None, None, None)

  /** Python truthiness of an optional string: present and non-empty. */
  predicate TruthyText(o: Option<string>) {
    o.Some? && o.value != ""
  }

  /** Python truthiness of an optional integer: present and non-zero. */
  predicate TruthyInt(o: Option<int>) {
    o.Some? && o.value != 0
  }

  function TextOr(o: Option<string>, fallback: string): string {
    if TruthyText(o) then o.value else fallback
  }

  function IntOr(o: Option<int>, fallback: int): int {
    if TruthyInt(o) then o.value else fallback
  }

  /**
   * The settings after the five `if args.x: x = args.x` assignments run on top
   * of `base`. Every field either keeps its base value or takes a truthy value
   * given on the command line.
   */
  function Merge(base: Settings, args: Args): (s: Settings)
    ensures s.hostname == base.hostname || (TruthyText(args.hostname) && s.hostname == args.hostname.value)
    ensures s.daysToKeep == base.daysToKeep || (TruthyInt(args.daysToKeep) && s.daysToKeep == args.daysToKeep.value)
    ensures s.indexGlob == base.indexGlob || (TruthyText(args.index) && s.indexGlob == args.index.value)
    ensures s.logLevel == base.logLevel || (TruthyText(args.logLevel) && s.logLevel == args.logLevel.value)
    ensures s.logFile == base.logFile || (TruthyText(args.logFile) && s.logFile == args.logFile.value)
  {
    Settings(
      TextOr(args.hostname, base.hostname),
      IntOr(args.daysToKeep, base.daysToKeep),
      TextOr(args.index, base.indexGlob),
      TextOr(args.logLevel, base.logLevel),
      TextOr(args.logFile, base.logFile))
  }

  /** A truthy command-line value always wins over the base value. */
  lemma TruthyOverrides(base: Settings, args: Args)
    ensures TruthyText(args.hostname) ==> Merge(base, args).hostname == args.hostname.value
    ensures TruthyInt(args.daysToKeep) ==> Merge(base, args).daysToKeep == args.daysToKeep.value
    ensures TruthyText(args.index) ==> Merge(base, args).indexGlob == args.index.value
    ensures TruthyText(args.logLevel) ==> Merge(base, args).logLevel == args.logLevel.value
    ensures TruthyText(args.logFile) ==> Merge(base, args).logFile == args.logFile.value
  {
  }

  /** A missing or falsy value leaves the base value in place; `-d 0` keeps seven days. */
  lemma FalsyKeepsDefault(args: Args)
    ensures !TruthyText(args.hostname) ==> Merge(Defaults, args).hostname == "http://localhost:9200"
    ensures !TruthyInt(args.daysToKeep) ==> Merge(Defaults, args).daysToKeep == 7
    ensures !TruthyText(args.index) ==> Merge(Defaults, args).indexGlob == "filebeat"
    ensures !TruthyText(args.logLevel) ==> Merge(Defaults, args).logLevel == "error"
    ensures !TruthyText(args.logFile) ==> Merge(Defaults, args).logFile == "elasticprune.log"
  {
  }

  /** The merged settings never hold a retention of zero days nor an empty index pattern. */
  lemma MergedSettingsNonZero(args: Args)
    ensures Merge(Defaults, args).daysToKeep != 0
    ensures Merge(Defaults, args).indexGlob != ""
  {
  }

  /** Applying the same options twice changes nothing more than applying them once. */
  lemma MergeIdempotent(base: Settings, args: Args)
    ensures Merge(Merge(base, args), args) == Merge(base, args)
  {
  }

  /** Without options the defaults stand. */
  lemma MergeNoArgs(base: Settings)
    ensures Merge(base, NoArgs) == base
  {
  }
}
