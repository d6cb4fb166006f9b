/**
 * The argument dispatch of the todo tool's `main`, and `print_all`.
 *
 * `argv` is the whole argument vector, program name included, so `argc` is
 * `|argv|`. The outcome of a run is its exit status and the listing calls it
 * makes, in order. The listing functions themselves are stubs in this
 * revision of the tool, so a call is recorded by the path and the limit it
 * receives.
 */
module Dispatch {
  import opened Atoi

  /** The record file path handed to every listing, passed through uninterpreted. */
  const TodoPath: string := "~/.todo"

  const ExitSuccess: int := 0
  const ExitFailure: int := 1

  /** A call of `print_todo` or `print_done` with its file path and line limit. */
  datatype Call = PrintTodo(path: string, limit: int) | PrintDone(path: string, limit: int)

  datatype Outcome = Outcome(status: int, calls: seq<Call>)

  predicate IsAllFlag(flag: string) {
    flag == "-a" || flag == "--all"
  }

  predicate IsDoneFlag(flag: string) {
    flag == "-d" || flag == "--done"
  }

  predicate IsTodoFlag(flag: string) {
    flag == "-t" || flag == "--todo"
  }

  predicate IsListingFlag(flag: string) {
    IsAllFlag(flag) || IsDoneFlag(flag) || IsTodoFlag(flag)
  }

  /** `print_all`: the open records, then the closed ones, with one path and one limit. */
  function PrintAll(path: string, maxLines: int): (calls: seq<Call>)
    ensures |calls| == 2 && calls[0].PrintTodo? && calls[1].PrintDone?
    ensures forall c :: c in calls ==> c.path == path && c.limit == maxLines
  {
    [PrintTodo(path, maxLines), PrintDone(path, maxLines)]
  }

  /**
   * `main`: with fewer than two arguments nothing happens; with a flag and a
   * number the number is parsed strictly, 0 fails, and a listing flag selects
   * the listing; every other shape of the command line succeeds silently.
   */
  function Run(argv: seq<string>): (o: Outcome)
    ensures o.status == ExitSuccess || o.status == ExitFailure
    ensures o.status == ExitFailure <==> |argv| == 3 && ParsedValue(argv[2]) == 0
    ensures o.status == ExitFailure ==> o.calls == []
    ensures o.calls != [] <==> |argv| == 3 && ParsedValue(argv[2]) != 0 && IsListingFlag(argv[1])
    ensures |argv| == 3 ==> forall c :: c in o.calls ==> c.path == TodoPath && c.limit == ParsedValue(argv[2])
  {
    if |argv| < 2 then
      Outcome(ExitSuccess, [])
    else if |argv| == 3 then
      var arg := ParsedValue(argv[2]);
      if arg == 0 then
        Outcome(ExitFailure, [])
      else if IsAllFlag(argv[1]) then
        Outcome(ExitSuccess, PrintAll(TodoPath, arg))
      else if IsDoneFlag(argv[1]) then
        Outcome(ExitSuccess, [PrintDone(TodoPath, arg)])
      else if IsTodoFlag(argv[1]) then
        Outcome(ExitSuccess, [PrintTodo(TodoPath, arg)])
      else
        Outcome(ExitSuccess, [])
    else
      Outcome(ExitSuccess, [])
  }

  /** Without arguments the tool exits successfully and lists nothing. */
  lemma NoArgumentsSucceed(argv: seq<string>)
    requires |argv| < 2
    ensures Run(argv) == Outcome(ExitSuccess, [])
  {
  }

  /** A single argument, or more than two, is accepted and does nothing. */
  lemma OtherArgumentCountsDoNothing(argv: seq<string>)
    requires |argv| == 2 || |argv| > 3
    ensures Run(argv) == Outcome(ExitSuccess, [])
  {
  }

  /** A number that parses to 0 fails before the flag is looked at, whatever the flag. */
  lemma InvalidNumberFails(prog: string, flag: string, number: string)
    requires ParsedValue(number) == 0
    ensures Run([prog, flag, number]) == Outcome(ExitFailure, [])
  {
  }

  /**
   * A literal zero, any run of zeros, or an empty number fails exactly like a
   * non-numeric one.
   */
  lemma ZeroNumberFailsLikeGarbage(prog: string, flag: string, zeros: string, garbage: string)
    requires AllZeros(zeros)
    requires !AllDigits(garbage)
    ensures Run([prog, flag, zeros]) == Run([prog, flag, garbage]) == Outcome(ExitFailure, [])
  {
    AllZerosValue(zeros);
  }

  /** `-a`/`--all` lists open then closed records, both with the parsed limit. */
  lemma AllFlagListsTodoThenDone(prog: string, flag: string, number: string)
    requires IsAllFlag(flag) && ParsedValue(number) != 0
    ensures Run([prog, flag, number])
         == Outcome(ExitSuccess, [PrintTodo(TodoPath, ParsedValue(number)), PrintDone(TodoPath, ParsedValue(number))])
  {
  }

  /** `-d`/`--done` lists only closed records. */
  lemma DoneFlagListsDone(prog: string, flag: string, number: string)
    requires IsDoneFlag(flag) && ParsedValue(number) != 0
    ensures Run([prog, flag, number]) == Outcome(ExitSuccess, [PrintDone(TodoPath, ParsedValue(number))])
  {
  }

  /** `-t`/`--todo` lists only open records. */
  lemma TodoFlagListsTodo(prog: string, flag: string, number: string)
    requires IsTodoFlag(flag) && ParsedValue(number) != 0
    ensures Run([prog, flag, number]) == Outcome(ExitSuccess, [PrintTodo(TodoPath, ParsedValue(number))])
  {
  }

  /** Any other flag with a valid number succeeds and lists nothing. */
  lemma UnknownFlagDoesNothing(prog: string, flag: string, number: string)
    requires !IsListingFlag(flag) && ParsedValue(number) != 0
    ensures Run([prog, flag, number]) == Outcome(ExitSuccess, [])
  {
  }

  /**
   * Every positive limit written in decimal, with or without leading zeros,
   * reaches the selected listing unchanged.
   */
  lemma DecimalLimitReachesListing(prog: string, flag: string, zeros: string, n: nat)
    requires IsListingFlag(flag) && AllZeros(zeros) && n > 0
    ensures var o := Run([prog, flag, zeros + Decimal(n)]);
      o.status == ExitSuccess && o.calls != [] && forall c :: c in o.calls ==> c.limit == n
  {
    DecimalRoundTrip(n);
    LeadingZerosIgnored(zeros, Decimal(n));
  }
}
