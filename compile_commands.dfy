/** A model of the converter from the action graph printed by
    `bazel aquery --output=jsonproto` to a Clang JSON compilation database
    (`compile_commands.json`) for clang-tidy.

    The JSON text is taken as already parsed: the document is an
    `AqueryOutput` whose `actions` key may be absent, and each action is a
    `RawAction` whose `arguments` key may be absent. */
module CompileCommands {
  import opened Wrappers

  // ---------------------------------------------------------------------------
  // Data model
  // ---------------------------------------------------------------------------

  /** The arguments that break clang-tidy and are dropped from every command. */
  const DisallowedArgs: set<string> := {"-fno-canonical-system-headers"}

  /** One action of the query output; only its `arguments` key is read. */
  datatype RawAction = RawAction(arguments: Option<seq<string>>)

  /** The parsed query output; only its top-level `actions` key is read. */
  datatype AqueryOutput = AqueryOutput(actions: Option<seq<RawAction>>)

  /** A clang-tidy command: the translation unit it runs on (absent when no
      argument names one) and the arguments to run it with. */
  datatype ClangTidyCommand = ClangTidyCommand(file: Option<string>, arguments: seq<string>)

  /** The lookups that fail (a `KeyError` in the source). */
  datatype SchemaError =
    | MissingActions                 // the document has no `actions` key
    | MissingArguments(index: nat)   // action number `index` has no `arguments` key

  /** One entry of the compilation database: exactly the three keys
      `directory`, `file` and `arguments`. */
  datatype DumpableEntry = DumpableEntry(directory: string, file: Option<string>, arguments: seq<string>)

  /** Python's `arg.endswith(".cc")`. */
  predicate IsCcFile(arg: string)
  {
    |arg| >= 3 && arg[|arg| - 3..] == ".cc"
  }

  /** A document every lookup of `extract_compile_commands` succeeds on. */
  predicate WellFormed(parsed: AqueryOutput)
  {
    parsed.actions.Some? &&
    forall i :: 0 <= i < |parsed.actions.value| ==> parsed.actions.value[i].arguments.Some?
  }

  // ---------------------------------------------------------------------------
  // Specification of one command
  // ---------------------------------------------------------------------------

  /** The argument list with every disallowed argument removed. Defined from
      the end of the list, the way the source's loop grows its result. */
  function Filtered(args: seq<string>, disallowed: set<string>): (r: seq<string>)
    ensures |r| <= |args|
    ensures forall x :: x in r ==> x in args && x !in disallowed
  {
    if args == [] then []
    else
      var init, last := args[..|args| - 1], args[|args| - 1];
      assert forall x :: x in init ==> x in args;
      if last in disallowed then Filtered(init, disallowed)
      else Filtered(init, disallowed) + [last]
  }

  /** The file a command runs on: the last argument that is not disallowed
      and ends in ".cc", if there is one. */
  function LastCcFile(args: seq<string>, disallowed: set<string>): (r: Option<string>)
    ensures r.Some? ==> r.value in args && r.value !in disallowed && IsCcFile(r.value)
  {
    if args == [] then None
    else
      var init, last := args[..|args| - 1], args[|args| - 1];
      if last !in disallowed && IsCcFile(last) then Some(last)
      else
        assert forall x :: x in init ==> x in args;
        LastCcFile(init, disallowed)
  }

  /** The command the source builds from one argument list. */
  function CommandFor(args: seq<string>, disallowed: set<string>): ClangTidyCommand
  {
    ClangTidyCommand(LastCcFile(args, disallowed), Filtered(args, disallowed))
  }

  // ---------------------------------------------------------------------------
  // Operations
  // ---------------------------------------------------------------------------

  /** `ClangTidyCommand.from_args_list`: one forward pass that skips the
      disallowed arguments, keeps the others in order and remembers the last
      kept one ending in ".cc". */
  method FromArgsList(argsList: seq<string>, disallowed: set<string>) returns (cmd: ClangTidyCommand)
    ensures cmd == CommandFor(argsList, disallowed)
  {
    var ccFile: Option<string> := None;
    var filteredArgs: seq<string> := [];
    for i := 0 to |argsList|
      invariant filteredArgs == Filtered(argsList[..i], disallowed)
      invariant ccFile == LastCcFile(argsList[..i], disallowed)
    {
      var arg := argsList[i];
      assert argsList[..i + 1][..i] == argsList[..i];
      if arg in disallowed {
        continue;
      }
      if IsCcFile(arg) {
        ccFile := Some(arg);
      }
      filteredArgs := filteredArgs + [arg];
    }
    assert argsList[..|argsList|] == argsList;
    cmd := ClangTidyCommand(ccFile, filteredArgs);
  }

  /** `extract_compile_commands`: one command per action, in order. A missing
      `actions` key, or the first action without an `arguments` key, fails
      the whole call; the commands built before it are discarded. */
  method ExtractCompileCommands(parsed: AqueryOutput, disallowed: set<string>)
    returns (r: Result<seq<ClangTidyCommand>, SchemaError>)
    ensures r.Success? <==> WellFormed(parsed)
    ensures parsed.actions.None? ==> r == Failure(MissingActions)
    ensures parsed.actions.Some? && r.Failure? ==>
      var actions := parsed.actions.value;
      && r.error.MissingArguments?
      && r.error.index < |actions|
      && actions[r.error.index].arguments.None?
      && forall j :: 0 <= j < r.error.index ==> actions[j].arguments.Some?
    ensures r.Success? ==>
      var actions := parsed.actions.value;
      && |r.value| == |actions|
      && forall i :: 0 <= i < |actions| ==>
           r.value[i] == CommandFor(actions[i].arguments.value, disallowed)
  {
    if parsed.actions.None? {
      return Failure(MissingActions);
    }
    var actions := parsed.actions.value;
    var commands: seq<ClangTidyCommand> := [];
    for i := 0 to |actions|
      invariant |commands| == i
      invariant forall j :: 0 <= j < i ==>
        actions[j].arguments.Some? && commands[j] == CommandFor(actions[j].arguments.value, disallowed)
    {
      if actions[i].arguments.None? {
        return Failure(MissingArguments(i));
      }
      var command := FromArgsList(actions[i].arguments.value, disallowed);
      commands := commands + [command];
    }
    return Success(commands);
  }

  /** `ClangTidyCommand.to_dumpable_json`: the database entry of a command. */
  function ToDumpableJson(cmd: ClangTidyCommand, directory: string): (e: DumpableEntry)
    ensures e.directory == directory && CommandOf(e) == cmd
  {
    DumpableEntry(directory, cmd.file, cmd.arguments)
  }

  /** The command an entry was made from (its `file` and `arguments`). */
  function CommandOf(entry: DumpableEntry): ClangTidyCommand
  {
    ClangTidyCommand(entry.file, entry.arguments)
  }

  /** The list comprehension in `main`: every command dumped with the same
      working directory. */
  function DumpAll(commands: seq<ClangTidyCommand>, directory: string): (entries: seq<DumpableEntry>)
    ensures |entries| == |commands|
    ensures forall i :: 0 <= i < |entries| ==> entries[i].directory == directory
  {
    seq(|commands|, i requires 0 <= i < |commands| => ToDumpableJson(commands[i], directory))
  }

  /** `main` without its input and output: extract the commands from the
      parsed query output and dump them with `directory`. */
  method GenerateDatabase(parsed: AqueryOutput, disallowed: set<string>, directory: string)
    returns (r: Result<seq<DumpableEntry>, SchemaError>)
    ensures r.Success? <==> WellFormed(parsed)
    ensures parsed.actions.None? ==> r == Failure(MissingActions)
    ensures parsed.actions.Some? && r.Failure? ==>
      var actions := parsed.actions.value;
      && r.error.MissingArguments?
      && r.error.index < |actions|
      && actions[r.error.index].arguments.None?
      && forall j :: 0 <= j < r.error.index ==> actions[j].arguments.Some?
    ensures r.Success? ==>
      var actions := parsed.actions.value;
      && |r.value| == |actions|
      && forall i :: 0 <= i < |actions| ==>
           var args := actions[i].arguments.value;
           r.value[i] == DumpableEntry(directory, LastCcFile(args, disallowed), Filtered(args, disallowed))
  {
    var commands := ExtractCompileCommands(parsed, disallowed);
    match commands
    case Failure(e) =>
      return Failure(e);
    case Success(cmds) =>
      return Success(DumpAll(cmds, directory));
  }
}
