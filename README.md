# compile_commands.json generator — Dafny model

XLA's lint tooling turns the action graph printed by
`bazel aquery "mnemonic(CppCompile, …)" --output=jsonproto` into a Clang JSON
compilation database (`compile_commands.json`) that clang-tidy reads. This
project models that converter,
`third_party/xla/build_tools/lint/generate_compile_commands.py`:

- `ClangTidyCommand.from_args_list` is one forward pass over an action's
  argument vector. It drops every argument in the denylist
  (`_DISALLOWED_ARGS`, which holds `-fno-canonical-system-headers`). It keeps
  the other arguments in order. It remembers the last kept argument that ends
  in `.cc` as the command's `file`.
- `extract_compile_commands` builds one command per action, in order. It
  raises `KeyError` when the document has no `actions` key or an action has
  no `arguments` key.
- `to_dumpable_json` and the comprehension in `main` turn each command into a
  `{directory, file, arguments}` entry. Every entry gets the same working
  directory.

The parsed JSON document is a datatype. `AqueryOutput` has an optional
`actions` field, and each `RawAction` has an optional `arguments` field. A
`KeyError` becomes a `SchemaError` (`MissingActions`, or `MissingArguments(i)`
for the first action `i` without arguments) inside a `Result`. A `file` of
`None` is `Option.None`. The denylist is a `set<string>` parameter, and
`CompileCommands.DisallowedArgs` holds the source's value. The working
directory is a string parameter.

Files:

- `wrappers.dfy`: `Option` and `Result`.
- `compile_commands.dfy`: module `CompileCommands`. It holds the data model,
  the specification functions `Filtered`, `LastCcFile` and `CommandFor`, and
  the operations. `FromArgsList` and `ExtractCompileCommands` are methods with
  loops, as in the source. `DumpAll` is a function, and `GenerateDatabase` is
  `main` without its I/O.
- `properties.dfy`: module `CompileCommandsProperties`, the lemmas about the
  specification functions.

The loops are proved against the specification functions. The lemmas then
characterise those functions without reference to their definitions. The
filter result is the unique list made by removing exactly the denylisted
positions, with no reordering. The file is the last kept `.cc` argument, or
absent when there is none.

On the file rule, the code decides: the assignment at line 62 runs on every
kept `.cc` argument, so the last one wins.

The suffix test `arg.endswith(".cc")` (line 61) is the predicate
`CompileCommands.IsCcFile`. The contracts and lemmas take it as their
definition of "ends in `.cc`".

## Model

| member | source | states |
|---|---|---|
| CompileCommands.FromArgsList | third_party/xla/build_tools/lint/generate_compile_commands.py:42-66 | the single forward pass returns exactly the filtered arguments and the last kept `.cc` argument as file |
| CompileCommands.Filtered | third_party/xla/build_tools/lint/generate_compile_commands.py:57-64 | the kept arguments are no more than the input, and each is an input argument outside the denylist |
| CompileCommands.LastCcFile | third_party/xla/build_tools/lint/generate_compile_commands.py:54-62 | a recorded file is an input argument, is not denylisted and ends in `.cc` |
| CompileCommands.ExtractCompileCommands | third_party/xla/build_tools/lint/generate_compile_commands.py:76-94 | succeeds exactly when `actions` exists and every action has `arguments`; then one command per action, in order, command i built from action i's arguments (an empty list gives an empty result); a missing `actions` is `MissingActions`; otherwise the error names the first action without `arguments` |
| CompileCommands.ToDumpableJson | third_party/xla/build_tools/lint/generate_compile_commands.py:68-73 | the entry carries the supplied directory, and its `file` and `arguments` give back the command unchanged |
| CompileCommands.DumpAll | third_party/xla/build_tools/lint/generate_compile_commands.py:109-113 | one entry per command, and every entry carries the supplied directory |
| CompileCommands.GenerateDatabase | third_party/xla/build_tools/lint/generate_compile_commands.py:104-114 | succeeds exactly on well-formed input; a missing `actions` is `MissingActions`, otherwise the error names the first action without `arguments`; entry i is the supplied directory, the last kept `.cc` argument and the filtered arguments of action i |
| CompileCommandsProperties.FilteredRemovesExactly | third_party/xla/build_tools/lint/generate_compile_commands.py:57-64 | the filtered arguments are the input read through strictly increasing positions, and those are exactly the positions whose argument is not denylisted (an order-preserving subsequence) |
| CompileCommandsProperties.RemovesExactlyIsFiltered | third_party/xla/build_tools/lint/generate_compile_commands.py:57-64 | any list that removes exactly the denylisted positions without reordering equals the filter's result |
| CompileCommandsProperties.FilteredMembership | third_party/xla/build_tools/lint/generate_compile_commands.py:58-64 | an argument is kept if and only if it occurs in the input and is not denylisted |
| CompileCommandsProperties.FilteredLength | third_party/xla/build_tools/lint/generate_compile_commands.py:57-64 | the output is as long as the input exactly when no input argument is denylisted, and is then the input itself |
| CompileCommandsProperties.FilteredIdempotent | third_party/xla/build_tools/lint/generate_compile_commands.py:57-64 | filtering the filtered arguments again changes nothing |
| CompileCommandsProperties.FilteredAppend | third_party/xla/build_tools/lint/generate_compile_commands.py:57-64 | filtering a concatenation equals concatenating the filtered parts (arguments are handled one by one) |
| CompileCommandsProperties.LastCcFileNone | third_party/xla/build_tools/lint/generate_compile_commands.py:54-62 | no file is recorded if and only if every argument is denylisted or does not end in `.cc` |
| CompileCommandsProperties.LastCcFileIsLast | third_party/xla/build_tools/lint/generate_compile_commands.py:57-62 | a kept `.cc` argument with no kept `.cc` argument after it is the recorded file (last wins) |
| CompileCommandsProperties.LastCcFileHasPosition | third_party/xla/build_tools/lint/generate_compile_commands.py:57-62 | a recorded file is found at a returned position holding a kept `.cc` argument with no kept `.cc` argument after it |
| CompileCommandsProperties.OnlyCcIsFile | third_party/xla/build_tools/lint/generate_compile_commands.py:61-62 | when exactly one kept argument ends in `.cc`, it is the command's file |
| CompileCommandsProperties.FileIsAnArgument | third_party/xla/build_tools/lint/generate_compile_commands.py:58-64 | a recorded file ends in `.cc`, is not denylisted and is one of the command's arguments |
| CompileCommandsProperties.LastCcFileOfFiltered | third_party/xla/build_tools/lint/generate_compile_commands.py:57-64 | the filtered arguments record the same file as the original ones |
| CompileCommandsProperties.CommandForIdempotent | third_party/xla/build_tools/lint/generate_compile_commands.py:54-66 | building a command from a command's own arguments gives the same command back |
| CompileCommandsProperties.EmptyArgs | third_party/xla/build_tools/lint/generate_compile_commands.py:54-66 | an empty argument list gives no file and no arguments |
| CompileCommandsProperties.DisallowedFlagDropped | third_party/xla/build_tools/lint/generate_compile_commands.py:30-66 | with the source's denylist, `clang -fno-canonical-system-headers -c foo.cc` becomes file `foo.cc` with arguments `clang -c foo.cc` |
| CompileCommandsProperties.DumpAllRoundTrip | third_party/xla/build_tools/lint/generate_compile_commands.py:68-73 | each entry's `file` and `arguments` give back its command unchanged, in the same order |

## Left out

- Reading standard input and parsing JSON (`sys.stdin.read`, `json.loads`). The model starts from the parsed document.
- Serialising the entries and writing `compile_commands.json` (`json.dump`, `open("w")`). The file is overwritten directly, with no atomicity to model.
- Logging setup and messages.
- The derivation of `_XLA_SRC_ROOT` from the script's own path. The directory is a parameter of `DumpAll` and `GenerateDatabase`.
- Documents of the wrong JSON type: `actions` that is not a list, an action that is not an object, or `arguments` that are not strings. Python would raise `TypeError` or iterate oddly. The datatypes admit only the well-typed shapes, and only missing keys are modelled as errors.
- Extra keys in the document or in an action. The source never reads them, and the datatypes do not carry them.
- The source-file suffix is fixed to `.cc`, as in the source. It is not a configurable set.
- `tensorflow/compiler/mlir/quantization/stablehlo/python/integration_test/quantize_model_test.py` is not part of this model. It holds integration tests of an external quantization library, with floating-point tolerances.
