# Kira: a verified model of its wire codec, runtime texts and build-time state

Kira is a compiled language with an interpreter, a native runtime in C, a build script in Zig and a
standard library in Kira itself. This project models the parts of it whose behaviour is decided by state or
by scanning, and proves what they guarantee for every input or over every run.

- **Wire codec** (`KiraStrings`, `Decimal`, `SerdeSchema`, `SerdeScanner`, `SerdeCodec`, `SerdeGrammar`,
  `SerdeTheorems`, `SerdePrinted`, `SerdeLimits`, `SerdeShortest`). The printer and the cursor parser that `@Derive(Serializable)` and
  `@Derive(Deserializable)` generate, over every tree of struct types with `Int`, `Bool`, `String` and nested
  struct fields. The wire grammar is stated a second time, by balanced braces and without a scanner, and the
  parser is proved to accept exactly that grammar. A text is *neutral* when its braces balance and every `;`
  and `}` in it stands inside some open brace; that notion decides when a value survives.
- **Float texts** (`FloatText`, `FloatLayout`). The expansion of a double's `%g` text from scientific to plain
  notation, with its two buffers.
- **Safety modules** (`SafetyModules`, `SafetyReachability`, `ShippedPackages`). The memoised copies of packages
  that the build script makes for the tests of runtime-hot packages, over an arbitrary, possibly cyclic package
  table, and for the shipped one.
- **Callback registry** (`CallbackRegistry`, `CallbackTheorems`). The browser registry of callbacks, timers and
  event listeners, together with the browser's pending timeouts and attached listeners.
- **Recursive delete** (`RemovePath`). The POSIX delete over a file tree, with any set of paths at which
  primitives may fail.
- **Dynamic calls** (`DynamicCall`, `DynamicFfi`). The argument builder, its 64-bit words, the lazily loaded
  libffi record and the last-error protocol, with native functions that call back into the bridge.
- **TOML reader** (`TomlReader`, `TomlLines`, `TomlDocument`, `TomlMeaning`). The fallback reader of the LLVM
  release script, from the text of a file on; every way of writing a tree down for it; and what any line does to it,
  errors included.
- **Policy scan** (`RepositoryTruth`, `RepositoryRules`). The pruned walk over the repository with its per-file
  checks, and the rules it enforces, stated without it.
- **Derived equality and clone** (`DerivedEquality`). The generated `eq_T` and `clone_T` on both backends.

A string is a sequence of bytes, one `char` a byte (characters in the TOML reader). `Int` is a 64-bit register
whose arithmetic wraps, as in the interpreter (`packages/kira_vm_runtime/src/vm_interpreter_fused.zig:23-29`) and
in native code, which adds without an overflow flag. Code that changes things step by step is a method or a
class, proved against a function; the theorems are lemmas about those functions.

## Where the documentation and the code differ

The model follows the code; each difference is a proved statement.

- `foundation/app/DeriveSerde.kira:19-21` and `docs/macros.md:526-528` put only Strings with `"`, `;` or `}` out of
  contract. A `"` is harmless anywhere, balanced `{...;...}` is harmless, and an unbalanced `{` is not:
  `SerdeLimits.InContractSurvives`, `SerdeLimits.QuotesHarmless`, `SerdeLimits.OutOfContractStringSurvives`.
- `docs/macros.md:503-506` says every structural violation traps. Text after the closing brace is never looked
  at, at the top and in nested structs: `SerdeLimits.OnlyConsumedTextMatters`.
- A numeral beyond the 64-bit range is not rejected; it wraps. So the printed text of a value is its shortest
  exactly if no integer in it is one that an unsigned 19-digit numeral wraps to, and else one byte longer for each
  of them: `SerdeShortest.ShortestFormExactly`, `SerdeShortest.MinimumIsReached`, `SerdeShortest.ShorterStructText`.
- `!=` on floats is true of a NaN in the interpreter and false of it in native code. `DerivedEquality.BackendsDiffer`
  says on which pairs of values `eq_T` differs between the backends, `DerivedEquality.NativeTransitivity` through
  which values native equality is transitive, and `DerivedEquality.DecidesExactly` where `eq_T` decides equality.

The comment at `build.zig:460-463` promises safety variants of the runtime-hot dependencies. That is a property of
the package table: a hot package reached only through one that is neither hot nor a direct importer of a hot one
would keep its optimised module (`SafetyReachability.OptimisedReachability`). The shipped table keeps the promise
(`ShippedPackages.ShippedTestsAreSafe`); `SafetyReachability.IndirectImportDefeatsCopies` is a limit on what may be
added to it.

## Model

| member | source | states |
|---|---|---|
| SerdeTheorems.RoundTrip | foundation/app/DeriveSerde.kira:25-29 | a value comes back from its own text, whatever text follows, if and only if every String inside it is neutral |
| SerdeTheorems.Normalisation | foundation/app/DeriveSerde.kira:214-305 | whatever text a value was read from, canonical or not, its Strings are neutral and it survives being written and read again |
| SerdeTheorems.PrefixFree | foundation/app/DeriveSerde.kira:156-203 | on values with neutral Strings the encoding is injective and no encoding extends another |
| SerdeTheorems.SerializedNeutral | foundation/app/DeriveSerde.kira:53-57 | the text of a value with neutral Strings is itself neutral, so it can stand as a field |
| SerdeTheorems.SerializedMatches | foundation/app/DeriveSerde.kira:14-23 | what the printer writes is in the wire grammar and denotes the value that was printed |
| SerdeTheorems.DenotesNeutral | foundation/app/DeriveSerde.kira:263-276 | whatever a text of the grammar denotes has the right type and neutral Strings |
| SerdeTheorems.QuotedNeutral | foundation/app/DeriveSerde.kira:190-190 | quotes change nothing: a quoted text is neutral if and only if the text is |
| SerdeGrammar.Acceptance | foundation/app/DeriveSerde.kira:223-305 | the parser returns a value if and only if the text is in the wire grammar and denotes that value; on all other texts it traps |
| SerdeGrammar.AcceptsMatching | foundation/app/DeriveSerde.kira:263-296 | every text of the grammar is read, with the value that it denotes |
| SerdeGrammar.MatchesAccepted | foundation/app/DeriveSerde.kira:263-296 | every text that is read is in the grammar |
| SerdeGrammar.CarvedFrom | foundation/app/DeriveSerde.kira:264-276 | after `key=` a neutral value is carved out whole, up to its terminator |
| SerdeGrammar.CarvedInverse | foundation/app/DeriveSerde.kira:264-276 | what was carved out stood there as `key=VALUE`, and was neutral if a terminator follows |
| SerdeScanner.Scan | foundation/app/DeriveSerde.kira:58-83 | the scanner's loop computes the length that the following two lemmas characterise |
| SerdeScanner.ScanStops | foundation/app/DeriveSerde.kira:53-83 | where the scan stops short of the end there is a `;` or `}` at brace depth zero, and none before it |
| SerdeScanner.ScanFinds | foundation/app/DeriveSerde.kira:53-83 | conversely the first `;` or `}` at brace depth zero is where the scan stops |
| SerdeScanner.BracedIsNeutral | foundation/app/DeriveSerde.kira:53-57 | braces shelter any text with balanced braces |
| SerdeCodec.Serialize | foundation/app/DeriveSerde.kira:156-203 | the generated printer of a struct writes the text of its value |
| SerdeCodec.SerializeFields | foundation/app/DeriveSerde.kira:161-196 | the appended fields are `key=VALUE` with a separator before each but the first |
| SerdePrinted.PrintedForm | foundation/app/DeriveSerde.kira:14-23 | the printed text of any value, Strings that cannot be read back included, is the documented form and nothing else |
| SerdePrinted.CorpusText | tests-kik/corpus/derive-serde/app/DsxTests.kira:62-68 | a text that the corpus fixes, printed and read back |
| SerdeCodec.DeserInt | foundation/app/DeriveSerde.kira:86-121 | the digit loop with wrapping arithmetic accepts exactly an optional `-` and one or more digits, and returns their value wrapped once |
| SerdeCodec.Deserialize | foundation/app/DeriveSerde.kira:214-305 | the generated parser of a struct, cursor and traps included, computes the function that acceptance is proved of |
| SerdeCodec.Carve | foundation/app/DeriveSerde.kira:264-276 | locating a field and carving its value, in terms of cursor positions |
| SerdeCodec.CarvedByPosition | foundation/app/DeriveSerde.kira:264-276 | cursor positions in the whole text and the remaining text tell the same story |
| SerdeCodec.DeserializeFields | foundation/app/DeriveSerde.kira:231-290 | the cursor after the fields points at the text that the fields left unread |
| SerdeLimits.IntRoundTrip | foundation/app/DeriveSerde.kira:86-121 | every 64-bit integer reads back from its text; the digit loop leaves the 64-bit range for the smallest one and no other |
| SerdeLimits.AllDigitsRead | foundation/app/DeriveSerde.kira:86-121 | the numerals 1234567890 and -1234567890 are read as what they show |
| SerdeLimits.ShortestNumeral | foundation/app/DeriveSerde.kira:102-120 | writing a numeral's value takes no more bytes than the numeral, if and only if it is not an unsigned 19-digit one beyond the range |
| SerdeShortest.ShortestFormExactly | foundation/app/DeriveSerde.kira:214-305 | no text that is read as a value is shorter than its printed text, if and only if the value holds no integer that an overlong numeral wraps to |
| SerdeShortest.MinimumIsReached | foundation/app/DeriveSerde.kira:214-305 | the fewest bytes that are read as a value are its printed bytes, less one for each such integer at any depth |
| SerdeShortest.ConsumesAtLeast | foundation/app/DeriveSerde.kira:214-305 | no text goes below that number |
| SerdeShortest.ShortestForm | foundation/app/DeriveSerde.kira:214-305 | re-encoding what was read takes no more bytes than were consumed, plus one for each overlong numeral that was read |
| SerdeShortest.ShorterStructText | foundation/app/DeriveSerde.kira:214-305 | a struct text that is one byte shorter than the printed text of the value it is read as |
| SerdeShortest.OverlongNumeralGrows | foundation/app/DeriveSerde.kira:102-120 | the 19 bytes of 2^63 are read as the smallest integer, whose text takes 20 |
| SerdeLimits.OnlyConsumedTextMatters | foundation/app/DeriveSerde.kira:292-305 | any text that shares the consumed part reads the same: nothing after the closing brace matters |
| SerdeLimits.InContractSurvives | foundation/app/DeriveSerde.kira:19-21 | a value of any struct type whose Strings are all in the documented contract comes back if and only if none of them has a `{` |
| SerdeLimits.QuotesHarmless | foundation/app/DeriveSerde.kira:53-57 | leaving all quotes out of a String changes neither its depth nor whether it is neutral |
| SerdeLimits.OutOfContractStringSurvives | foundation/app/DeriveSerde.kira:19-21 | a String with a quote, a `;` and both braces comes back all the same |
| Decimal.IntTextReadsBack | packages/kira_native_bridge/src/runtime_helpers.c:324-328 | the printed form of an integer is a numeral that denotes it |
| Decimal.OrderedAsText | foundation/app/DeriveSerde.kira:102-120 | runs of digits of one length are ordered as numbers exactly as their characters are, so each digit has its own value |
| Decimal.TextOfValue | packages/kira_native_bridge/src/runtime_helpers.c:324-328 | digits without a leading zero are the printed form of their value |
| Decimal.AllDigitsPrinted | packages/kira_native_bridge/src/runtime_helpers.c:324-328 | 1234567890 and its negation are printed with these very characters |
| Decimal.NatTextShortest | packages/kira_native_bridge/src/runtime_helpers.c:324-328 | no run of digits is shorter than the printed form of its value |
| Decimal.Wrap64Step | packages/kira_vm_runtime/src/vm_interpreter_fused.zig:23-29 | wrapping after every step of a digit loop gives the same as wrapping once at the end |
| KiraStrings.IndexOf | packages/kira_native_bridge/src/runtime_helpers.c:405-412 | the first occurrence of the needle, 0 for the empty needle, -1 if and only if there is none |
| KiraStrings.TrapHelpersTrap | foundation/app/DeriveSerde.kira:43-51 | the two trap helpers trap whatever text they are given |
| FloatText.FromGeneral | packages/kira_native_bridge/src/runtime_helpers.c:351-386 | the buffer-writing code, from the `%g` text to the plain text, stays in its buffers and writes the expansion, which denotes the number of the `%g` text; a text without an exponent is kept |
| FloatText.SplitMantissa | packages/kira_native_bridge/src/runtime_helpers.c:362-370 | the digit loop separates the digits of the mantissa from its point |
| FloatText.ExpansionPreservesNumber | packages/kira_native_bridge/src/runtime_helpers.c:342-386 | the plain text, read as a decimal number, denotes the number that the scientific text denotes, in all three layouts |
| FloatText.PrintedValue | packages/kira_native_bridge/src/runtime_helpers.c:342-386 | whichever style the `%g` text has, what is printed for it is a plain decimal number and denotes the same number |
| FloatText.PrintedDeterminesNumber | packages/kira_native_bridge/src/runtime_helpers.c:342-386 | two `%g` texts of any styles that are printed alike denote the same number |
| FloatText.KindShows | packages/kira_native_bridge/src/runtime_helpers.c:351-355 | the search for an `e` takes exactly the scientific texts to be scientific |
| FloatText.DocumentedTexts | packages/kira_native_bridge/src/runtime_helpers.c:343-345 | 1e+20 is written out and -1.5e-07 gets its zeros in front |
| FloatText.ExpansionValue | packages/kira_native_bridge/src/runtime_helpers.c:371-385 | for every sign, digit string and point position the plain text denotes digits times ten to the point position less the number of digits |
| FloatLayout.BufferBound | packages/kira_native_bridge/src/runtime_helpers.c:357-371 | with at most 17 digits and an exponent between -324 and 308, at most 343 of the 1100 bytes are written |
| FloatLayout.BufferBoundTight | packages/kira_native_bridge/src/runtime_helpers.c:357-371 | the bound of 343 bytes is attained |
| FloatLayout.TwoLayouts | packages/kira_native_bridge/src/runtime_helpers.c:371-385 | given the C standard's style rule the third layout never runs; a point appears only for negative exponents and is never followed by a trailing zero |
| FloatLayout.NoTrailingZero | packages/kira_native_bridge/src/runtime_helpers.c:371-385 | for trimmed digits no layout leaves a zero at the end of a text with a point |
| FloatLayout.ExpandedInjective | packages/kira_native_bridge/src/runtime_helpers.c:371-385 | equal texts have equal signs, digits and point positions, whichever layouts produced them |
| SafetyModules.Builder.constructor | build.zig:92-115 | one main module a package, in order, optimised exactly if hot by name and asked for, linked to the main modules of its imports, and no copy yet |
| SafetyModules.Builder.SafetyTestModule | build.zig:464-488 | ends on every table, cyclic ones included; returns the main module exactly of a package that is not hot by name and imports none, and else a module with full safety; afterwards every copy but the open ones is fully linked, no earlier copy moved, and each new one was needed |
| SafetyModules.CopiedExactly | build.zig:476-509 | copied are the four hot packages, by name, the packages that import one of them directly, and no others |
| SafetyReachability.CopiesExactly | build.zig:472-488 | after a request the memo holds what it held and the packages that a chain of copied packages leads to: all of them and no other |
| SafetyModules.Builder.LinkImports | build.zig:484-486 | the loop over the imports links a copy completely, with recursive calls in between |
| SafetyModules.Graph.Registered | build.zig:477-483 | memoising a fresh copy before following its imports keeps the memo consistent, one copy a name |
| SafetyModules.Graph.ImportAdded | build.zig:485-485 | adding one edge extends the linked part of one copy and disturbs no other |
| SafetyReachability.OptimisedReachability | build.zig:460-488 | an optimised hot module is reachable from a copy if and only if a package without a copy lies on an import chain from it to a hot package |
| SafetyReachability.DirectImportersSuffice | build.zig:490-509 | none is reachable from a copy if every package between it and a hot one is hot or imports one directly |
| ShippedPackages.ShippedTableHasNoBridge | build.zig:20-69 | with the shipped rows, whatever stands between two hot packages is hot or imports a hot one directly |
| ShippedPackages.ShippedTestsAreSafe | build.zig:399-403 | with the shipped rows no optimised hot module is reachable from the tests of a hot package, whatever the other rows are |
| ShippedPackages.ColdIsShared | build.zig:20-69 | with the shipped rows the packages that reach no hot one have their main module and never a copy, so the tests share them |
| ShippedPackages.RowsOfTable | build.zig:20-50 | the table of just the packages that the hot ones reach has those rows, distinct names and resolving imports |
| SafetyReachability.IndirectImportDefeatsCopies | build.zig:460-476 | a table, not the shipped one, that breaks this condition and for which an optimised module is reachable |
| SafetyReachability.NoOptimisedEdge | build.zig:476-486 | no copy is linked directly to an optimised module |
| SafetyReachability.EdgeIsImport | build.zig:484-486 | every edge is an import, linked to a copy exactly when the rule asks for one |
| SafetyReachability.ImportHasEdge | build.zig:484-486 | every import has its edge |
| CallbackRegistry.Registry.RegisterFn | examples/web_dom/exports/web/kira-browser-ffi.generated.js:7-12 | a fresh id, and the record stored under it |
| CallbackRegistry.Registry.Remove | examples/web_dom/exports/web/kira-browser-ffi.generated.js:23-27 | the timer, the listener and the record of this id go, and nothing else does |
| CallbackRegistry.Registry.SetTimer | examples/web_dom/exports/web/kira-browser-ffi.generated.js:28-40 | a pending timeout bound to the id, and the timer record |
| CallbackRegistry.Registry.ClearTimer | examples/web_dom/exports/web/kira-browser-ffi.generated.js:41-46 | the pending timeout is cancelled; the callback stays registered |
| CallbackRegistry.Registry.AddEvent | examples/web_dom/exports/web/kira-browser-ffi.generated.js:47-53 | an attached listener bound to the id, and the event record |
| CallbackRegistry.Registry.RemoveEvent | examples/web_dom/exports/web/kira-browser-ffi.generated.js:54-60 | the listener is detached; the callback stays registered |
| CallbackRegistry.Registry.ClearAll | examples/web_dom/exports/web/kira-browser-ffi.generated.js:61-65 | the two loops cancel exactly the recorded timeouts and listeners |
| CallbackRegistry.Registry.FireBegin | examples/web_dom/exports/web/kira-browser-ffi.generated.js:30-32 | a timeout fires once, and errs exactly when its id is not registered |
| CallbackRegistry.Registry.FireEnd | examples/web_dom/exports/web/kira-browser-ffi.generated.js:33-36 | the finally block removes the timer and the callback of this id and leaves all else |
| CallbackTheorems.SafeRunNeverFails | examples/web_dom/exports/web/kira-browser-ffi.generated.js:13-60 | over every run that creates timers and listeners from functions or unused ids, re-entrant callbacks included, nothing hits an unregistered id |
| CallbackTheorems.SafetyIsExact | examples/web_dom/exports/web/kira-browser-ffi.generated.js:28-53 | a step meets that condition if and only if nothing that follows it, itself safe, can hit an unregistered id |
| CallbackTheorems.StepConsistent | examples/web_dom/exports/web/kira-browser-ffi.generated.js:3-65 | timer ids and event ids stay disjoint subsets of the registered ids, each tied to one pending timeout or attached listener |
| CallbackTheorems.UnsafeStepCanFail | examples/web_dom/exports/web/kira-browser-ffi.generated.js:28-53 | a concrete continuation that fails, for every use of an id that is in use or gone |
| CallbackTheorems.RemovedForGood | examples/web_dom/exports/web/kira-browser-ffi.generated.js:3-27 | over all runs, a removed id never resolves again |
| CallbackTheorems.RecordsNeverChange | examples/web_dom/exports/web/kira-browser-ffi.generated.js:7-17 | while an id resolves, it resolves to the function it was handed out for |
| CallbackTheorems.RemovalRemoves | examples/web_dom/exports/web/kira-browser-ffi.generated.js:23-65 | removal, clearing all and the end of a firing timer do remove the id |
| CallbackTheorems.ResolvesUntilRemoved | examples/web_dom/exports/web/kira-browser-ffi.generated.js:3-65 | over every run an id goes on resolving to its record exactly until it is removed, everything is cleared, or its own timer has run |
| CallbackTheorems.OthersUndisturbed | examples/web_dom/exports/web/kira-browser-ffi.generated.js:3-65 | over every safe run the record, timer, listener, pending timeouts and attached listeners of an id stay as they are unless a step is about that id |
| RemovePath.FileSystem.Remove | foundation/NativeLibs/FS/fs.c:469-495 | true if and only if the path was there and is gone, and then nothing is left under it; nothing outside it ever changes and nothing is created; whatever fails elsewhere, every entry goes that no failure at, above or below it holds back |
| RemovePath.FileSystem.RemoveEntries | foundation/NativeLibs/FS/fs.c:475-490 | the loop ends, touches nothing outside the directory, goes on after a failure, and leaves nothing inside that no failure holds back |
| RemovePath.RemovalClears | foundation/NativeLibs/FS/fs.c:492-494 | removing an entry that nothing stands in clears its subtree and touches nothing else |
| RemovePath.EmptyHasNoSubtree | foundation/NativeLibs/FS/fs.c:492-492 | a directory without entries has nothing under it at any depth |
| RemovePath.ChildSubtreeSmaller | foundation/NativeLibs/FS/fs.c:482-487 | each inner delete is about strictly fewer entries, so the recursion ends |
| DynamicCall.Call.New | packages/kira_native_bridge/src/dynamic_ffi_helpers.c:504-510 | no builder beyond 32 arguments; capacity 32 when none is asked for |
| DynamicCall.Call.Append | packages/kira_native_bridge/src/dynamic_ffi_helpers.c:520-526 | the two arrays and the count hold one argument more, or exactly the same at capacity |
| DynamicCall.Call.Reset | packages/kira_native_bridge/src/dynamic_ffi_helpers.c:512-514 | nothing is held |
| DynamicCall.KeepsFirst | packages/kira_native_bridge/src/dynamic_ffi_helpers.c:512-526 | after any appends and resets the builder holds the first `capacity` arguments appended since the last reset, in order |
| DynamicCall.ReadsBack | packages/kira_native_bridge/src/dynamic_ffi_helpers.c:478-483 | each word, stored as eight little-endian bytes, reads back as the appended value at its type's width |
| DynamicCall.EncodedLiterally | packages/kira_native_bridge/src/dynamic_ffi_helpers.c:528-559 | the tag of each typed append and the unsigned word of its width |
| DynamicFfi.Bridge.EnsureLibffi | packages/kira_native_bridge/src/dynamic_ffi_helpers.c:394-425 | the library found is cached if and only if it and the three symbols are there; the record stays all zero or usable, and never changes once loaded |
| DynamicFfi.Bridge.FfiCall | packages/kira_native_bridge/src/dynamic_ffi_helpers.c:459-493 | the last error is the status; the status is 0 if and only if the native function was entered; exactly when each error arises; exactly which functions are entered, nested calls included, and only the one if nothing nests |
| DynamicFfi.EnteredOnceInOrder | packages/kira_native_bridge/src/dynamic_ffi_helpers.c:459-493 | of any tree of nested requests exactly the acceptable ones below acceptable ones enter their functions, once each, in preorder; a loaded library stays |
| DynamicFfi.StatusExactly | packages/kira_native_bridge/src/dynamic_ffi_helpers.c:20-25 | which of the numbers 0 to 5 a request returns, and when |
| DynamicFfi.Bridge.Invoke | packages/kira_native_bridge/src/dynamic_ffi_helpers.c:561-566 | an invocation does what a request with the contents of the builder does, and never reports too many arguments |
| TomlReader.LoadToml | scripts/llvm/llvm_release.py:131-162 | splitting a file and reading its lines computes the function that the reading theorem is proved of, errors included |
| TomlReader.StripInlineComment | scripts/llvm/llvm_release.py:165-180 | the flag-driven loop cuts at the first `#` outside a string |
| TomlReader.EnterTable | scripts/llvm/llvm_release.py:147-151 | following a header makes the missing tables and fails on a value in the way |
| TomlMeaning.ErrorsExactly | scripts/llvm/llvm_release.py:142-190 | exactly which lines are errors: a header that names nothing or meets a value, no `=`, or a value that is neither quoted nor an integer |
| TomlMeaning.EffectExactly | scripts/llvm/llvm_release.py:142-160 | what every other line does, place by place in the tree, replaced tables included |
| TomlMeaning.FileErrorsExactly | scripts/llvm/llvm_release.py:136-162 | a file fails exactly at the first line that is an error in the tree read so far |
| TomlMeaning.HeaderExactly | scripts/llvm/llvm_release.py:147-151 | a header fails exactly if a value is in its way, and else adds the tables it names and changes nothing |
| TomlMeaning.CommentExactly | scripts/llvm/llvm_release.py:165-180 | a comment starts at a `#` if and only if text and whole strings precede it, escapes included |
| TomlMeaning.ValueExactly | scripts/llvm/llvm_release.py:183-190 | what any text is as a value: what stands between its quotes, unescaped quotes included, or an integer, or an error |
| TomlMeaning.GroupingChangesNothing | scripts/llvm/llvm_release.py:187-190 | an underscore between digits does not change the number |
| TomlMeaning.IntegerExactly | scripts/llvm/llvm_release.py:187-190 | a text is an integer if and only if it is an optional sign and digits, with underscores only between two digits |
| TomlMeaning.IntegerValue | scripts/llvm/llvm_release.py:187-190 | its value is that of the digits without the underscores, negated after a minus sign |
| TomlMeaning.SplitExactly | scripts/llvm/llvm_release.py:148-148 | splitting a header gives the parts without dots whose join it is, and those are unique |
| TomlMeaning.SpacesExactly | scripts/llvm/llvm_release.py:136-137 | the characters that end a line and those that count as space, spelled out |
| TomlMeaning.StripParts | scripts/llvm/llvm_release.py:137-137 | stripping takes off space at both ends, all of it and nothing else |
| TomlDocument.ReadsBack | scripts/llvm/llvm_release.py:128-162 | a file that writes a tree down in any way, with free spacing, blank lines, comments, any line ends, any order and repetition, reads back as that tree |
| TomlDocument.EveryTreeCanBeWritten | scripts/llvm/llvm_release.py:128-130 | every tree of tables, integers and raw strings without line ends has such a file |
| TomlDocument.FileExistsExactly | scripts/llvm/llvm_release.py:128-162 | some file is read as a given tree of that kind if and only if no string in it has a line end |
| TomlLines.ReadTextsOnOneLine | scripts/llvm/llvm_release.py:136-162 | whatever the text of the file, no string that is read from it has a line end |
| TomlLines.LinesComeBack | scripts/llvm/llvm_release.py:136-136 | splitting a file gives the lines that it was put together from, with line ends of any kind |
| TomlLines.EveryTextIsFile | scripts/llvm/llvm_release.py:136-136 | the lines of any text have no line end in them and, with suitable line ends, make up the text |
| TomlDocument.KeyValueRead | scripts/llvm/llvm_release.py:154-160 | a key line assigns the value it shows, whatever spacing and trailing comment it has |
| TomlDocument.HeaderRead | scripts/llvm/llvm_release.py:142-152 | a header line enters the table it names |
| TomlDocument.ContentSurvives | scripts/llvm/llvm_release.py:134-140 | stripping removes indentation, trailing space and comment, and nothing inside a string |
| TomlDocument.ValueReadsBack | scripts/llvm/llvm_release.py:183-190 | integers and raw strings, with `#`, `=` and escaped quotes inside, read back |
| RepositoryTruth.Scanner.ScanDir | build_support/repository_truth.zig:26-57 | the recursive walk appends the report that the rules below are proved of |
| RepositoryTruth.Scanner.CheckFile | build_support/repository_truth.zig:44-53 | a file's checks append the violations that the rules below are proved of |
| RepositoryRules.ReportsExactly | build_support/repository_truth.zig:26-158 | for every tree of files and each kind of violation: the walk reports it if and only if a file outside the exempt directories earns it, with all names, suffixes and tokens spelled out |
| RepositoryRules.ReportsExactlyAnywhere | build_support/repository_truth.zig:59-62 | the same on hosts that separate with backslashes |
| RepositoryRules.FileRules | build_support/repository_truth.zig:83-132 | the checks of one file report exactly what it earns |
| RepositoryRules.FileInOrder | build_support/repository_truth.zig:44-53 | the violations of one file come once each, in the order of the checks and of their tokens |
| RepositoryRules.SkipsExactly | build_support/repository_truth.zig:64-81 | skipped is exactly what lies below the twelve exempt directories, with either separator |
| RepositoryRules.PackagesAreScanned | build_support/repository_truth.zig:64-81 | nothing below `packages/` is skipped |
| RepositoryTruth.PrunedScanIsFlatScan | build_support/repository_truth.zig:26-81 | the pruned walk reports exactly what a check of every unskipped file of the whole tree reports, in the same order |
| RepositoryTruth.SkipInherits | build_support/repository_truth.zig:64-81 | whatever lies below a skipped path is skipped |
| RepositoryTruth.SeparatorDoesNotMatter | build_support/repository_truth.zig:135-158 | a host with backslashes reports the same violations, up to the separators in their paths |
| DerivedEquality.InterpreterEquality | foundation/app/Derive.kira:35-72 | in the interpreter `eq_T` holds if and only if there is no NaN and the values agree up to the sign of zeros |
| DerivedEquality.EqualNumbers | foundation/app/Derive.kira:35-72 | `eq_T` compares bytes and signed real numbers: in the interpreter always, a NaN being no number, and in native code on NaN-free values |
| DerivedEquality.BackendsAgree | packages/kira_llvm_backend/src/backend_capi_value_repr.zig:150-167 | what is equal in the interpreter is NaN-free and equal in native code; the backends differ only where native code says equal |
| DerivedEquality.NativeEquality | packages/kira_llvm_backend/src/backend_capi_value_repr.zig:150-167 | in native code `eq_T` holds if and only if the values agree, up to the sign of zeros, once each fills the NaNs of the other |
| DerivedEquality.BackendsDiffer | packages/kira_llvm_backend/src/backend_capi_value_repr.zig:150-167 | the backends differ exactly on values of which one has a NaN and which agree once their NaNs are filled |
| DerivedEquality.BackendAgreement | packages/kira_llvm_backend/src/backend_capi_value_repr.zig:150-167 | the backends compare all NaN-free values with `b` alike if and only if `b` has no NaN, and all values if and only if the type has no float |
| DerivedEquality.DecidesEquality | foundation/app/Derive.kira:35-72 | on NaN-free values `eq_T` is equality up to the sign of zeros on both backends |
| DerivedEquality.DecidesExactly | foundation/app/Derive.kira:35-72 | `eq_T` with `b` decides equality in the interpreter, and among NaN-free values in native code, if and only if `b` has no NaN; in native code among all values, if and only if the type has no float |
| DerivedEquality.NativeTransitivity | packages/kira_llvm_backend/src/backend_capi_value_repr.zig:150-167 | native equality is transitive through a value if and only if the value has no NaN |
| DerivedEquality.NativeEqualityNotTransitive | foundation/app/Derive.kira:34-72 | for a struct with one float field, 0 and 1 both equal a NaN in native code, and not each other |
| DerivedEquality.CloneIsEqual | foundation/app/Derive.kira:79-110 | a clone is the value itself; `eq_T` confirms it except in the interpreter on a NaN |

## Left out

- RemovePath.FileSystem.Remove: paths are component sequences without symbolic links in the parents, because resolving the path is the kernel's part; at a path where primitives may fail a directory may list any names at all.
- CallbackRegistry.Registry.FireBegin: the browser fires no timer while another timer's callback runs, because scripts run to completion; what a callback does is any sequence of registry operations.
- DynamicFfi.Bridge.FfiCall: which library the host finds and whether libffi refuses a call are inputs of each request, and what a native function requests does not depend on the results it gets; the argument words and the result buffer of a native call are not modelled beyond the entry log, because libffi is not part of this model.
- SerdeShortest.ShortestForm: allows one byte for each overlong numeral that was read; the exact minimum for a value is `SerdeShortest.MinimumIsReached`.
- DerivedEquality.BackendsAgree: its first condition mentions the native result; `DerivedEquality.BackendsDiffer` is the condition on the values alone.
- SafetyModules.Builder.constructor: the table has distinct names and resolving imports, because the loop at `build.zig:113-115` panics before any copy is asked for, and the shipped table has distinct names.
- RepositoryTruth.Scanner.ScanDir: reading errors and the 16 MB limit on a file are not modelled.
- Float fields of the codec: `Deserializable` rejects them at compile time.
- The macro evaluator that produces the generated code: type and field names are taken to be identifiers.
- `snprintf`, `strtod` and the search for the shortest precision in `kira_string_from_f64`: the `%g` text is an input, and section 7.21.6.1 of ISO/IEC 9899:2011 is a hypothesis of the layout theorem. NaN and infinity texts are constants.
- TomlReader.LoadToml: integers outside ASCII digits are not modelled, and integers of any length are read, while CPython from 3.10.7 on rejects decimal texts of more than 4300 digits; decoding the bytes of the file as UTF-8 is not part of this model.
- ShippedPackages.ShippedTestsAreSafe: states the rows of the 14 packages that the hot ones import, directly or not; the other rows cannot matter to them and are left free.
- The field checks of `load_metadata`, argument parsing and publishing in the release script: easy members.
- Windows branches, memory exhaustion outside the delete loop, the library search path, printing and tracing.
- Arrays, native state and tasks of the native runtime, the compiler and the interpreter themselves.
- Chunked file reads in the FS library.
