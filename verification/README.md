# Verified models of the LazyScript runtime and compiler back end

A Dafny model of six parts of the LazyScript implementation, with proofs of what each is for.

**The LSTI thunk image** (`Lsti*.dfy`, `ThunkGraph.dfy`). A thunk graph, with sharing and cycles, is numbered breadth
first, its strings and symbols are pooled, and sections with offset tables are laid out in a file. The heap is an arena
of nodes and a pointer is an index into it. The model has two layers, graph to numbered table and table to bytes, and
beside them the writer, the validator and the two-pass loader as they run. The main result is `WriteThenLoad`: the image
of any wired graph is accepted, loads as an isomorphic graph, and is written again byte for byte. By `SameImage` two
graphs have the same image exactly if they are isomorphic. `LstiRejects.dfy` says exactly which images with one entry
replaced the validator accepts, and `LstiExamples.dfy` spells out the bytes of the format.

**The string intern table** (`Intern*.dfy`). Open addressing with linear probing, growing and shrinking, and deletion
that re-inserts the rest of the cluster. The main results are the loop invariant of deletion (`ReinsertLands`,
`ReinsertKeeps`) and `InternHistory.Run`: over any history the object returned is canonical. `StrLiteral.dfy` has the
printer and parser of string literals, with the exact set of strings that survive, and `StrEscapes.dfy` the meaning of
every escape, printed or not.

**The Core IR pipeline** (`CoreIr.dfy`, `EvalExamples.dfy`, `Effect*.dfy`, `Lowering*.dfy`, `Ir*.dfy`, `Pipeline.dfy`).
Evaluation is indexed by fuel that only closure calls spend, and returns a trace of effect applications, so that
statements about every fuel are statements about every run, finished or not. `ValidatorSound` says that a validated
program performs no effect without a token, and `ReportsExactly` which programs are validated; `LowerCorrect` that
lowering preserves meaning; `PipeIdentity` that the text form reads back exactly for the readable programs; `EndToEnd`
puts them together.

**Capture substitution** (`Subst*.dfy`). The memoised copy ends exactly if no cycle reached consists of function edges
only (`SubstWalk.EndsExactly`). It agrees with tree substitution on the unfoldings to every depth, which covers cyclic
graphs as well as acyclic ones, and copies exactly the compounds reached, each once if no cycle goes through a function
edge.

**Varints and pools** (`Varint.dfy`, `Pool.dfy`). ULEB128 and SLEB128 of section 7.6 of DWARF Version 5: the decoders
are characterized on every stream, and encoder output reads back over the full 64-bit range.

**The chained hash table and namespace listing** (`Hash*.dfy`, `NsMembers.dfy`). Refinement to a finite map over whole
histories, rehashing included, exactly as long as no insertion empties the table, and a member list that depends on the
key set alone.

Where the source changes state step by step the model does so too: classes whose methods update fields, loops with
invariants, each proved against a function or predicate about which the properties are then proved.

Where code and documentation differ the model follows the code. `src/coreir/coreir.h` says that the version of a text
header is validated; the reader skips comments before it looks for the header, so that no header is ever checked
(`IrRoundTrip.HeaderNeverChecked`). A clean-evaluator program that validates can still perform an unauthorized effect
(`Effects.CleanValidatorUnsound`): this is about well-formed trees, and no code path of the build produces one with a
`match` in it, since `src/coreir/coreir_clean.c` is not compiled and `src/coreir/cir_text_reader.c:236-243` passes an
array of pointers to cases for an array of cases. And a constructor argument that is no value is dropped by lowering
(`LoweringMeaning.LostConstructor`).

## Model

| member | source | states |
|---|---|---|
| `ThunkGraph.OrderIsReachable` | src/thunk/lsti.c:205-304 | The breadth-first numbering lists exactly the nodes reachable from the roots, each once, and is closed under pointers, whatever is shared or cyclic |
| `ThunkGraph.OrderRenamed` | src/thunk/lsti.c:205-304 | Searching a renamed copy of a graph numbers the copies in the order of their originals |
| `ThunkGraph.CorrespondsRelabelled` | src/thunk/lsti.c:676-702 | A renumbered node corresponds to the original by cases: same value, text, constructor, sort, message and argument count, partners for children, and a reference to `n` for the builtin `n` |
| `ThunkGraph.MatchingRenames` | src/thunk/lsti.c:205-304 | If the numbered nodes of two graphs correspond in this sense, the second graph is the first renamed, roots included |
| `LstiTable.TableStorable` | src/thunk/lsti.c:205-304 | The table of a graph in which no null pointer is reached has all child and root numbers in range |
| `LstiTable.LoadIsomorphic` | src/thunk/lsti.c:1224-1707 | Loading the table of any wired graph on top of any heap gives an isomorphic rooted graph, roots in order: matched nodes are equal up to partners, and a builtin is matched by a reference to its name |
| `LstiTable.TableCanonical` | src/thunk/lsti.c:205-304 | Isomorphic graphs have the same table |
| `LstiTable.TableReloaded` | src/thunk/lsti.c:205-304 | In particular renumbering a loaded table is the identity |
| `LstiTable.SameTable` | src/thunk/lsti.c:205-304 | Two graphs have the same table exactly if they are isomorphic up to builtins having become references |
| `LstiImage.ImageSection` | src/thunk/lsti.c:309-337 | In an image the header, every section table entry and every payload stand where the layout puts them |
| `LstiRoundTrip.WrittenSections` | src/thunk/lsti.c:998-1052 | The sections of a written image lie inside it and start at aligned offsets |
| `LstiRoundTrip.WrittenKinds` | src/thunk/lsti.c:1024-1052 | Looking sections up by kind in a written image finds exactly the ones that were written |
| `LstiRoundTrip.BlobStored` | src/thunk/lsti.c:339-400 | Every pooled text is found in its blob at the offset assigned to it |
| `LstiRoundTrip.TabStored` | src/thunk/lsti.c:583-883 | Every entry stands in the thunk table at the offset its offset table names, past that table |
| `LstiRoundTrip.EntryStored` | src/thunk/lsti.c:1295-1515 | Each stored entry passes the checks of the validator, is safe to load, and decodes to itself |
| `LstiRoundTrip.ImageRoundTrip` | src/thunk/lsti.c:998-1222 | Every image of a table under 4 GiB is accepted by the validator, is safe to load, and decodes to exactly that table |
| `LstiRoundTrip.SameImage` | src/thunk/lsti.c:79-945 | The image is a canonical form: two graphs have the same image exactly if they are isomorphic up to builtins having become references |
| `LstiRoundTrip.ConstructorUnchecked` | src/thunk/lsti.c:1136-1153 | The validator accepts a stored constructor whatever its child numbers are; loading it is safe exactly if they are in range |
| `LstiRoundTrip.StrayAccepted` | src/thunk/lsti.c:1136-1153 | An image that is accepted and not safe to load: its one constructor has a child number of no entry |
| `LstiRejects.LoadsExactly` | src/thunk/lsti.c:1113-1220 | An entry of a known kind can be read safely and yields a thunk exactly if the validator accepts it, the child numbers of constructors, bottoms and arguments are in range and the text of a builtin fits: the checks that are missing, by name |
| `LstiRejects.SafeExactly` | src/thunk/lsti.c:1113-1220 | With both blobs present, reading an entry is safe under exactly the same conditions |
| `LstiRejects.ImageLoadsExactly` | src/thunk/lsti.c:1113-1220 | An accepted image that holds a blob loads exactly if no entry uses what the validator leaves open |
| `LstiRejects.StrayRootRefused` | src/thunk/lsti.c:1076-1089 | A file is refused if a root names no entry |
| `LstiRejects.PatchedDecides` | src/thunk/lsti.c:998-1222 | The answer to a written image with any one entry replaced by any bytes is the answer to that entry |
| `LstiRejects.TextDecides` | src/thunk/lsti.c:1121-1135 | With an entry replaced by a string, symbol or reference of any offset and length the image is accepted exactly if the text lies within the pooled texts |
| `LstiRejects.NodeDecides` | src/thunk/lsti.c:1136-1171 | By a constructor or bottom: exactly if its text lies within the pooled texts and its children within the table, whatever their numbers |
| `LstiRejects.ApplicationDecides` | src/thunk/lsti.c:1172-1180 | By an application: exactly if the function number is in range and the arguments lie within the table, whatever their numbers |
| `LstiRejects.ChoiceDecides` | src/thunk/lsti.c:1181-1196 | By a choice: exactly if the sort is 1, 2 or 3 and both alternatives are in range |
| `LstiRejects.OtherKindsDecide` | src/thunk/lsti.c:1204-1217 | By a lambda: refused, for want of a pattern table; by an integer, a builtin or an unknown kind: accepted |
| `LstiRejects.MagicChecked` | src/thunk/lsti.c:1003-1004 | Any file with another magic number is refused |
| `LstiRejects.VersionChecked` | src/thunk/lsti.c:1005-1006 | Any file with another major version is refused |
| `LstiRejects.AlignmentChecked` | src/thunk/lsti.c:1007-1008 | Any file with an alignment other than 3 or 4 is refused |
| `LstiRejects.SectionChecked` | src/thunk/lsti.c:1018-1030 | Any file is refused once the offset and size of a section leave it or the offset is not aligned |
| `LstiRejects.MissingSectionRefused` | src/thunk/lsti.c:1050-1052 | Any file without a thunk table or without roots is refused |
| `LstiRejects.CountChecked` | src/thunk/lsti.c:1053-1112 | Any file is refused once the count of a table, or of the index bytes of a blob, asks for more than the section holds |
| `LstiRejects.OffsetChecked` | src/thunk/lsti.c:1064-1075 | Any file is refused once an entry offset points into the offset table or leaves no room for an entry header |
| `LstiRejects.TruncatedRefused` | src/thunk/lsti.c:998-1030 | No proper prefix of a written image is accepted |
| `LstiExamples.StoredTexts` | src/thunk/lsti.c:626-702 | The stored bytes of strings, symbols, references and builtins |
| `LstiExamples.StoredNumbers` | src/thunk/lsti.c:622-631 | The stored bytes of integers, in two's complement |
| `LstiExamples.StoredNodes` | src/thunk/lsti.c:654-735 | The stored bytes of constructors, bottoms, applications and choices |
| `LstiExamples.ExampleImage` | src/thunk/lsti.c:48-62 | The 192 bytes of the image of a constructor applied to a string, header, section table, padding and all |
| `LstiRoundTrip.WriteThenLoad` | src/tools/lslsti_check.c:86-119 | For any wired graph: the image is valid, loading it gives an isomorphic rooted graph, and the image of the loaded graph is byte for byte the same |
| `LstiThroughFile.WriteLoadWrite` | src/tools/lslsti_check.c:86-119 | Running writer, loader and writer again: isomorphic graph, older cells unchanged, identical files |
| `LstiWriter.Search` | src/thunk/lsti.c:195-203 | Linear search of a vector: the position of the first occurrence, or -1 |
| `LstiWriter.AddPool` | src/thunk/lsti.c:140-190 | A text is appended to its pool exactly when the pool does not hold it |
| `LstiWriter.Collect` | src/thunk/lsti.c:205-304 | The search loop ends with the numbering of the reachable nodes and with both pools in first-use order |
| `LstiWriter.Pad` | src/thunk/lsti.c:63-77 | Appends zero bytes up to the next aligned position and nothing else |
| `LstiWriter.WriteBlob` | src/thunk/lsti.c:339-400 | Writes a blob and assigns each text the sum of the lengths before it |
| `LstiWriter.WriteEntry` | src/thunk/lsti.c:612-862 | Writes the encoding of one numbered node, and fails exactly if it has a null pointer |
| `LstiWriter.WriteThunkTab` | src/thunk/lsti.c:583-883 | Writes count, offset table and entries, the offsets filled in afterwards |
| `LstiWriter.WriteRoots` | src/thunk/lsti.c:885-914 | Writes the numbers of the roots in order, failing exactly on a null root |
| `LstiWriter.BackfillSections` | src/thunk/lsti.c:916-940 | Overwrites the reserved section table with the entries, and nothing else |
| `LstiWriter.CompleteIff` | src/thunk/lsti.c:893-903 | Every pointer got a number exactly if no null was reached |
| `LstiWriter.Write` | src/thunk/lsti.c:79-945 | Succeeds exactly if no null pointer is reached; then the file is the image of the graph's table |
| `LstiReader.Validate` | src/thunk/lsti.c:998-1222 | Returns 0 exactly for the valid images |
| `LstiReader.AllocAll` | src/thunk/lsti.c:1295-1660 | First pass: one node per entry with its children still missing, and the pending edges noted |
| `LstiReader.WireAll` | src/thunk/lsti.c:1661-1688 | Second pass: every node gets the children its entry names |
| `LstiReader.Materialize` | src/thunk/lsti.c:1224-1707 | An invalid image changes nothing; a valid, safe and decodable one is loaded on top of the heap, with its roots in order |
| `InternProbe.StopsDecides` | src/common/str.c:52-69 | Probing stops at the entry with these bytes if there is one: membership is decided by one probe |
| `InternProbe.InsertKeeps` | src/common/str.c:147-159 | Putting an absent string where probing stops keeps every entry reachable and adds exactly that string |
| `InternProbe.VacateStarts` | src/common/str.c:98-107 | Vacating a slot breaks at most the probe paths of the entries up to the end of its cluster |
| `InternProbe.ReinsertLands` | src/common/str.c:109-120 | Probing again for the next entry of the cluster lands on an empty slot at or before its own |
| `InternProbe.ReinsertKeeps` | src/common/str.c:109-120 | Each round of the re-insertion loop keeps its invariant and the set of entries, wrap-around included |
| `InternProbe.MovedAll` | src/common/str.c:109-120 | At the end of the cluster every entry is reachable from its home slot again |
| `InternTable.CountIsCard` | src/common/str.c:52-69 | With no string stored twice the number of occupied slots is the number of strings |
| `InternTable.CalcHash` | src/common/str.c:29-35 | The loop computes the 32-bit multiplicative hash |
| `InternHash.HashIsNumber` | src/common/str.c:29-35 | The hash is the number whose digits to the base 31 are the bytes, first byte first, modulo 2^32; probing starts at its remainder by the capacity |
| `InternTable.GetRaw` | src/common/str.c:52-69 | The probe loop ends, at the slot with the bytes or at the first empty slot after the home slot |
| `InternTable.ReinsertCluster` | src/common/str.c:109-120 | The re-insertion loop ends, loses nothing, and restores reachability |
| `InternTable.Table.constructor` | src/common/str.c:171-180 | Sixteen empty slots |
| `InternTable.Table.Resize` | src/common/str.c:71-96 | A table of another capacity holds exactly the same string objects; every re-insertion finds an empty slot |
| `InternTable.Table.DelRaw` | src/common/str.c:98-123 | Deletion removes exactly that string, and every other one is still found |
| `InternTable.Table.Del` | src/common/str.c:125-137 | Deletion with shrinking keeps exactly the other strings, provided one is left; afterwards more than a quarter of the slots are taken, and at most half of them if the table shrank |
| `InternTable.Table.PutRaw` | src/common/str.c:147-159 | The object already stored, or a new one and nothing else changed |
| `InternTable.Table.New` | src/common/str.c:161-187 | Interning after growing: the same object for stored bytes, otherwise a fresh one; more than half the slots stay empty, and the table grows exactly when it must and to at most four times the strings |
| `InternHistory.PutStep` | src/common/str.c:182-187 | One insertion keeps the bookkeeping of which objects were handed out |
| `InternHistory.DropStep` | src/common/str.c:139-145 | One deletion keeps it |
| `InternHistory.Run` | src/common/str.c:125-187 | Over every history, of any length, of insertions and deletions that leave an entry, with fewer than 2^30 - 1 strings live before each insertion: two insertions give the same object exactly if the bytes are equal and were not deleted in between, and the table holds exactly the live strings |
| `StrLiteral.CharStep` | src/common/str.c:356-406 | Parsing one printed character gives what it rereads as: itself below 128 |
| `StrLiteral.HighStep` | src/common/str.c:398-400 | From 128 on the printed escape has eight digits, of which two are read |
| `StrLiteral.LiteralRoundTrip` | src/common/str.c:327-406 | Parsing the printed literal, whatever follows it, gives the string exactly if all its characters are below 128 |
| `StrLiteral.PrintLiteral` | src/common/str.c:356-406 | The printing loop writes the escaped characters between quotes |
| `StrLiteral.Cursor.TakeHex` | src/common/str.c:235-260 | Two hexadecimal digits, one, or an error, as the specification says |
| `StrLiteral.Cursor.TakeEsc` | src/common/str.c:262-325 | The escape after a backslash |
| `StrLiteral.Push` | src/common/str.c:341-347 | Stores a character and leaves room for the closing zero, doubling the buffer if needed |
| `StrLiteral.ParseLiteral` | src/common/str.c:327-354 | The parser with its growing buffer: every write is inside the capacity and the result is the specified one |
| `StrEscapes.HexPair` | src/common/str.c:234-260 | Backslash, x and two hexadecimal digits of either case, by tables of digits, give sixteen times the first and the second, and leave the rest |
| `StrEscapes.HexSingle` | src/common/str.c:234-260 | One hexadecimal digit before another character gives that digit, and the character is lost |
| `StrEscapes.HexNone` | src/common/str.c:234-260 | Without a hexadecimal digit the escape is the letter x, and the character after it is lost |
| `StrEscapes.OctPair` | src/common/str.c:262-274 | Two octal digits give eight times the first and the second |
| `StrEscapes.OctSingle` | src/common/str.c:262-274 | One octal digit before another character gives that digit, and the character is lost |
| `StrEscapes.LetterEscape` | src/common/str.c:276-325 | Every letter escape, in either case, by a table of letters and control characters |
| `StrEscapes.OtherEscape` | src/common/str.c:276-325 | Any other character stands for itself |
| `StrEscapes.HexLiteral` | src/common/str.c:327-354 | A whole literal that is one hexadecimal escape is parsed to that one character |
| `StrEscapes.NoLiteral` | src/common/str.c:327-346 | Without an opening quote, or without any quote after it, there is no literal |
| `StrEscapes.PrintedHex` | src/common/str.c:356-406 | What is printed for a character without a short form, by a table of digits |
| `CoreIr.EvalMonotone` | src/coreir/cir_eval_runtime.c:395-478 | More fuel never changes the result of a run and only extends the trace of an unfinished one |
| `EvalExamples.ConditionTaken` | src/coreir/cir_eval_runtime.c:191-203 | Zero, unit and the symbol `false` take the else branch, and nothing else does |
| `EvalExamples.RuntimeMatch` | src/coreir/cir_eval_runtime.c:458-470 | The runtime evaluator goes to the first case that cannot fail and binds nothing |
| `EvalExamples.RuntimeNoCase` | src/coreir/cir_eval_runtime.c:458-476 | Without such a case the result is a bottom with the message `match: no case` and the value matched on |
| `EvalExamples.CleanMatch` | src/coreir/coreir_clean.c:1091-1105 | The clean evaluator goes to the first case of whose pattern the value is an instance, and binds the parts |
| `EvalExamples.CleanNoCase` | src/coreir/coreir_clean.c:1091-1105 | Without such a case it gives unit |
| `EvalExamples.StaticScope` | src/coreir/cir_eval_runtime.c:395-437 | A call sees the bindings of the definition, not those of the call |
| `EvalExamples.FailedCall` | src/coreir/cir_eval_runtime.c:395-412 | Calling what is no closure, or with any number of arguments but one, gives unit |
| `CoreIr.MatchExact` | src/coreir/coreir_clean.c:999-1043 | A pattern matches exactly its instances, and binds exactly its variables, left to right |
| `CoreIr.PatMatchEnv` | src/coreir/coreir_clean.c:999-1043 | The matcher with its loop over sub-patterns computes that match |
| `Effects.ValidateVal` | src/coreir/cir_effects_type.c:44-61 | The number of errors in a value |
| `Effects.ValidateExpr` | src/coreir/cir_effects_type.c:63-122 | The number of errors in an expression under a token scope |
| `Effects.RunAuthorized` | src/coreir/cir_eval_runtime.c:395-478 | The invariant of every run: with validated code and validated closures every effect application is reached with a token and names it by a variable |
| `Effects.ValidatorSound` | src/coreir/cir_effects_type.c:124-129 | If the validator reports no error, no run, of whatever length, reaches an unauthorized effect application |
| `EffectSites.Count` | src/coreir/cir_effects_type.c:44-129 | The number of errors under any path of enclosing lets and lambdas is the number of effect applications visited whose path has no let of a token after its last lambda, plus the number whose token operand is no variable |
| `EffectSites.WhatIsVisited` | src/coreir/cir_effects_type.c:44-61 | The runtime's validator looks into lambdas, with no token, and into namespace members, not into constructors |
| `EffectSites.ReportsExactly` | src/coreir/cir_effects_type.c:124-129 | So a whole program gets no error exactly if every effect application is in scope of a token and names one |
| `EffectSites.HelloAccepted` | test/coreir/t07_coreir_effect.coreir.out:2 | The program in this file is accepted, and its one effect application is reached with its token |
| `EffectSites.EffectGivesUnit` | src/coreir/cir_eval_runtime.c:444-455 | An effect application is noted and gives unit, whatever its operands |
| `Effects.ThoroughAddsNothing` | src/coreir/coreir_clean.c:597-666 | With no lambda under a constructor the clean validator misses nothing |
| `Effects.CleanValidatorSound` | src/coreir/coreir_clean.c:597-672 | The clean evaluator, which opens constructors, is safe if the validator would find no error inside constructors either |
| `Effects.CleanSoundWithoutLambdas` | src/coreir/coreir_clean.c:597-672 | In particular it is safe if its own validator finds no error and no lambda occurs under a constructor |
| `Effects.CleanValidatorUnsound` | src/coreir/coreir_clean.c:1091-1105 | A report of no errors by its own validator alone is not enough: the tree `ESCAPE`, a lambda taken out of a constructor and applied, performs an effect without a token |
| `LoweringNulls.ExprWhole` | src/coreir/cir_lower_print.c:222-340 | Lowering leaves no null pointer exactly for the terms whose constructor arguments are values |
| `LoweringMeaning.OperandsFresh` | src/coreir/cir_lower_print.c:213-220 | The names generated for the operands of one application are distinct |
| `LoweringMeaning.FunctionNameFresh` | src/coreir/cir_lower_print.c:501-509 | No operand has the name generated for the function |
| `LoweringMeaning.ValueCorrect` | src/coreir/cir_lower_print.c:240-290 | A term that lowers to a value evaluates, without a call, to the value of its lowering |
| `LoweringMeaning.ApplicationCorrect` | src/coreir/cir_lower_print.c:475-513 | An application with its generated lets means what the source application means |
| `LoweringMeaning.ConditionalCorrect` | src/coreir/cir_lower_print.c:324-340 | A lowered conditional means what the source conditional means |
| `LoweringMeaning.BindingsCorrect` | src/coreir/cir_lower_print.c:292-312 | The nested lets of a closure bind what its sequential bindings bind |
| `LoweringMeaning.LowerCorrect` | src/coreir/cir_lower_print.c:314-551 | In related environments the lowered and the source term run out of the same fuel together or finish with related values |
| `LoweringMeaning.ProgramCorrect` | src/coreir/cir_lower_print.c:553-561 | The same for whole programs, from the empty environment and for both evaluators |
| `LoweringMeaning.LostConstructor` | src/coreir/cir_lower_print.c:230-233 | A constructor argument that is no value is lost: the lowering of `ifthenelse 1 (Box (f 1)) 0` evaluates to unit, at every depth, instead of a `Box` |
| `IrExamples.PlainApplication` | src/coreir/cir_lower_print.c:475-513 | An application of a name to any number of names is lowered as it stands, but for `ifthenelse` with three of them |
| `IrExamples.NamedCondition` | src/coreir/cir_lower_print.c:324-340 | A condition that is a call is named `c$1` |
| `IrExamples.NamedArguments` | src/coreir/cir_lower_print.c:475-513 | Arguments that are calls are named `a$1` and `a$2`, the first outermost |
| `LoweringRun.Lowerer.Fresh` | src/coreir/cir_lower_print.c:213-220 | The counter is bumped and the name carries it |
| `LoweringRun.Lowerer.Values` | src/coreir/cir_lower_print.c:222-238 | Constructor arguments in order, giving up at the first that is no value |
| `LoweringRun.Lowerer.Val` | src/coreir/cir_lower_print.c:240-290 | The value of a term and the counter after it |
| `LoweringRun.Lowerer.Application` | src/coreir/cir_lower_print.c:475-513 | The loops over operands and lets compute the lowering of an application |
| `LoweringRun.Lowerer.Closure` | src/coreir/cir_lower_print.c:292-312 | The loop over bindings, from the last, computes the lowering of a closure |
| `LoweringRun.Lowerer.Expr` | src/coreir/cir_lower_print.c:314-551 | The lowering with its counter updated in place is the specified lowering |
| `IrRoundTrip.KeywordMiss` | src/coreir/cir_text_reader.c:246-254 | A keyword is recognized in front of a word exactly if it is a prefix of the word |
| `IrRoundTrip.IntegerHit` | src/coreir/cir_text_reader.c:83-100 | Every 64-bit integer reads back, the minimum through wrap-around |
| `IrRoundTrip.ReadVal` | src/coreir/cir_text_reader.c:256-339 | A printed readable value reads back as itself and leaves what follows it |
| `IrRoundTrip.ReadExpr` | src/coreir/cir_text_reader.c:341-434 | A printed readable expression reads back as itself and leaves what follows it |
| `IrRoundTrip.ExprImage` | src/coreir/cir_text_reader.c:341-506 | Whatever the reader returns is readable: no other expression is ever read |
| `IrRoundTrip.HeaderNeverChecked` | src/coreir/cir_text_reader.c:594-613 | No text whatever is refused for its header: the check runs after all comment lines have been skipped |
| `IrRoundTrip.HeaderIgnored` | src/coreir/cir_text_reader.c:594-613 | A text reads the same with any comment line in front, whatever version it names |
| `IrRoundTrip.HeaderCheckRefuses` | src/coreir/cir_text_reader.c:596-612 | The check itself would refuse another version |
| `IrReader.ReadHeader` | src/coreir/cir_text_reader.c:596-612 | The loops of the header check |
| `IrRoundTrip.PipeIdentity` | src/coreir/cir_lower_print.c:612-682 | Printing a program and reading it back gives the same program exactly if it is readable |
| `IrExamples.HelloText` | src/coreir/cir_lower_print.c:612-682 | The text of the effect program above |
| `IrExamples.ChoiceText` | src/coreir/cir_lower_print.c:612-682 | The text of `ifthenelse true 1 2`, lowered |
| `IrExamples.BareSymbol` | src/coreir/cir_text_reader.c:328-338 | A bare symbol, which is never printed, is read as the variable of that name |
| `IrLayout.ReadAfterLayout` | src/coreir/cir_text_reader.c:23-36 | After any white space and comments every token, value and expression is read the same |
| `IrLayout.NumeralRead` | src/coreir/cir_text_reader.c:83-100 | Any numeral, with leading zeros or out of range, is read as its number modulo 2^64 |
| `IrLayout.IntegerRead` | src/coreir/cir_text_reader.c:83-100 | A numeral ends at what is no digit, and a sign in front negates it |
| `IrRejects.UnclosedInt` | src/coreir/cir_text_reader.c:256-262 | An integer followed by another item instead of its closing parenthesis is refused |
| `IrRejects.UnclosedStr` | src/coreir/cir_text_reader.c:263-268 | A string before another item or the end of the text is refused |
| `IrRejects.UnclosedVar` | src/coreir/cir_text_reader.c:269-274 | A variable before another item is refused |
| `IrRejects.UnclosedLam` | src/coreir/cir_text_reader.c:275-281 | A lambda before another item or the end of the text is refused |
| `IrRejects.UnclosedLet` | src/coreir/cir_text_reader.c:358-365 | A `let` with a fourth part, or cut off before its parenthesis, is refused |
| `IrRejects.UnclosedIf` | src/coreir/cir_text_reader.c:366-373 | The same for `if` |
| `IrRejects.StrayClose` | src/coreir/cir_text_reader.c:427-434 | Neither the empty text nor one that starts with a closing parenthesis holds a program |
| `Pipeline.LoweredReadable` | src/coreir/cir_lower_print.c:314-551 | The lowering of a term with plain names can be read back: generated names survive the text form |
| `Pipeline.EndToEnd` | src/coreir/cir_lower_print.c:553-682 | Lowering, printing, reading and evaluating gives what direct evaluation of the source term gives |
| `IrReader.Reader.SkipSpace` | src/coreir/cir_text_reader.c:23-36 | The loop over white space and comments |
| `IrReader.Reader.AcceptChar` | src/coreir/cir_text_reader.c:37-44 | Consumes the character if it is next |
| `IrReader.Reader.AcceptKeyword` | src/coreir/cir_text_reader.c:246-254 | Consumes the keyword if it is next |
| `IrReader.Reader.ReadSymbol` | src/coreir/cir_text_reader.c:50-66 | A symbol up to a delimiter |
| `IrReader.Reader.ReadString` | src/coreir/cir_text_reader.c:68-81 | A quoted string |
| `IrReader.Reader.ReadInt` | src/coreir/cir_text_reader.c:83-100 | An integer, digit by digit |
| `IrReader.Reader.ReadValTail` | src/coreir/cir_text_reader.c:436-506 | A value after its parenthesis |
| `IrReader.Reader.ReadMembers` | src/coreir/cir_text_reader.c:282-309 | The loop over namespace members |
| `IrReader.Reader.ReadArgs` | src/coreir/cir_text_reader.c:316-324 | The loop over arguments |
| `IrReader.Reader.ReadExprTail` | src/coreir/cir_text_reader.c:341-424 | An expression after its parenthesis |
| `IrReader.ReadText` | src/coreir/cir_text_reader.c:563-626 | Reading a whole text computes the specified result |
| `SubstRank.RankExists` | src/thunk/thunk.c:1741-1753 | A rank that falls along function edges exists exactly if no cycle consists of function edges only |
| `SubstRank.LevelExists` | src/thunk/thunk.c:1741-1753 | A rank that moreover never rises along an edge exists exactly if no cycle goes through a function edge |
| `SubstRank.AcyclicSuffices` | src/thunk/thunk.c:1697-1784 | Acyclic graphs have neither kind of cycle |
| `SubstRank.FuncAcyclicKept` | src/thunk/thunk.c:1741-1753 | The copies close no cycle of function edges |
| `SubstRank.CopiedAll` | src/thunk/thunk.c:1697-1784 | Every compound reached from a copied node is copied too |
| `SubstWalk.EndsExactly` | src/thunk/thunk.c:1697-1784 | The recursion, indexed by its depth, ends within some depth exactly if no cycle reached consists of function edges only |
| `SubstGraph.UnfoldPreserved` | src/thunk/thunk.c:1705-1726 | Nodes of the original graph unfold as before, although references may have cached their targets |
| `SubstGraph.CapturedExactly` | src/thunk/thunk.c:1705-1726 | A reference is replaced exactly if it resolves, by its cache or else its environment, to a reference bound within the parameter in question, and then by the thunk bound there |
| `SubstRank.NothingToReplace` | src/thunk/thunk.c:1705-1726 | If no such reference is reached the substituted tree is the unfolding itself |
| `SubstGraph.CopyRebuilt` | src/thunk/thunk.c:1697-1784 | A copied node has the shape of its original and, in each place, what stands for the child there; no reference to the parameter is left in it |
| `SubstGraph.UnfoldImage` | src/thunk/thunk.c:1697-1784 | A finished copy unfolds, at every depth, to the substituted tree |
| `Subst.Substituter.SubstReference` | src/thunk/thunk.c:1705-1726 | A reference resolving to a bound place of the parameter gives the thunk bound there, any other, of another parameter too, itself; its target may be cached |
| `Subst.Substituter.SubstRec` | src/thunk/thunk.c:1697-1784 | The recursion ends, keeps all copies made so far, and returns an image of its node |
| `Subst.Substituter.SubstConstr` | src/thunk/thunk.c:1727-1740 | A constructor is memoised before its arguments are followed |
| `Subst.Substituter.SubstApply` | src/thunk/thunk.c:1741-1753 | An application is memoised after its function has been followed |
| `Subst.Substituter.SubstAlt` | src/thunk/thunk.c:1754-1765 | A choice |
| `Subst.Substituter.SubstLambda` | src/thunk/thunk.c:1766-1777 | A lambda: its body is entered, its parameter kept |
| `Subst.Substituter.SubstParam` | src/thunk/thunk.c:1786-1789 | If no cycle reached consists of function edges only: the result stands for its argument, every copy is its original rebuilt with no reference to the parameter left, the result unfolds to the substituted tree, the old nodes are kept, and the nodes copied are exactly the compounds reached without passing a reference; none is copied twice on an acyclic graph, and more generally if no cycle reached goes through a function edge |
| `Varint.UlebLength` | src/thunk/thunk.c:1798-1811 | n bytes of ULEB128 suffice exactly for the values below 2^(7n) |
| `Varint.SlebLength` | src/thunk/thunk.c:1813-1829 | n bytes of SLEB128 suffice exactly for the values of 7n bits, sign included |
| `Varint.AtMostTenBytes` | src/thunk/thunk.c:1798-1829 | Ten bytes hold every 64-bit value |
| `Varint.Uleb` | src/thunk/thunk.c:1798-1811 | The encoding is a terminated group sequence with the value encoded |
| `Varint.Sleb` | src/thunk/thunk.c:1813-1829 | The same for signed values |
| `Varint.DecodeExact` | src/thunk/thunk.c:1831-1873 | From every stream that starts with a terminated group of at most ten bytes both decoders read its value modulo 2^64 and leave the rest |
| `Varint.DecodeRefuses` | src/thunk/thunk.c:1831-1873 | Every other stream is refused |
| `Varint.TruncatedRefused` | src/thunk/thunk.c:1831-1873 | A value cut off before its last byte is refused by both readers |
| `Varint.VarintRoundTrip` | src/thunk/thunk.c:1798-1873 | Every 64-bit unsigned and signed value reads back, the minimum included, whatever follows it |
| `Varint.Examples` | src/thunk/thunk.c:1798-1829 | The bytes of several values, those around one byte among them |
| `Pool.WriteVaruint` | src/thunk/thunk.c:1798-1811 | The loop appends the ULEB128 encoding |
| `Pool.WriteVarint` | src/thunk/thunk.c:1813-1829 | The loop appends the SLEB128 encoding |
| `Pool.DecodeGroups` | src/thunk/thunk.c:1831-1866 | The decoding loop |
| `Pool.ReadVaruint` | src/thunk/thunk.c:1831-1849 | Reads an unsigned value and leaves the rest |
| `Pool.ReadVarint` | src/thunk/thunk.c:1851-1873 | Reads a signed value and leaves the rest |
| `Pool.PoolRoundTrip` | src/thunk/thunk.c:2013-2065 | A pool of fewer than 2^32 strings reads back as the same strings and leaves exactly the bytes that follow |
| `Pool.TruncatedPool` | src/thunk/thunk.c:2027-2065 | No proper prefix of a pool is read as a pool |
| `Pool.TwoStrings` | src/thunk/thunk.c:2013-2025 | The five bytes of a pool of two strings |
| `Pool.WritePool` | src/thunk/thunk.c:2013-2025 | The loop appends the pool |
| `Pool.ReadPool` | src/thunk/thunk.c:2027-2065 | The loop reads the pool |
| `Pool.PoolThroughFile` | src/thunk/thunk.c:2013-2065 | Writing a pool to a file, something after it, and reading it back |
| `HashTable.ReplaceRepresents` | src/common/hash.c:96-102 | Overwriting the value of an entry changes exactly that binding |
| `HashTable.AppendRepresents` | src/common/hash.c:104-109 | Appending to the chain of a new key adds exactly that binding |
| `HashTable.UnlinkRepresents` | src/common/hash.c:180-192 | Unlinking an entry removes exactly that binding |
| `HashTable.PutRaw` | src/common/hash.c:88-109 | Reports and returns the old value exactly if the key was bound, and binds the key; its assertion that the entries are no more than the chains holds at every call |
| `HashTable.MoveChain` | src/common/hash.c:143-151 | The inner loop of rehashing moves every entry of a chain |
| `HashTable.Table.constructor` | src/common/hash.c:46-55 | An empty table |
| `HashTable.Table.Get` | src/common/hash.c:60-74 | The value bound to the key, if any |
| `HashTable.Table.Rehash` | src/common/hash.c:129-154 | Rehashing loses and duplicates nothing, and corrects a capacity below the size |
| `HashTable.Table.Put` | src/common/hash.c:156-174 | Up to capacity 2^26 exactly one binding changes; above, the table is taken for corrupt and emptied first; the capacity asked of rehashing is never corrected |
| `HashTable.Table.Remove` | src/common/hash.c:176-194 | Exactly that binding is removed and its value returned |
| `HashTable.Table.Foreach` | src/common/hash.c:111-121 | Every binding is visited once, and nothing else |
| `HashHistory.RefinesExactly` | src/common/hash.c:156-165 | A table of any capacity refines the map over a history, in every answer and after every operation, exactly if no insertion finds it above capacity 2^26 while it holds anything |
| `HashHistory.RoomyRefines` | src/common/hash.c:156-174 | This is so with fewer than 3 * 2^24 keys before each insertion from capacity 16, and with fewer than 3 * 2^23 from any capacity up to 2^26 |
| `HashHistory.Run` | src/common/hash.c:46-194 | Over every history, on a table of any capacity, the table goes through the specified states and gives their answers; where no insertion empties it these are contents, size and replies of the map |
| `NsMembers.CmpDecides` | src/builtins/ns.c:226-237 | The comparator decides byte-lexicographic order, and is 0 exactly on equal keys |
| `NsMembers.LessTransitive` | src/builtins/ns.c:226-237 | That order is transitive |
| `NsMembers.IncreasingUnique` | src/builtins/ns.c:296-299 | A strictly increasing list is determined by its elements |
| `NsMembers.Collect` | src/builtins/ns.c:204-224 | The callback collects exactly the symbol keys, without their tag |
| `NsMembers.QSort` | src/builtins/ns.c:296-296 | The items in strictly increasing order |
| `NsMembers.BuildList` | src/builtins/ns.c:247-255 | The cons list has the items in order |
| `NsMembers.Members` | src/builtins/ns.c:258-300 | The list has every member symbol exactly once, in strictly increasing order |
| `NsMembers.SameKeysSameList` | src/builtins/ns.c:258-300 | Two namespaces with the same keys give the same list, whatever their history, capacity and values |

## Left out

- LSTI lambda nodes and the pattern table: only the root pattern is pooled and its children are rejected.
- The location of a bottom thunk and the resolved target of a reference, which the image does not store.
- Images of 4 GiB and more: sizes and offsets are taken without wrap-around below that.
- LstiWriter.Write: starts on an empty file, as its callers in `src/tools/lslsti_check.c` do. Offsets in the image are positions in the file.
- LstiReader.Validate: does not model that the source reads the text length of a constructor or bottom, four bytes past the entry header, before it checks that the entry has room for it (`src/thunk/lsti.c:1140`, `src/thunk/lsti.c:1158`); on a short last entry that read leaves the image. The result is the same.
- LstiReader.Materialize: demands that child numbers and payloads are in range, because the validator does not check them and the loader does not either (`LstiRoundTrip.StrayAccepted`).
- InternTable.Table.Del: demands that an entry is left, because the shrink loop of the source does not end at size 0.
- InternTable.Table.New: demands fewer than 2^30 - 1 strings, so that the doubled sizes stay within 32 bits.
- Interned substrings made by `lsstr_sub`, and input buffers that alias an interned buffer: `lsstrcmp` takes equal buffers for equal strings.
- When the intern table is created: the model starts with the sixteen slots that the first use allocates.
- StrLiteral.ParseLiteral: returns the bytes; the source interns them.
- Effects.CleanValidatorUnsound: is about `match` trees that no code of the build makes, as said above.
- Native functions in the evaluators: none is ever created, and applying one is not modelled.
- Evaluation depth: a run is modelled as evaluation with some amount of fuel, which the source does not count; results do not depend on it (`CoreIr.EvalMonotone`).
- Lowering of choices, symbols, namespace literals and `prelude` heads, and lambda parameters that are not plain references.
- LoweringMeaning.LowerCorrect: leaves out the source terms just named.
- LoweringMeaning.ProgramCorrect: leaves out the same terms.
- LoweringRun.Lowerer.Val: leaves out namespace literals and parameters that are not plain references.
- LoweringRun.Lowerer.Closure: leaves out bindings to patterns other than plain references.
- LoweringRun.Lowerer.Expr: leaves out choices and `prelude` heads.
- Lowering.LowerExpr: the branches of a conditional are lowered then-branch first, an order C leaves open; the correctness proof holds from any counter value for each of them.
- Overflow of the generated-name counter, which is unbounded here.
- Reading `match` expressions and patterns: no printed text contains one, and the modelled reader gives up on the keyword.
- IrRoundTrip.IntegerHit: takes `v * 10 + d` in `src/coreir/cir_text_reader.c:93` to wrap around; reading the least 64-bit integer relies on that, which C leaves undefined for `long long`.
- IrRoundTrip.ExprImage: does not cover the `match` expressions and the trees with null pointers that the source reader can return.
- IrReader.Reader.ReadValTail: gives up where the source would build a value with a null pointer in it.
- IrReader.Reader.ReadMembers: gives up on a null member.
- IrReader.Reader.ReadArgs: gives up on a null argument and where the loop of the source would make no progress.
- IrReader.Reader.ReadExprTail: gives up on `match`.
- IrReader.ReadText: does not read `match` either.
- IrText.ParseVal: gives up where the source would build a tree with a null pointer in it or loop without reading on.
- The arity and kind checks of Core IR: the arity table is a stub.
- HashTable.Table: a chain is a sequence held in the array of chains; the pointer updates inside a chain are not modelled.
- HashTable.Table.Remove: does not model freeing the key and the entry.
- NsMembers.QSort: an insertion sort stands for the C library's `qsort`; by `NsMembers.IncreasingUnique` the order of the result does not depend on the method.
- NsMembers.CmpDecides: keys of 2^31 bytes and more, whose length difference does not survive the cast to `int`.
- NsMembers.Members: starts from the namespace; evaluating the argument, finding a named namespace and the error results are left out.
- Pool.ReadPool: an empty pool is returned by the source as a null pointer with count 0, here as an empty list.
- Subst.Substituter.SubstParam: demands that no cycle reached from its argument consists of function edges only; on such a cycle the source recurses for ever (`SubstWalk.EndsExactly`).
- The order in which an application's copy is allocated and its function followed, which no result depends on.
- Failure of memory allocation and of file operations, garbage collection and finalizers, which appear only as the operations they trigger.
- Call-by-need evaluation and runtime pattern matching of thunks, and LSTB files as a whole: `lssize_t` is unsigned, so that the tests for entries already collected always succeed.
- Or-patterns, the command line, module loading, the formatter and the editor extension.
