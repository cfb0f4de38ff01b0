# Findutils in Dafny

A model of the algorithms of GNU findutils, and proofs about them. Each part is an imperative form that follows the
C code statement by statement where the C code works in place, a specification function it is proved against, and
lemmas that say what that function is good for.

- **The find expression compiler** (`PredTree`, `TreeOpt`, `ArmSwap`, `ArmSwapExact`; on the heap `PredHeap`, `ArmSwapHeap`,
  `ExprParser`, `ExprBuild`). Tokens are parsed by precedence, the tree is normalised and reordered by `opt_expr`, and
  neighbouring arms are exchanged by `do_arm_swaps`, all by relinking `pred_left` and `pred_right` of the nodes the
  parser was given. An expression means a truth value and an ordered history of side effects, in a world where every
  primary's answer may depend on the effects before it. The optimised tree means the same as the user's expression,
  unless the arms of a comma whose value is used are exchanged by cost.
- **The locate database** (`LocateDb`, `Frcode`, `BigramCode`, `Locate`, `LocateSearch`). Two front-compressing
  encoders, their readers, the chain of visitors that filters entries, and the search over several databases. What the
  encoders wrote is read back, and searching it prints what filtering the original list prints.
- **Command lines** (`BuildCmd`, `Insert`, `XargsLexer`, `XargsRun`). Batching under byte and count limits, no sooner
  than the limits ask for, with fewer arguments tried after E2BIG; replacement of a pattern; the quoting lexer of xargs,
  for words written in any way; and a whole run of xargs.
- **The pool of children of xargs** (`PoolHistory`, `ProcPool`), driven by any finite script of exits, interruptions,
  forks and signals. A history says what has been used up of the script; what it leads to is a function of it, and the
  pool is proved to be in step with that function after every call.
- **The directory walk of find** (`FindWalk`) over possibly cyclic directory graphs, with the link-count shortcut.
- **Two library algorithms**: lazy cycle detection (`CycleCheck`) and name canonicalization (`Canonicalize`).

What the code calls and this model cannot see is a parameter: the answers of primaries, pattern matching, `stat` and
`last_component` in locate, the exec callback, the results of `waitpid`, `fork` and `read`, the signals that arrive,
the file system, and every input stream as a sequence of bytes or characters.

Where the code and its own comments or documentation differ, the model follows the code:

- `predlist_merge_sort` does not sort. It inserts below the first node that is not cheaper, so only the place of the
  maximum is certain; `TreeOpt.SortsFromScratchIff` says exactly when the list comes out sorted. The lists of
  `opt_expr` hold operands of one cost each, so what is left unsorted is their order by success rate.
- The comment above `consider_arm_swap` wants the left arm of an OR to be the one that succeeds most often, and of an AND
  the one that fails most often. At equal cost the code does the opposite: `ArmSwap.SwapsCostlierLast`.
- The same comment says arms of different cost are left alone. The code swaps them whenever the
  left one is costlier, under a comma too, where the value changes: `ArmSwap.CommaCounterexample` shows it, and
  `ArmSwapExact.OptimiseMeaningIff` says exactly when.
- `locate/locate.c` defines `NDEBUG`, so the assertions in its readers do nothing. The one that expects the last
  byte of an entry not to be a NUL would fail for every whole entry, because the length includes the NUL:
  `LocateDb.LastByteIsNul`.
- `locate_read_str` adds no terminator to text that the end of the file cuts off; `LocateDb.OutOfRangeIff` says exactly
  when what follows in the buffer was never written.
- `getword` is given a limit that leaves out the offset of 14 while the running count is below 14. A native word can
  then be taken for a byte-swapped one; `BigramCode.RoundTripIff` says exactly when that spoils the list.
- `frcode`'s fallback writes the negated old count, which is out of range for a short above 32768;
  `Frcode.StopsIff` says exactly when its assertion fails.
- The manual promises status 124 for a command that exited with 255, 125 for a signal, and 126 or 127 for a command
  that cannot be run. `wait_for_proc_all` replaces the code with 123 when some other child had failed:
  `PoolHistory.StatusIsLost`, and exactly when, `PoolHistory.ForcedStatusKeptIff`.
- With `-L`, `bc_do_exec` is called after every group, also when its last argument has just filled a command. The next
  command is then without arguments: `XargsRun.Xargs.FlushLines`.
- An empty quoted word at the very end of the input, with no newline behind it, is lost: `XargsLexer.LineAtEnd`.
- A newline that follows an escaped blank does not count as a line for `-L`: `XargsLexer.LineRoundTrip`.

## Model

| member | source | states |
|---|---|---|
| PredTree.PureKeepsHistory | find/pred.c:328-338 | evaluating an expression without side effects leaves the history of effects alone, in every world |
| PredTree.EvalIsRun | find/pred.c:381-389 | evaluating a normal spine is running its operands from the bottom up, each seeing the effects before it |
| PredTree.SameOperandsSameRun | find/pred.c:1603-1613 | two spines of one operator without effects and with the same operands, in any order, run alike |
| TreeOpt.InsertSplits | find/tree.c:398-429 | one round of the sort puts the node somewhere in the list and keeps the order of all others |
| TreeOpt.SortTimes | find/tree.c:373-439 | the sort keeps every operand exactly as often as it occurs |
| TreeOpt.SortHeadIsMax | find/tree.c:391-429 | the head of the result, which is evaluated last, is no cheaper than any other operand |
| TreeOpt.SortsIff | find/tree.c:391-429 | the list comes out sorted if and only if one scan of the input never meets a late operand cheaper than the one put last below the maximum |
| TreeOpt.SortsFromScratchIff | find/tree.c:390-438 | the same criterion for a sort that starts with the empty list, as the code's does |
| TreeOpt.SortCounterexample | find/tree.c:399-421 | three operands of an AND with one cost, as one list holds them, and success rates 0.9, 0.5 and 0.1 are not sorted |
| TreeOpt.MergePure | find/tree.c:441-457 | the merged lists are a spine of operands without side effects |
| TreeOpt.MergeTimes | find/tree.c:441-457 | merging keeps every operand of every list |
| TreeOpt.OptCopies | find/tree.c:684-847 | opt_expr keeps each primary of the expression exactly as often as it occurs |
| TreeOpt.OptEffect | find/tree.c:684-847 | opt_expr returns true exactly when some primary below has side effects |
| TreeOpt.OptNormal | find/tree.c:705-741 | every binary node's left child is absent or a node of the same operator |
| TreeOpt.OptMeaning | find/tree.c:684-847 | for every optimisation level, costs and rates, the result evaluates to the same value and the same history in every world |
| TreeOpt.OptOrdered | find/tree.c:764-806 | at every level, in each run of operands without effects on an AND or OR spine of the result: name tests come first, and from level 1 whatever needs no inode; then regex tests; at level 2 what needs the inode number and then what needs the type, unless a stat is asked for; above it every test, by cost |
| TreeOpt.OptLasts | find/tree.c:391-429 | with costs from a table, and from level 1, the last of the moved tests of one cost in a run is a likeliest one to succeed under AND, and to fail under OR |
| ArmSwap.SwapSettles | find/tree.c:627-649 | an exchange is never wanted twice in a row, so the loop of do_arm_swaps makes one at most at each node |
| ArmSwap.SwapMeaning | find/tree.c:498-504 | exchanging two neighbouring arms of AND or OR keeps value and history |
| ArmSwap.SwapHistory | find/tree.c:498-504 | an exchange keeps the side effects under every operator, the comma too |
| ArmSwap.SwapMeaningIff | find/tree.c:568-616 | for two different primaries the exchange keeps the meaning if and only if the operator is no comma |
| ArmSwap.CommaCounterexample | find/tree.c:1426-1435 | for `-size 3 , -name foo` as parsed, the two passes deliver an expression with another meaning, at every level |
| ArmSwap.SwapsCopies | find/tree.c:627-649 | do_arm_swaps keeps each primary as often as it occurs |
| ArmSwap.SwapsEffect | find/tree.c:460-475 | do_arm_swaps keeps whether a tree has side effects |
| ArmSwap.SwapsNormal | find/tree.c:1227-1244 | do_arm_swaps keeps the normal form that check_normalization asserts, and more |
| ArmSwap.SwapsMeaning | find/tree.c:627-649 | do_arm_swaps keeps the history, and the value where it is used, unless it exchanges the arms of a comma whose value is used |
| ArmSwap.CostlierArm | find/tree.c:560-616 | the decision at one node leaves the costlier of two arms without effects on the right, under any operator |
| ArmSwap.SwapsCostlierLast | find/tree.c:560-649 | after the pass the right arm is the costlier one; of two arms of one cost it is the one less likely to succeed under AND, more likely under OR, and under a comma the one it was |
| ArmSwap.SwapsCheapestFirst | find/tree.c:627-649 | on every spine of the result no operand of a run without effects is cheaper than the one evaluated first |
| ArmSwap.OptFree | find/tree.c:684-847 | opt_expr makes no comma of its own |
| ArmSwap.OptWorst | find/tree.c:684-847 | opt_expr leaves the worst cost of the expression as it is |
| ArmSwap.RerateMeaning | find/tree.c:1156-1219 | success rates mean nothing, so deriving new ones keeps value and history |
| ArmSwap.OptimiseMeaning | find/tree.c:1426-1435 | opt_expr and do_arm_swaps together keep the meaning, whatever rates are derived between them, if no exchange under a comma can be noticed |
| ArmSwap.OptimiseCommaFree | find/tree.c:1426-1435 | for a comma-free expression the whole optimiser keeps the meaning, whatever rates are derived |
| ArmSwapExact.Differs | find/tree.c:627-649 | where the arms of a comma whose value is used are exchanged, a world is found in which value or history changes, for every tree of different primaries |
| ArmSwapExact.SwapsMeaningIff | find/tree.c:627-649 | do_arm_swaps keeps the meaning of a tree of different primaries if and only if it exchanges no arms of a comma whose value is used |
| ArmSwapExact.OptimiseMeaningIff | find/tree.c:1426-1435 | the same for opt_expr and do_arm_swaps together, on any expression in which no primary occurs twice, whatever rates are derived between them |
| PredHeap.PredlistInsert | find/tree.c:340-352 | the node leaves the spine at its link and becomes the head of the list; both lists stay linked and apart |
| PredHeap.FindNotCheaper | find/tree.c:398-413 | the insertion loop stops at the first node that is not cheaper, or at the end |
| PredHeap.SortList | find/tree.c:373-439 | sorting in place leaves the same nodes linked in the order TreeOpt.MergeSort gives |
| PredHeap.MergeList | find/tree.c:915-920 | the sorted nodes hang at the link, above what was there |
| PredHeap.MergeLists | find/tree.c:441-457 | all thirteen lists end up in the spine, in merging order, as TreeOpt.MergeLists says |
| PredHeap.SetNewParent | find/tree.c:863-910 | a fresh node of the given precedence replaces the link, with the old subtree at its right |
| PredHeap.OptOperand | find/tree.c:811-821 | the operand under a NOT, AND or OR is optimised first and the result then stored, as TreeOpt.OptOperand says |
| PredHeap.OptStep | find/tree.c:734-841 | one turn of the scan leaves what remains to be done unchanged |
| PredHeap.OptSpine | find/tree.c:729-847 | the whole scan, with the final merge, computes TreeOpt.OptChain on the nodes themselves |
| PredHeap.Normalise | find/tree.c:705-720 | the leftmost operand gets a binary parent when it has none |
| PredHeap.OptExpr | find/tree.c:684-847 | on any linked tree the pointer algorithm leaves a linked tree over the old and some fresh nodes whose value and result are those of TreeOpt.OptExpr, with every spine in the order of TreeOpt.OptOrdered |
| ArmSwapHeap.SubtreeHasSideEffects | find/tree.c:460-475 | the answer is whether some primary below has side effects |
| ArmSwapHeap.WorstCost | find/tree.c:477-494 | the largest cost in the subtree |
| ArmSwapHeap.DeriveRates | find/tree.c:1156-1219 | deriving rates leaves the tree linked as it was; what they become is open |
| ArmSwapHeap.CompareArms | find/tree.c:560-604 | the tests of two arms by side effects, cost and success rate |
| ArmSwapHeap.ConsiderArmSwap | find/tree.c:522-625 | an exchange happens in place exactly when the value model wants one, the caller is told, and the costlier of two arms without effects is then on the right |
| ArmSwapHeap.PerformArmSwap | find/tree.c:498-504 | the two right arms change places and nothing else moves |
| ArmSwapHeap.DoArmSwaps | find/tree.c:627-649 | terminates, always returns false, and leaves the same nodes with the value ArmSwap.ArmSwaps gives for the rates the nodes have then: the costlier arm right of the root, a cheapest operand at the front of every run |
| ExprParser.ParsePrinted | find/tree.c:115-222 | reading back a printed expression gives that expression and goes on with what follows |
| ExprParser.RoundTrip | find/tree.c:115-282 | printing any expression and parsing it gives the same left-associative tree with all tokens used |
| ExprParser.FewestPairs | find/tree.c:115-282 | whatever tokens are parsed as a tree have at least as many parentheses as its printed form, so none of those can be dropped |
| ExprParser.InsertRestores | find/tree.c:1529-1575 | every -a the user left out is put back where it was, and nothing else is added |
| ExprParser.RoundTripImplicit | find/tree.c:1529-1575 | the round trip holds whichever of the -a operators are left implicit |
| ExprParser.ParsedTree | find/tree.c:208-222 | every tree the parser builds is ready for the optimiser, and each of its binary nodes has both arms |
| ExprParser.AcceptedIff | find/tree.c:115-282 | a token list is accepted if and only if operands and binary operators alternate, every parenthesis has its match, and none is empty or followed by an artificial token |
| ExprParser.ParsedTokens | find/tree.c:115-282 | the nodes of the tree from left to right are the tokens that are no parentheses, every one of them, in the order given |
| ExprParser.GetExpr | find/tree.c:115-222 | each call that succeeds leaves strictly fewer tokens |
| ExprBuild.GetExpr | find/tree.c:115-222 | the pointer form consumes the same tokens and builds, out of those very nodes, the tree ExprParser.GetExpr gives; it fails when that fails |
| ExprBuild.Negated | find/tree.c:170-174 | a NOT gets the expression read at its own precedence as its right arm |
| ExprBuild.Parenthesised | find/tree.c:176-201 | a parenthesis is read to its match, and every error case of the code is an error |
| ExprBuild.Continue | find/tree.c:208-222 | an operand goes on into a tighter operator exactly when one follows |
| ExprBuild.ScanRest | find/tree.c:237-282 | the loop hangs the tree built so far at the left of each operator, as ExprParser.ScanRest says |
| ExprBuild.ScanOperator | find/tree.c:261-269 | one turn of that loop |
| ExprBuild.Compile | find/tree.c:1426-1435 | the pointer forms of the two passes, with rates derived anew between them, compute the optimised tree on the nodes |
| ExprBuild.BuildExpressionTree | find/tree.c:1392-1435 | the tree left in the heap is normal, is the optimised form of the parsed tokens, and means what they mean unless an exchange under a comma can be noticed, and exactly then if no primary occurs twice; its spines are ordered as the two passes promise; it is refused exactly when the tokens are not well-formed |
| LocateDb.LinesJoined | locate/frcode.c:294-296 | reading lines back from their terminated form gives the lines |
| LocateDb.Shared | locate/code.c:112-120 | the two strings agree up to the length found and differ there |
| LocateDb.Overlaid | locate/locate.c:607-614 | overlaying the rest of an entry on the old name gives the entry as a C string |
| LocateDb.OutOfRangeIff | locate/locate.c:267-298 | the LOCATE02 reader uses bytes of its buffer that were never written if and only if the last entry is cut off before its NUL and nothing written earlier ends it |
| LocateDb.NeverOutOfRange | locate/locate.c:597-614 | that cannot happen to a database that ends in a NUL |
| LocateDb.LastByteIsNul | locate/locate.c:614-618 | the byte that an assertion expects not to be a NUL is one exactly for an entry that has its NUL |
| Frcode.CountPrefix | locate/frcode.c:127-141 | the common prefix length, capped below INT_MAX |
| Frcode.PutShort | locate/frcode.c:113-123 | both assertions hold exactly for a 16-bit number, whose two bytes then go out high byte first |
| Frcode.WriteEntry | locate/frcode.c:298-338 | the bytes of one entry: delta or escape and short, rest of the path, NUL |
| Frcode.Main02 | locate/frcode.c:285-350 | for any input bytes and delimiter, what is written is the magic and the encoding of the lines, or nothing if an assertion stops it |
| Frcode.DeltaRead | locate/locate.c:229-238 | every 16-bit delta is read back, from one byte or from the escape |
| Frcode.EntryRead | locate/locate.c:558-633 | one entry is read back and the reader is ready for the next |
| Frcode.EncodedSize | locate/frcode.c:298-338 | what is shared with the path before is not written again: one byte for a difference of at most 127, three for any other, then the rest of the path and its NUL |
| Frcode.RoundTrip | locate/locate.c:558-633 | every list frcode can write is read back whole, and never called corrupt |
| Frcode.StopsIff | locate/frcode.c:299-308 | put_short's assertion fails if and only if the shared prefix lengths climb from one of at most 32767 by steps that fit a short to one above 32768, and the step after it does not fit |
| Frcode.WrittenAndRead | locate/frcode.c:294-350 | whenever no assertion fails, the list written is read back whole from the start of the database |
| Frcode.ShortSharesRoundTrip | locate/frcode.c:294-350 | in particular when every shared prefix is at most 32768 bytes, and then every assertion holds |
| Frcode.StopsAfterALongPrefix | locate/frcode.c:300-307 | a family of lists on which the assertion fails |
| BigramCode.WordRead | locate/word_io.c:60-74 | a 32-bit word is read back in native order, and read as its byte swap in the other |
| BigramCode.StrIndex | locate/code.c:92-108 | the first occurrence, or -1 |
| BigramCode.SquelchPath | locate/code.c:222-227 | exactly the unprintable characters become question marks |
| BigramCode.PutWord | locate/word_io.c:156-176 | the word goes out in the byte order asked for |
| BigramCode.PutText | locate/code.c:250-267 | the text goes out with its even-offset bigrams as single bytes |
| BigramCode.ExpandShrink | locate/locate.c:525-545 | expanding the codes gives the text back, and no code looks like a count or an escape |
| BigramCode.HeadIs | locate/code.c:258-266 | a pair takes one byte exactly if its first occurrence in the table is at an even offset, and that byte stands for the pair |
| BigramCode.ShrinkLength | locate/code.c:250-267 | each such pair saves a byte |
| BigramCode.EncodedSize | locate/code.c:229-267 | the length of what is written: one byte for a difference of at most 14, five for any other, then the rest of the path less its coded pairs |
| BigramCode.TableIs | locate/code.c:205-215 | the table is the first line of the bigram file, newline included, as far as it fits, and zeros |
| BigramCode.WriteEntry | locate/code.c:229-267 | one entry: delta byte or escape and word, then the text |
| BigramCode.MainOld | locate/code.c:205-283 | the table and the encoding of the squelched lines; an error exactly for an empty bigram file |
| BigramCode.GuessDecodes | locate/word_io.c:76-118 | what decode_value makes of a natively written word in each state |
| BigramCode.MisguessIff | locate/locate.c:505-513 | the count comes out right exactly when the word is not taken for a swapped one |
| BigramCode.EntryRead | locate/locate.c:490-556 | one entry is read back, or comes out wrong exactly on a wrong guess |
| BigramCode.RoundTripIff | locate/locate.c:490-556 | for any bigram table, the reader recovers the list if and only if it never takes a native word for a swapped one |
| BigramCode.NeverMisguessed | locate/word_io.c:76-110 | that never happens when the native order is known or no path is longer than 113 bytes |
| BigramCode.MisguessedPair | locate/locate.c:505-512 | it does for two equal paths of 114 to 241 bytes at the start of a database |
| BigramCode.ForeignDecodes | locate/word_io.c:76-118 | what decode_value makes of a word of the other byte order in each state |
| BigramCode.KnownIsRecognised | locate/word_io.c:76-118 | once the other byte order is known every such word is recognised |
| BigramCode.ForeignRoundTrip | locate/locate.c:490-556 | a database of the other byte order is read back whole if every word is recognised |
| Locate.RunPatterns | locate/locate.c:362-374 | the pattern visitors accept if any, or if all, of the patterns match, whatever their order |
| Locate.ProcessMeans | locate/locate.c:376-419 | an entry is printed and counted exactly when it matches and passes the existence check, and the search stops exactly when that reaches the limit |
| Locate.FinishIs | locate/locate.c:859-881 | a search takes the selected entries in order, up to its room under the limit |
| Locate.FinishConcat | locate/locate.c:1757-1758 | searching two databases is searching their entries one after the other |
| LocateSearch.Search.GetShort | locate/locate.c:229-238 | the signed big-endian short, with an end of file read as one bits |
| LocateSearch.Search.ReadString | locate/locate.c:267-298 | the bytes up to the NUL, or up to the end of file without one, are overlaid at the shared prefix; nothing at end of file |
| LocateSearch.Search.VisitLocate02 | locate/locate.c:558-633 | the fields of process_data become those of the pure reader; corruption is reported exactly for a count outside the old name; an entry that nothing ends is marked |
| LocateSearch.Search.GetWord | locate/word_io.c:123-153 | the word and the byte-order state are those of DecodeWord; an error exactly when four bytes are not left |
| LocateSearch.Search.ReadText | locate/locate.c:522-553 | the text is expanded over the old name, up to the next count or escape |
| LocateSearch.Search.VisitOldFormat | locate/locate.c:490-556 | the fields of process_data become those of the pure old-format reader; a negative count is a fatal error |
| LocateSearch.Search.Inspect | locate/locate.c:635-881 | what each visitor answers, prints and counts |
| LocateSearch.Search.Visit | locate/locate.c:362-374 | the chain runs from one visitor to another while the answers are among the accepted ones |
| LocateSearch.Search.ProcessEntry | locate/locate.c:376-419 | one entry is read and judged as Locate.Process says |
| LocateSearch.Search.SetUpVisitors | locate/locate.c:1158-1337 | the order of the visitors, and the place past the patterns |
| LocateSearch.Search.SearchEntries | locate/locate.c:1347-1355 | every entry is judged, in order, until the limit or the end |
| LocateSearch.Search.SearchOneDatabase | locate/locate.c:1099-1392 | the format is told by the magic numbers, and all entries are then searched |
| LocateSearch.Search.DoLocate | locate/locate.c:1757-1886 | over several sound databases, what is printed is exactly the first limit selected entries, or all of them without a limit |
| LocateSearch.SoundIff | locate/locate.c:1347-1355 | a LOCATE02 database can be read to its end exactly if no count is out of range and the last entry is terminated |
| LocateSearch.CutOff | locate/locate.c:286-296 | a database cut off in the text of its first entry makes the code use unwritten bytes |
| LocateSearch.WrongStart | locate/locate.c:597-606 | a database whose first count is not zero is called corrupt |
| LocateSearch.SearchesTheList | locate/locate.c:1328-1355 | whenever no assertion fails, searching what frcode wrote prints what filtering its input prints |
| LocateSearch.SearchesTheOldList | locate/locate.c:1175-1205 | the same for the old format, whenever no word is misguessed and the table is no magic number |
| BuildCmd.Builder.UpdateLimit | lib/buildcmd.c:184-246 | the two marks and the new limit; a failure strictly lowers the limit, and it always leaves room for one argument |
| BuildCmd.Bisects | lib/buildcmd.c:217-235 | until a success is known each failure halves the limit, until a failure is known each success raises it by one; between a known success and a known failure it is bisected, until the two are neighbours |
| BuildCmd.Builder.CopyArgs | lib/buildcmd.c:252-272 | the initial arguments, then those not yet done up to the limit, then a null pointer |
| BuildCmd.AttemptTexts | lib/buildcmd.c:252-272 | what the program sees of one attempt is the initial arguments and one block |
| BuildCmd.Builder.ExecOnce | lib/buildcmd.c:295-319 | an attempt launches the next block or lowers the limit; it gives up only when at most one argument was refused |
| BuildCmd.NewCommand | lib/buildcmd.c:299-303 | the blocks launched so far, end to end, grow by exactly the block just launched |
| BuildCmd.Builder.Attempts | lib/buildcmd.c:288-322 | the loop terminates, and on success its commands carry the pending arguments, each once and in order |
| BuildCmd.Builder.DoExec | lib/buildcmd.c:278-326 | terminates for every behaviour of the callback; on success the commands' blocks are the pending arguments, each once and in order, behind the initial ones; if nothing is refused, or nothing is pending, it is one command with all of them |
| BuildCmd.Builder.ClearArgs | lib/buildcmd.c:609-617 | only the initial arguments and their bytes remain |
| BuildCmd.Builder.MakeRoom | lib/buildcmd.c:375-392 | when each error is raised, and when the list is run before an argument is stored: if nothing is refused, exactly when the argument does not fit behind the pending ones |
| BuildCmd.Builder.Append | lib/buildcmd.c:412-431 | the argument is stored, and the list is run exactly if that fills it |
| BuildCmd.Builder.PushArg | lib/buildcmd.c:359-438 | commands launched and arguments pending hold the old arguments and then the new one, nothing lost or repeated; from a list at rest a command is launched exactly when the argument does not fit arg_max or fills max_arg_count or args_per_exec, and with which arguments; and every command keeps all three limits if the argument fits behind the initial ones |
| BuildCmd.BatchPacks | lib/buildcmd.c:336-431 | so of two neighbouring commands the first had no room for the first argument of the second, and with -x and -n or -L it was full by count |
| Insert.SplitIs | lib/buildcmd.c:127-169 | the argument is cut at the leftmost non-overlapping occurrences of the pattern, and rejoining the pieces gives it back |
| Insert.FillBuffer | lib/buildcmd.c:116-172 | the buffer, which is never overrun, holds the replaced text; the error is raised exactly when that text is longer than arg_max - 2 |
| Insert.DoInsert | lib/buildcmd.c:104-178 | the argument pushed is the one with every occurrence replaced by prefix and line |
| XargsLexer.SkipSpaces | xargs/xargs.c:837-840 | white space between arguments is skipped, newlines too |
| XargsLexer.ReadPlain | xargs/xargs.c:843-910 | plain characters stand for themselves as far as they fit the buffer; more of them are the error |
| XargsLexer.ReadEscaped | xargs/xargs.c:927-929 | a character behind a backslash stands for itself, whichever it is |
| XargsLexer.ReadInQuotes | xargs/xargs.c:912-925 | behind a quote mark everything but that mark and a newline stands for itself |
| XargsLexer.Unclosed | xargs/xargs.c:912-920 | a quote not closed on its line is the error, and so at the end of the input unless nothing has been read |
| XargsLexer.ReadWord | xargs/xargs.c:843-948 | a word of plain, backslashed and quoted parts in any order comes out as what they stand for |
| XargsLexer.ReadItems | xargs/xargs.c:780-953 | words with white space between them are pushed one after another, the last is in the buffer |
| XargsLexer.LineRoundTrip | xargs/xargs.c:780-953 | a line of words is read as what they stand for, with the length, the line count and the rest that read_line leaves |
| XargsLexer.EofStops | xargs/xargs.c:863-889 | the end-of-file string as a word of its own ends the input, whatever follows; the words before it count |
| XargsLexer.LineAtEnd | xargs/xargs.c:811-834 | at the end of the input the last word counts without a newline, unless it stands for nothing |
| XargsLexer.InputRoundTrip | xargs/xargs.c:780-953 | however its words are written, an input of any lines is the list of what they stand for |
| XargsLexer.QuotingRoundTrip | xargs/xargs.c:780-953 | so xargs can be given any arguments that fit its buffer: every character behind a backslash, empty arguments as two quotes, with blanks between and a newline behind |
| XargsRun.QuotedArguments | xargs/xargs.c:722-727 | the same for a whole input, in the terms of ReadAndRun |
| XargsRun.WrittenArguments | xargs/xargs.c:722-727 | the same for an input of words written in any way |
| XargsRun.GroupsBounded | xargs/xargs.c:722-727 | a group of calls of read_line counts fewer than lines_per_exec lines before its last call, and every group but the last as many at least |
| XargsRun.GroupsTokens | xargs/xargs.c:722-727 | the groups together push every argument of the input, in order |
| XargsRun.GroupedBlocks | xargs/xargs.c:722-733 | commands that are divided as the groups are carry the arguments of all groups, in order |
| XargsRun.PushLine | xargs/xargs.c:868-872 | a finished argument goes to the builder; what has gone in is in commands or pending, in order |
| XargsRun.PushToken | lib/buildcmd.c:359-438 | and the commands stay packed |
| XargsRun.Xargs.ExecIfPossible | xargs/xargs.c:1248-1255 | whatever is pending is run before the program gives up, unless -x forbids it |
| XargsRun.Xargs.ReadEnd | xargs/xargs.c:811-834 | the end of input in each state |
| XargsRun.Xargs.ReadNewline | xargs/xargs.c:861-873 | a newline ends the call, or the input at the end-of-file string |
| XargsRun.Xargs.ReadBlank | xargs/xargs.c:880-897 | a blank ends an argument, or the input at the end-of-file string |
| XargsRun.Xargs.Read | xargs/xargs.c:780-953 | what is pushed, returned, counted and left unread is what the pure lexer says, for every input |
| XargsRun.Xargs.FlushLines | xargs/xargs.c:723-727 | the pending arguments become commands between two lines or at the end; with none pending that is one command without any |
| XargsRun.Xargs.ReadOne | xargs/xargs.c:722 | one call of read_line joins the group begun |
| XargsRun.Xargs.ReadLines | xargs/xargs.c:722-727 | the loop over the lines, with -L, runs the groups one after the other |
| XargsRun.Xargs.PushInitial | xargs/xargs.c:711-719 | the command and its fixed arguments are kept, or the error is raised exactly when they do not fit; as many as max_arg_count make a command of their own |
| XargsRun.Xargs.ReadAndRun | xargs/xargs.c:709-733 | over a whole run the commands' further arguments are the input's arguments, each once and in order; no command has arguments from two -L groups; every command keeps args_per_exec, max_arg_count and arg_max; of two neighbours in a group, if every command is launched and the input has no NUL, the first had no room for the first argument of the second; only the last command of a group may be without arguments, and without -L only the single one that is always run |
| XargsRun.Xargs.SomeRan | xargs/xargs.c:820-825 | when the input is malformed, every argument before the error is in a command, or pending if -x is given |
| XargsRun.GroupsWhole | xargs/xargs.c:931-941 | from an input without a NUL no argument is cut short |
| PoolHistory.Balanced | xargs/xargs.c:1260-1285 | over any history of forks, waits and signals every child launched is running or has been reaped, as often as it was launched |
| PoolHistory.AllReaped | xargs/xargs.c:1396-1413 | with no child running every child has been reaped as often as it was launched |
| PoolHistory.LaunchedIs | xargs/xargs.c:1222-1233 | the children launched are those of the forks used up whose exec succeeded, in order |
| PoolHistory.CheckedMeans | xargs/xargs.c:1093-1099 | the flag that every pool keeps true says that each child was launched with room at some moment since the launch before it |
| PoolHistory.NeverMoreThanPeak | xargs/xargs.c:1093-1099 | with a limit there are never more children than its highest value so far, whatever signals arrive |
| PoolHistory.NeverMoreThanMax | xargs/xargs.c:1436-1451 | without SIGUSR2 there are never more children than proc_max |
| PoolHistory.SignalsCount | xargs/xargs.c:1436-1451 | each SIGUSR1 adds a slot, each SIGUSR2 takes one away but never the last |
| PoolHistory.FlagsRightIff | xargs/xargs.c:1293-1342 | what the blocking flags of one call of wait_for_proc mean, event by event: a waitpid may block if and only if all are waited for, or fewer than minreap have been reaped and no SIGUSR1 came after the first waitpid since the last of them |
| PoolHistory.WaitsForOne | xargs/xargs.c:1093-1113 | a call of wait_for_proc for one child when there is no room, or for those that have ended already, blocks only without room |
| PoolHistory.ExitsMean | xargs/xargs.c:1374-1389 | an exit with 124 is forced exactly if a reaped child exited with 255, with 125 if one was killed or stopped, with 126 or 127 if a command could not be run or was not found |
| PoolHistory.StatusTable | xargs/xargs.c:1374-1389 | which statuses force an exit, and which are remembered as a failure |
| PoolHistory.ForcedStatusKeptIff | xargs/xargs.c:1415-1428 | an exit forced by a status of 255, a signal or a failed exec keeps its code if and only if no reaped child had failed |
| PoolHistory.StatusIsLost | xargs/xargs.c:1415-1428 | a history in which 255 should give status 124 and the status is 123 |
| ProcPool.Pool.Handle | xargs/xargs.c:1436-1451 | SIGUSR1 adds a slot and stops the wait; SIGUSR2 takes one away but never the last |
| ProcPool.Pool.HandleAll | xargs/xargs.c:1436-1451 | a batch of signals changes the limit one by one and stops the wait if SIGUSR1 is in it |
| ProcPool.Pool.AddProc | xargs/xargs.c:1260-1285 | the child gets a free slot, and procs_executing counts it |
| ProcPool.Pool.Grow | xargs/xargs.c:1269-1277 | a longer table with the old slots and zeros |
| ProcPool.Pool.AwaitAny | xargs/xargs.c:1326-1342 | waitpid is repeated while it is interrupted, and SIGUSR1 makes it not block unless all children are waited for |
| ProcPool.Pool.AwaitChild | xargs/xargs.c:1318-1372 | until a child of this table is reaped, which is then found in its slot, or waitpid returns zero; what is passed over is no child of the table |
| ProcPool.Pool.Remove | xargs/xargs.c:1374-1389 | the slot is freed; a status of 255 or a signal forces the exit code, and any other nonzero status makes child_error 123 |
| ProcPool.Pool.Turn | xargs/xargs.c:1301-1390 | one turn of the loop keeps the table, the counter and child_error those of the history |
| ProcPool.Pool.WaitForProc | xargs/xargs.c:1293-1391 | the table, procs_executing and child_error are those of the history; every waitpid may block exactly while all are waited for, or fewer than minreap are reaped and no SIGUSR1 came; it ends with no child or with zero from waitpid |
| ProcPool.Pool.AwaitSlot | xargs/xargs.c:1093-1099 | returns only with procs_executing below proc_max, or with no limit, and does not wait when there is room; without signals every waitpid that blocks is called without room |
| ProcPool.Pool.AwaitFork | xargs/xargs.c:1118-1121 | fork is called again after EAGAIN only, and only while a child may still end |
| ProcPool.Pool.Parent | xargs/xargs.c:1183-1240 | a child is recorded exactly when nothing could be read from the pipe; each errno and each failure of read has its own end |
| ProcPool.Pool.DoExec | xargs/xargs.c:1081-1244 | one child is forked and recorded exactly when its exec succeeded, with room at some moment since the call began, whatever signals arrive; without signals a waitpid blocks only where there is no room, unless fork has to be tried again; every exit has its cause in the history |
| ProcPool.Pool.AtExit | xargs/xargs.c:1396-1428 | any exit first waits for all children; child_error then replaces a status that main did not return |
| ProcPool.Pool.Run | xargs/xargs.c:722-769 | a normal end has forked once for every command and exits with child_error; any other end exits with the code forced, or 123; no child is left running |
| ProcPool.Pool.Meaning | xargs/xargs.c:1081-1428 | at any moment between two calls: launches and reaps balance, each launch had room, procs_executing is within the limit, and child_error is 123 exactly when a reaped child failed |
| FindWalk.Walker.DigestMode | find/util.c:684-739 | whether an entry passes for a directory; it is looked at exactly when it is a link to be followed, or of unknown type and not a leaf |
| FindWalk.Walker.OnBranch | find/find.c:1166-1174 | whether device and inode are those of a directory on the branch |
| FindWalk.Walker.Enter | find/find.c:1160-1191 | the directory goes on the branch; descent stops at the depth limit, a repetition or another device |
| FindWalk.Walker.ProcessDirectory | find/find.c:1151-1226 | a directory adds its part of the listing, before or after its contents, and the branch is restored; with wrong link counts some of that part, in its order |
| FindWalk.Walker.Contents | find/find.c:1193-1226 | the directory itself before or after its entries, whose listing is added between |
| FindWalk.Walker.ProcessPath | find/find.c:1123-1226 | terminates on any finite graph, restores branch and depth, visits exactly the listing of the cut unfolding, or paths among it if link counts are wrong, and returns whether the path is a directory; what passes for a leaf is visited alone |
| FindWalk.Walker.ProcessEntry | find/find.c:1373-1421 | one turn of the loop: the link count is counted down, and looked at only where it may be; a directory too many is warned of, link counts are given up, and it is listed whole; an entry of unknown type behind the last promised directory is taken for a leaf |
| FindWalk.Walker.TakeEntry | find/find.c:1350-1421 | the listing of the entries that are left is that of the next one and of the others |
| FindWalk.Walker.ProcessDir | find/find.c:1240-1423 | the entries' listings in order; with honest link counts no directory is taken for a leaf and nothing is warned of; with any, what is visited is among the listing, and a warning is given exactly when link counts are given up |
| FindWalk.Walker.Find | find/find.c:1123-1226 | over all starting points the visits are the expected listing, the same with the link-count shortcut and without; whatever the link counts say they are among it, in its order, and a warning is given exactly when link counts are given up |
| FindWalk.TreeOrder | find/find.c:1193-1220 | a directory comes before everything below it, or after all of it under -depth |
| FindWalk.LimitsFilter | find/find.c:1162-1164 | the same for any forest of paths: the depth limits only leave out paths |
| FindWalk.LimitsListed | find/find.c:1162-1164 | what find lists of a starting point is its unlimited listing without the paths outside -mindepth and -maxdepth |
| FindWalk.UnfoldReaches | find/find.c:1166-1174 | a path is listed if and only if its entries lead there without repeating a directory or leaving the device |
| FindWalk.KidsReach | find/find.c:1166-1191 | the same below one file |
| FindWalk.AmongTrans | find/find.c:1373-1421 | what is among a part of the listing is among the listing, in its order |
| CycleCheck.PowerTest | gnulib/lib/cycle-check.c:36-40 | i & (i - 1) is zero exactly for zero and the powers of two |
| CycleCheck.Checker.Check | gnulib/lib/cycle-check.c:57-85 | the new state and the answer of one call |
| CycleCheck.Checker.Descend | gnulib/lib/cycle-check.c:57-85 | a descent stops at the first call that returns true |
| CycleCheck.Recorded | gnulib/lib/cycle-check.c:68-82 | while no call has returned true, the recorded directory is that of the last call numbered by a power of two |
| CycleCheck.Sound | gnulib/lib/cycle-check.c:62-66 | before the counter wraps, true means the directory is that of an earlier call |
| CycleCheck.Complete | gnulib/lib/cycle-check.c:68-82 | a descent with period l from call m on is noticed no later than call p + l, for p any power of two that is at least m and l |
| Canonicalize.Buffer.Pop | gnulib/lib/canonicalize.c:147-155 | backing up over the buffer removes exactly the last component of the path, and nothing at the root |
| Canonicalize.Buffer.Push | gnulib/lib/canonicalize.c:156-180 | the component is appended to the path behind one slash, within a buffer grown as needed |
| Canonicalize.Buffer.Extend | gnulib/lib/canonicalize.c:163-176 | the larger buffer holds the old text and has room for the component and a NUL |
| Canonicalize.Backup | gnulib/lib/canonicalize.c:150-151 | the text before the previous slash is the path of the parent |
| Canonicalize.CanonicalizeFilename | gnulib/lib/canonicalize.c:82-276 | the buffer algorithm computes the walk of a component stack, and an empty name is an error |
| Canonicalize.PairCancels | gnulib/lib/canonicalize.c:145-155 | on the component stack a component and the ".." behind it cancel |
| Canonicalize.BackOut | gnulib/lib/canonicalize.c:147-155 | a component and the ".." behind it may be left out of a name anywhere |
| Canonicalize.DotOut | gnulib/lib/canonicalize.c:145-149 | so may a ".", and a ".." at the root |
| Canonicalize.SlashOut | gnulib/lib/canonicalize.c:135-137 | so may a slash before another or at the end |
| Canonicalize.Relative | gnulib/lib/canonicalize.c:98-122 | a relative name stands for the current directory, a slash and the name |
| Canonicalize.Form | gnulib/lib/canonicalize.c:76-80 | the result starts with one slash and has no empty, dot or dot-dot component and no slash at its end, except for the root |
| Canonicalize.FixedIff | gnulib/lib/canonicalize.c:76-80 | a name is left alone if and only if it has that form |
| Canonicalize.Idempotent | gnulib/lib/canonicalize.c:82-276 | applying the function again changes nothing |

## Left out

- `estimate_costs`, and how success rates are derived: costs and the rates of primaries are given, as real numbers, and the rates at the time of do_arm_swaps are left open.
- The error messages, and which of several messages a malformed expression or command gets; only that there is an error.
- `NO_TYPE` nodes, which no parser entry makes.
- `-prune`, failing `stat` calls, `safely_chdir`, unreadable directories and the fts-based walker.
- `-exec` and the other actions of find, printing, quoting of output, and the statistics of `locate -S`.
- `fnmatch`, `regex` and multibyte matching: a pattern is a predicate on the name, and `mbsstr` is a search for characters.
- slocate databases of levels 0 and 1, whose reader discards the second entry's count.
- Overflow of `int` counts on inputs longer than 2 gigabytes, and of `uintmax_t` counts of accepted entries.
- What a corrupt database makes the C code take in from bytes of its buffer that it never wrote; the model stops there.
- `read_string` for `-0` and `-d`, the replace-mode loop of main, and `-p`.
- Builder.PushArg: the limits of a command are stated for arguments without a prefix, because the size test of the code does not count the prefix.
- DoInsert: the pattern is not empty, and the line is a C string.
- CanonicalizeFilename: symbolic links, the modes that ask for existing components, and a current directory of PATH_MAX bytes or more, where the code starts with a buffer of another size.
- `DOUBLE_SLASH_IS_DISTINCT_ROOT`, which is zero on GNU systems.
- `CYCLE_CHECK_REFLECT_CHDIR_UP` and the magic number of cycle_check.
- Pool.DoExec: what happens between fork and exec in the child, and the waitpid for a child whose exec failed; a fork that returns the pid of an unreaped child ends the script.
- Pool.AtExit: an exit forced while the handler waits is undefined in POSIX; here it ends the program with its own code.
- Walker.ProcessPath: `dir_ids` is a sequence that grows and shrinks with the branch, where the code keeps an array and an index.
- Buffers that C reallocates are sequences in locate and in the builder; their sizes are arrays only in `Insert`, `Canonicalize`, `ProcPool` and `copy_args`.
