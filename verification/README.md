# Verified model of the fuzzer's core

This project models the stateful parts of the fuzzer and proves what they are meant to
guarantee.  `dafny verify dfyconfig.toml` checks all of it.

| files | part of the program |
|---|---|
| `Trees`, `Grammars`, `TreeNodes` | grammar trees as values and as heap nodes, derivations |
| `GrammarParser`, `GrammarLayouts`, `GrammarReader`, `GrammarTables` | the grammar file reader: the line parser, which lines it accepts, the loops, and what a file leaves in the table |
| `Generation`, `GenerationDraws` | random derivation under a depth limit, and what each draw decides |
| `Codec`, `Serializer` | the binary sample format |
| `Mutation`, `MutationDraws` | the four tree mutators, and what each draw decides |
| `Pruning`, `Attempts`, `Minimizer`, `Coverages` | the tree minimizer and the loop that drives it |
| `GrammarFuzzing` | mutating, running, minimizing and remembering samples, any number of times |
| `HotOffsets`, `Enumeration`, `DeterministicMutators`, `DeterministicOutputs`, `DeterministicRounds` | deterministic mutation around hot offsets |
| `SampleTrie` | the trie that finds where a sample first differs |
| `UpdateStreams`, `ServerLogs`, `Synchronization`, `Delivery` | coverage server, client, and runs of both |
| `Scheduling`, `FuzzerRuns`, `FuzzerJobs` | the job queue, runs of all threads over it, and which job each request gets |
| `CoverageAccounting` | stable and variable coverage |
| `Ranges` | consolidation of ranges |

Where the source changes objects in place, the model is a class with the same fields and
loops, and each method is tied to a function of the old state; what holds over runs is
proved about those functions.  Each section under a mutex is one step.

Three conventions run through the files:

* A tree in memory is described by its *shape*, a tree value that names the heap node at
  every place.  `Linked` says that the nodes hold what the shape says and are not freed;
  `Distinct` says that no node occurs twice; `Erase` forgets the node names.  A node has a
  ghost flag `live` that deleting it clears.  The fields of a node are read and written in
  its own class, by the methods that make new nodes while they fill them, and everywhere
  else through `Tag`, `Text`, `Children` and `SetChildren`, which require `live`.
* Strings and samples are `seq<char>`; a byte is a character below 256.
* The random generator is any finite record of draws, after which `RandReal` gives its
  largest value; a theorem about a method that takes it holds for every choice.  The tree
  generator and the mutators compute functions of the record: `Rest` is what is left of it,
  `Grow` the tree that it gives, `AttemptBy` the mutation; what draw number `i` decides is
  said by the lemmas of `GenerationDraws` and `MutationDraws`.  Target runs, broken
  connections, the clock and updates due are arbitrary inputs in the same way.

## Findings

* `GenerateTree` copies the earlier child with the same `id` without looking at the symbol.
  A generated tree is a derivation if parts of a rule that share an `id` name one symbol
  (`IdConsistent`), and a single rule expands to what it asks for exactly then
  (`ExpansionMatchesIff`).  `GeneratedNeedsConsistentIds` reads a grammar of three lines that
  is accepted, always generates a tree, and never one that is a derivation.  The mutators
  assume grammars whose ids are consistent.
* Attributes written in a constant or hexadecimal part stay for the next symbol of the rule:
  `<lt id=1><x>` gives `x` the `id` (`ConstantPassesId`).  A symbol reads back with the
  attributes written at it exactly when the terminals since the symbol before it wrote none
  that it does not write itself (`AttributesReadBackIff`).
* Of the blanks after the equals sign of a rule only the first does not count; a second one is
  text.  A character 0 ends a line.  `AcceptedIff` says of every line whether it is accepted.
* The grammar README says that the minimizer stops after a number of unsuccessful
  attempts; the code has no such counter, and its limit on nodes stops at "less or equal".
  The model follows the code.
* Equal subtrees for equal `id`s hold for generated trees (`ExpansionIdsAgree`).  A mutation
  of one child breaks them exactly when it changes the child and another part shares its `id`
  (`MutationBreaksIdsIff`, with an example in `MutationBreaksIds`), as the grammar README
  warns.
* A `MutatorSequence` that is exhausted has covered every window exactly when it restarts
  on hot offsets (`CompleteIffRestarts`); restarting each round is not enough.
* A deterministic mutator with no values at all hands out one that does not exist: with
  none, the first call after the first hot offset succeeds (`NoValuesReached`), and a value
  handed out exists exactly when there are any (`ValueExistsIff`).
* A poll that breaks off after a whole sample leaves samples behind that the next poll
  delivers again (`SampleTwice`).  A client has received what it confirmed, each sample once,
  exactly when none of its own polls did that (`ReceivedOnceIff`); nothing is ever lost
  (`NothingLost`).
* Bounded scheduling does not count jobs that make no run.  While an entry waits there are at
  most as many fuzzing jobs as its rivals' excess and such empty jobs allow
  (`BoundedScheduling`); whenever another entry is on top, any number of empty jobs can pass
  the waiting one over (`Starves`), and every fuzzer that is not a dry run can get there
  (`StarvationIsReachable`).

## Model

| member | source | states |
|---|---|---|
| Trees.IdsSubst | mutators/grammar/grammar.cpp:124-139 | Replacing the subtree at a node replaces exactly its stretch of the preorder; all nodes before and after keep their places. |
| Trees.DistinctSubst | mutators/grammar/grammar.cpp:124-139 | A replacement built of nodes from elsewhere leaves a tree in which no node occurs twice. |
| Trees.SubstTwice | mutators/grammar/grammarminimizer.cpp:94-110 | Replacing a subtree twice is the same as replacing it once by the second. |
| Trees.PrefixKept | mutators/grammar/grammarminimizer.cpp:37-79 | What stands in preorder up to a node is not moved by an edit below that node. |
| Trees.SubstChangesTree | mutators/grammar/grammarmutator.cpp:118-140 | Exchanging the subtree at a heap node is, on the tree as a value, an exchange at one place and nothing else. |
| Trees.YieldIs | mutators/grammar/grammar.cpp:697-705 | The text of a forest is that of its trees in order; of a terminal its own, of any other node that of its children. |
| Trees.CountIsSize | mutators/grammar/grammar.cpp:141-150 | In a tree in which no node occurs twice the count is the number of nodes. |
| Grammars.FindSound | mutators/grammar/grammarmutator.cpp:157-172 | Every symbol node of a derivation roots a derivation of its own symbol. |
| Grammars.SubstDerives | mutators/grammar/grammarmutator.cpp:157-201 | Exchanging a subtree for any derivation of the same symbol keeps the whole a derivation. |
| TreeNodes.TreeNode.Copy | mutators/grammar/grammar.cpp:92-104 | A copy equals the original and shares no node with it. |
| TreeNodes.TreeNode.Assign | mutators/grammar/grammar.cpp:106-122 | Assignment frees the old children and makes an equal tree of new nodes. |
| TreeNodes.TreeNode.Replace | mutators/grammar/grammar.cpp:124-139 | The node takes over the other node's children; the old children and the emptied node are freed. |
| TreeNodes.TreeNode.NumNodes | mutators/grammar/grammar.cpp:141-150 | Counts the nodes of the tree. |
| TreeNodes.DeleteAll | mutators/grammar/grammar.cpp:79-90 | Frees every node of the trees, each while it is still alive. |
| TreeNodes.CopyAll | mutators/grammar/grammar.cpp:92-104 | Copies of a list of trees equal the originals in order, out of new nodes. |
| GrammarSyntax.ParsePrinted | mutators/grammar/grammar.cpp:336-604 | Round trip: the line printed for a rule, strings in hexadecimal, is read as exactly that rule, through states, constants, decoding and merging. |
| GrammarSyntax.ParseItems | mutators/grammar/grammar.cpp:336-604 | A line of text and of names in angle brackets, with any blanks and attributes, is read item by item: text is added as it stands, attributes join those left over, and the name is added. |
| GrammarSyntax.ParseLaidOut | mutators/grammar/grammar.cpp:336-604 | The same whatever follows the text of the line: blanks, a comment, or a character 0 and anything. |
| GrammarLayouts.CleanSplits | mutators/grammar/grammar.cpp:337-344 | Every line is its text, which has no comment sign and no blank at the end, then blanks, then perhaps a comment. |
| GrammarLayouts.CleanJoins | mutators/grammar/grammar.cpp:337-344 | Blanks at the end and a comment change nothing. |
| GrammarLayouts.AcceptedIsLaidOut | mutators/grammar/grammar.cpp:359-601 | Every accepted line that is not blank is laid out as a generated name, an equals sign and items, with blanks where they do not count. |
| GrammarLayouts.AcceptedIff | mutators/grammar/grammar.cpp:336-604 | A line that is not blank is accepted exactly when it is laid out so, and each item is text, a constant, an even number of hexadecimal digits, or a symbol whose `id`, if it has or inherits one, is positive. |
| GrammarLayouts.TakesIff | mutators/grammar/grammar.cpp:252-311 | The items of a rule are taken exactly when each of them is acceptable. |
| GrammarLayouts.TerminalsReadBack | mutators/grammar/grammar.cpp:272-311 | An accepted line makes as many parts as its items do, and neighbouring terminals one part of all their text, in order and in its place. |
| GrammarLayouts.UnhexIff | mutators/grammar/grammar.cpp:170-194 | Digits decode to the bytes that they spell in pairs, high digit first, in lower or upper case, and to no others. |
| GrammarLayouts.AtoiReads | mutators/grammar/grammar.cpp:258-264 | An `id` is read as the C library reads a number: white space, one sign, digits, and whatever follows. |
| GrammarLayouts.ConstantsAre | mutators/grammar/grammar.cpp:152-161 | Which names are constants, and their characters by code. |
| GrammarSyntax.AttributesReadBackIff | mutators/grammar/grammar.cpp:272-311 | In an accepted line the k-th item, a symbol, is the part after those that the items before it make; it gets what the terminals since the last symbol wrote, overridden by its own attributes, and those alone exactly when the terminals wrote no others. |
| GrammarSyntax.ConstantPassesId | mutators/grammar/grammar.cpp:272-311 | In `<r>=<lt id=1><x>` the symbol `x` gets the `id`. |
| GrammarSyntax.UnhexHex | mutators/grammar/grammar.cpp:170-194 | Decoding the hexadecimal form of any bytes gives the bytes. |
| GrammarSyntax.AtoiDecimal | mutators/grammar/grammar.cpp:252-270 | An `id` written in decimal is read as that number. |
| GrammarReader.Reader.HexStringToString | mutators/grammar/grammar.cpp:170-194 | The loop with its pending nibble computes the decoding by pairs; odd lengths and foreign characters are errors. |
| GrammarReader.Reader.GetOrCreateSymbol | mutators/grammar/grammar.cpp:196-211 | A new repeat symbol comes with its target, and the target is marked used. |
| GrammarReader.Reader.AddRulePart | mutators/grammar/grammar.cpp:272-311 | Constants and hexadecimal names become strings, merged with a string before them; symbols are registered. |
| GrammarReader.Reader.ScanOutside | mutators/grammar/grammar.cpp:359-448 | Outside the symbols of a rule one character moves the scanner as it moves the state machine, the text since the token's start being its token. |
| GrammarReader.Reader.ScanSymbol | mutators/grammar/grammar.cpp:450-549 | Inside angle brackets likewise, with attributes collected and the part added at the closing bracket. |
| GrammarReader.Reader.ScanLine | mutators/grammar/grammar.cpp:359-601 | The scan by positions in the line computes what the state machine computes by characters. |
| GrammarReader.Reader.ParseGrammarLine | mutators/grammar/grammar.cpp:336-604 | One line adds its rule to the grammar or is an error, as the state machine says; GrammarTables.LineAdds says what it adds. |
| GrammarTables.LineAdds | mutators/grammar/grammar.cpp:596-599 | An accepted line is blank and changes nothing, or puts its rule behind the others of its symbol and leaves those of every other symbol as they were; whether it is accepted does not depend on the grammar read so far. |
| GrammarReader.ParseLineCloses | mutators/grammar/grammar.cpp:336-604 | After any line every symbol that is mentioned anywhere in the grammar is in it. |
| GrammarReader.Reader.AnalyzeGrammar | mutators/grammar/grammar.cpp:237-250 | Marks exactly the symbols that have an empty rule. |
| GrammarReader.Reader.CheckGrammar | mutators/grammar/grammar.cpp:222-235 | Accepts exactly when every symbol is a repeat symbol or has a rule. |
| GrammarReader.ReadIsWellFormed | mutators/grammar/grammar.cpp:313-334 | Every grammar that reading accepts is well formed: closed, no symbol without rules, empty rules marked. |
| GrammarReader.Reader.Read | mutators/grammar/grammar.cpp:313-334 | Reads all lines up to the first error; success means a well-formed grammar, with the rules that GrammarTables.FileGives says. |
| GrammarTables.FileGives | mutators/grammar/grammar.cpp:313-334 | A file gives each symbol exactly the rules of its lines that generate it, in the order of the file. |
| GrammarTables.PrintedFileGives | mutators/grammar/grammar.cpp:313-334 | For every list of printable rules the printed lines are read, and each symbol gets the rules of the list that generate it, in order. |
| GrammarTables.FileNames | mutators/grammar/grammar.cpp:196-211 | The table holds exactly the symbols that are generated or mentioned and what repeat symbols repeat; repeat symbols are told by their names; used are those mentioned or repeated. |
| GrammarTables.FileEmpty | mutators/grammar/grammar.cpp:237-250 | Marked as possibly empty are the symbols with an empty rule in the file. |
| GrammarTables.FileAcceptedIff | mutators/grammar/grammar.cpp:222-334 | A file is accepted exactly when its lines are and every symbol needed is a repeat symbol or has a rule. |
| Generation.GenerateTree | mutators/grammar/grammar.cpp:613-676 | For any draws: exactly the tree that they give, or null exactly when they give none, and as many of them used; no choice from an empty list; a tree is generated as the rules say, and null comes only from a grammar that leads past the depth limit. |
| Generation.GenerateRepeated | mutators/grammar/grammar.cpp:625-637 | One tree for the repeated symbol for each draw that says to go on, or failure at the first that the draws do not give. |
| Generation.ExpandRule | mutators/grammar/grammar.cpp:639-675 | One child for each part, in order, with earlier children copied where the `id` repeats, or failure at the first that the draws do not give. |
| Generation.GrownIff | mutators/grammar/grammar.cpp:613-676 | The trees that some draws give are exactly those that the rules allow within the depth limit, with equal ids copied. |
| Generation.FailsIff | mutators/grammar/grammar.cpp:613-676 | Some draws give none exactly when the grammar leads past the depth limit by parts that are not copies. |
| Generation.CanYield | mutators/grammar/grammar.cpp:613-676 | For every such tree there are draws that give it whatever follows them, and that are used up. |
| GenerationDraws.RuleIs | mutators/grammar/grammar.cpp:639-640 | The rule is the one whose number is the remainder of the draw. |
| GenerationDraws.RepeatsAre | mutators/grammar/grammar.cpp:625-637 | A repeat node gets a child for each draw up to three quarters of the range, until one says to stop or gives no child. |
| GenerationDraws.PartsAre | mutators/grammar/grammar.cpp:642-674 | Part by part: a terminal as it stands, a copy of the part with the same `id`, or what the draws left by the parts before it give. |
| Generation.GeneratedDerives | mutators/grammar/grammar.cpp:613-676 | What is generated is a derivation of the symbol. |
| Generation.GeneratedWithinDepth | mutators/grammar/grammar.cpp:613-617 | No symbol node of a generated tree is deeper than the limit. |
| Generation.SameIdSameTree | mutators/grammar/grammar.cpp:648-662 | Parts of a rule that share an `id` have equal subtrees. |
| Generation.ExpansionMatchesIff | mutators/grammar/grammar.cpp:648-662 | An expansion matches its rule exactly when parts that share an `id` name one symbol. |
| Generation.DisagreementNeverDerives | mutators/grammar/grammar.cpp:648-662 | A symbol whose only rule has one `id` for two symbols never generates a derivation. |
| Generation.ExpansionIdsAgree | mutators/grammar/grammar.cpp:648-662 | In what is generated for a rule all parts with one `id` agree. |
| Generation.GeneratedNeedsConsistentIds | mutators/grammar/grammar.cpp:648-662 | A grammar that reading accepts, from which generation always succeeds and never gives a derivation. |
| Codec.ReadsBackSize | mutators/grammar/grammar.cpp:40-66 | A size that fits its bytes is read back as written. |
| Codec.WritesBackSize | mutators/grammar/grammar.cpp:40-66 | Any bytes of a size are what writing that size gives. |
| Codec.LittleEndianDigit | mutators/grammar/grammar.cpp:40-43 | Byte `k` of a size is its digit number `k` to base 256. |
| Codec.EncodedLayout | mutators/grammar/grammar.cpp:707-719 | A node is its type byte, 0 for text and 1 for a symbol, the size and bytes of its text or name, the number of its children, then they; sizes have eight bytes, lowest first. |
| Codec.DecodeInvertsEncode | mutators/grammar/grammar.cpp:707-764 | Decoding an encoded forest followed by any bytes gives the forest and leaves exactly those bytes. |
| Codec.EncodeInvertsDecode | mutators/grammar/grammar.cpp:707-764 | Bytes that decode are, with the rest they leave, the encoding of what they decode to. |
| Codec.DecodeInvertsEncodeSample | mutators/grammar/grammar.cpp:776-796 | Decoding an encoded sample gives its tree; the text and its size in front are skipped. |
| Codec.SampleLayout | mutators/grammar/grammar.cpp:776-783 | A sample is the size of its text, the text, then the tree. |
| Codec.DecodedSampleIsEncodable | mutators/grammar/grammar.cpp:785-796 | A tree that was decoded can be encoded again, and its text is no longer than the sample. |
| Codec.BytesReadable | mutators/grammar/grammar.cpp:785-796 | A sample of bytes that decodes is one that the minimizer accepts. |
| Codec.DerivationReadBack | mutators/grammar/grammar.cpp:776-796 | A derivation whose sample is not too long for a size field decodes from that sample to itself. |
| Serializer.BinaryRW.WriteData | mutators/grammar/grammar.cpp:31-38 | Appends to what was written, whatever the buffer's capacity; earlier bytes stay. |
| Serializer.BinaryRW.ReadData | mutators/grammar/grammar.cpp:52-59 | Hands out the next bytes and moves past them, or fails and stays. |
| Serializer.ToString | mutators/grammar/grammar.cpp:697-705 | Appends the yield of the tree. |
| Serializer.EncodeTree | mutators/grammar/grammar.cpp:707-719 | Appends the encoding of the tree. |
| Serializer.DecodeTree | mutators/grammar/grammar.cpp:721-764 | Builds new nodes for exactly the tree that the bytes encode, or gives null exactly when they encode none; it ends on every input. |
| Serializer.EncodeSampleOf | mutators/grammar/grammar.cpp:776-783 | The sample is the size of the text of the tree, the text, then the encoding of the tree. |
| Serializer.DecodeSampleTree | mutators/grammar/grammar.cpp:785-796 | Reads a sample back into new nodes. |
| Mutation.SelectedIsWanted | mutators/grammar/grammarmutator.cpp:45-59 | Every candidate is a symbol node of the tree that the search asks for, within the depth, with positive weight. |
| Mutation.RootSelected | mutators/grammar/grammarmutator.cpp:45-59 | The search for any node finds at least the root, so that replacing a node never has to give up. |
| Mutation.GrammarMutator.GetMutationCandidates | mutators/grammar/grammarmutator.cpp:45-59 | Appends what the search selects below the node, in preorder. |
| Mutation.SelectedAreAll | mutators/grammar/grammarmutator.cpp:45-59 | The search misses no wanted symbol node within the depth. |
| Mutation.SelectedInPreorder | mutators/grammar/grammarmutator.cpp:45-59 | What it selects stands at increasing preorder positions, so no node twice. |
| Mutation.GrammarMutator.GetNodeToMutate | mutators/grammar/grammarmutator.cpp:61-78 | None exactly for an empty list; otherwise one draw picks the candidate in whose stretch of the weights it falls. |
| Mutation.ReachedIff | mutators/grammar/grammarmutator.cpp:61-78 | A candidate is picked exactly when the share drawn is at least the weights before it and less than those with it; the last one also beyond. |
| Mutation.GraftDerives | mutators/grammar/grammarmutator.cpp:157-201 | Grafting a derivation of the same symbol keeps a derivation of the root. |
| Mutation.Grafted | mutators/grammar/grammarmutator.cpp:157-201 | The same in memory: the edit below one node leaves a sound tree of live nodes, apart from all donors. |
| Mutation.RemixDerives | mutators/grammar/grammarmutator.cpp:203-328 | A repeat node with children deleted and others inserted derives its symbol. |
| Mutation.Remade | mutators/grammar/grammarmutator.cpp:203-328 | The same in memory, on the whole tree. |
| Mutation.GrammarMutator.ReplaceNode | mutators/grammar/grammarmutator.cpp:157-172 | One node, picked by the draws, becomes the tree that they give for its symbol at its depth; nothing changes exactly when they give none; there always is a node to pick. |
| Mutation.GrammarMutator.Splice | mutators/grammar/grammarmutator.cpp:174-201 | One node, picked by the draws, becomes a copy of the donor node that they pick among those with its symbol no deeper than it; nothing changes exactly when the donor drawn has none; donors stay as they are. |
| Mutation.GrammarMutator.RepeatMutator | mutators/grammar/grammarmutator.cpp:203-261 | A repeat node, picked by the draws, loses the stretch of its children that they give, and gains the trees that they give for its symbol one level deeper; nothing changes exactly when there is no repeat node or no such tree. |
| Mutation.GrammarMutator.RepeatSplice | mutators/grammar/grammarmutator.cpp:263-328 | A repeat node, picked by the draws, loses the stretch of its children that they give, and gains the stretch that they give of the children of a donor node with its symbol; nothing changes exactly when there is no repeat node or no such donor node; MutationDraws.MixIs says which stretch. |
| Mutation.GrammarMutator.DeleteSome | mutators/grammar/grammarmutator.cpp:242-249 | Deletes the stretch of children that the draws give, every node of which ends freed; the others keep their order and stay alive. |
| Mutation.GrammarMutator.MutateOnce | mutators/grammar/grammarmutator.cpp:118-140 | One attempt makes exactly the mutation that the draws give, of one subtree into a derivation of its symbol, and changes nothing exactly when they give none. |
| MutationDraws.AttemptIs | mutators/grammar/grammarmutator.cpp:123-144 | Three tenths of the draws replace a node, two splice, three change a repeat node, two splice one; after a success a draw above one half stops. |
| MutationDraws.CandidateIff | mutators/grammar/grammarmutator.cpp:45-59 | A node is a candidate exactly when it is a symbol node of the symbol asked for, a repeat symbol if those are asked for, and no deeper than allowed. |
| MutationDraws.CandidateIs | mutators/grammar/grammarmutator.cpp:45-59 | A candidate carries its depth, and a weight divided by the falloff once for each level. |
| MutationDraws.ChosenFalls | mutators/grammar/grammarmutator.cpp:61-78 | The candidate picked is the one that the draw, as a share of all weights, falls to. |
| MutationDraws.ReplaceIs | mutators/grammar/grammarmutator.cpp:157-172 | The first draw picks the node, the next ones give the tree for its symbol at its depth. |
| MutationDraws.SpliceIs | mutators/grammar/grammarmutator.cpp:174-201 | The first draw picks the node, the second the donor, the third the node of it that is copied. |
| MutationDraws.RegrowPicks | mutators/grammar/grammarmutator.cpp:203-207 | The first draw picks the repeat node; without one nothing happens. |
| MutationDraws.RegrowIs | mutators/grammar/grammarmutator.cpp:209-261 | Then a position, and in one of five cases a stretch from there is deleted, in one it is and trees are inserted, in three they are inserted only; nothing happens exactly when trees were tried and none came. |
| MutationDraws.TriesAre | mutators/grammar/grammarmutator.cpp:231-240 | Trees are tried once, and once more for each draw after a try that says to go on; those that failed are left out. |
| MutationDraws.MixPicks | mutators/grammar/grammarmutator.cpp:263-291 | Likewise with a donor node of the same repeat symbol, no deeper. |
| MutationDraws.MixIs | mutators/grammar/grammarmutator.cpp:293-328 | Inserted is the stretch of the donor's children from the position drawn, empty exactly when it has none; each draw but the last one's says to go on, and the last one stops unless the children end; in two of five cases a stretch of our own is deleted first. |
| MutationDraws.StretchIff | mutators/grammar/grammarmutator.cpp:242-249 | There is exactly one such stretch for given draws. |
| MutationDraws.MixedIs | mutators/grammar/grammarmutator.cpp:251-258 | What is inserted comes one place after what is deleted, or at the end. |
| Mutation.GrammarMutator.MutateRepeatedly | mutators/grammar/grammarmutator.cpp:117-146 | Attempt follows attempt as the draws say, up to the first success after which the coin says stop, or to 100; the changes are a chain of edits of one subtree each. |
| Mutation.GrammarMutator.Mutate | mutators/grammar/grammarmutator.cpp:94-155 | Whatever is drawn, the sample encodes a derivation of the root: the generated tree if the first draw asks for one and the next give it, otherwise the current sample after exactly the attempts that the draws give. |
| Mutation.MutationBreaksIdsIff | mutators/grammar/grammarmutator.cpp:157-201 | Replacing one child of a rule makes parts with one `id` differ exactly when the child changes and another part shares its `id`. |
| Mutation.MutationBreaksIds | mutators/grammar/grammarmutator.cpp:157-201 | A generated tree and such a mutation of it. |
| Mutation.GrammarMutator.GenerateInto | mutators/grammar/grammarmutator.cpp:98-111 | The sample becomes the tree that the draws give for the root symbol, or stays as it is exactly when they give none. |
| Mutation.GrammarMutator.CreateSampleContext | mutators/grammar/grammarmutator.cpp:80-88 | A sample that decodes becomes a donor, any other is the fatal error; other donors stay, and a derivation keeps the pool one of derivations. |
| Pruning.CandidatesInPreorder | mutators/grammar/grammarminimizer.cpp:23-35 | Candidates are listed in strictly increasing preorder position. |
| Pruning.CandidatesArePrunable | mutators/grammar/grammarminimizer.cpp:23-35 | Every candidate is a node of the tree whose symbol may lose children. |
| Pruning.CandidatesAreAll | mutators/grammar/grammarminimizer.cpp:23-35 | No prunable node with children is missed. |
| Pruning.PutBackUndoes | mutators/grammar/grammarminimizer.cpp:94-110 | Putting back what a cut removed, where it was, restores the node. |
| Pruning.PrunedDerives | mutators/grammar/grammarminimizer.cpp:58-74 | A derivation with children cut off a prunable node derives the same symbol. |
| Pruning.PrunesIff | mutators/grammar/grammarminimizer.cpp:58-74 | Cut off a node is any one child of a repeat node, or all children of a node whose symbol has an empty rule, and nothing else. |
| Pruning.CutParts | mutators/grammar/grammarminimizer.cpp:58-74 | A cut splits the nodes of the tree into those kept and those removed, sharing none and losing none. |
| Pruning.CutDerives | mutators/grammar/grammarminimizer.cpp:37-79 | The cut tree is still a derivation of the root. |
| Pruning.CutUndone | mutators/grammar/grammarminimizer.cpp:94-110 | Undoing a cut gives back the tree before it. |
| Attempts.AttemptsAreCuts | mutators/grammar/grammarminimizer.cpp:23-79 | The list of cuts holds exactly the cuts that the grammar allows: any child of a repeat node, all children of a node that may be empty. |
| Attempts.AttemptsAre | mutators/grammar/grammarminimizer.cpp:23-79 | The same for one tree, in terms of the grammar. |
| Attempts.AttemptsInOrder | mutators/grammar/grammarminimizer.cpp:37-79 | It holds each once, in preorder and then by position. |
| Attempts.CutAtErases | mutators/grammar/grammarminimizer.cpp:58-74 | Taking children off a node in memory is the cut at its place in the tree as a value. |
| Attempts.CutAtIs | mutators/grammar/grammarminimizer.cpp:58-74 | The cut takes those children off the node at its place in preorder. |
| Minimizer.GrammarMinimizer.CreateContext | mutators/grammar/grammarminimizer.cpp:4-21 | The context holds exactly the sample's tree, all its candidates in preorder, the cursor at the last with all its children, the node count, and every cut still to try. |
| Minimizer.GrammarMinimizer.GetMinimizationCandidates | mutators/grammar/grammarminimizer.cpp:23-35 | Appends the list that CandidatesInPreorder, CandidatesArePrunable and CandidatesAreAll describe. |
| Minimizer.NextFromIsLast | mutators/grammar/grammarminimizer.cpp:50-56 | Candidates are consumed from the end; what is passed over has no children left to try. |
| Minimizer.GrammarMinimizer.SkipExhausted | mutators/grammar/grammarminimizer.cpp:50-56 | Stops at the last candidate with something to try, or says there is none; every candidate up to the cursor is alive when it is read. |
| Minimizer.GrammarMinimizer.CursorKept | mutators/grammar/grammarminimizer.cpp:37-79 | An edit at the current candidate keeps every candidate at or before the cursor a node of the tree. |
| Minimizer.GrammarMinimizer.Cut | mutators/grammar/grammarminimizer.cpp:58-74 | Takes children off one live node; nodes are conserved and the cursor moves back; candidates before the cursor keep all their children. |
| Minimizer.GrammarMinimizer.MinimizeStep | mutators/grammar/grammarminimizer.cpp:37-79 | Fails exactly at the node limit or when nothing is left to try; otherwise the last cut of the list is made and taken off it, and the tree is written out as the sample. |
| Minimizer.GrammarMinimizer.ReportSuccess | mutators/grammar/grammarminimizer.cpp:81-92 | Frees what was cut off, keeps the tree, the candidates, the initial count and what is left to try; the node count stays initial minus removed. |
| Minimizer.GrammarMinimizer.ReportFail | mutators/grammar/grammarminimizer.cpp:94-110 | Restores in memory exactly the tree before the step; candidates, counts and what is left to try stay. |
| Minimizer.MinimizeSample | fuzzer.cpp:494-523 | Ends for every answer of the target.  The k-th run is the k-th cut of the list, from its end, made in the sample accepted so far, which is larger than the limit; the result is the sample of the last run that kept the coverage, or the one given; without a failed run every cut was run or the result is within the limit; the result derives all that the sample derived and is not larger. |
| Minimizer.TryCut | fuzzer.cpp:503-520 | One turn of the loop: no run exactly when there was nothing left to try or the tree was within the limit, otherwise one run of the next cut, which is kept if the coverage is there and undone otherwise. |
| Minimizer.LastAcceptedIs | fuzzer.cpp:505-519 | The sample accepted is that of the last run that ended well, was interesting and had all stable coverage, or the one given. |
| GrammarFuzzing.CutIsDerivation | fuzzer.cpp:494-523 | A run of the minimizer on a cut of a derivation is a run on a derivation. |
| GrammarFuzzing.FuzzRounds | fuzzer.cpp:717-772 | Over any number of rounds of mutating, running, minimizing and remembering: every mutation that is not too large is run, every sample that is run is a derivation of the root, and as many are saved and become donors as runs are accepted, derivations all of them. |
| HotOffsets.AddWindowCovers | mutator.cpp:395-439 | Despite truncation and extension the regions cover what they did, and the window, and nothing else. |
| HotOffsets.AddWindowSorted | mutator.cpp:395-439 | Region starts stay strictly increasing. |
| HotOffsets.AddWindowIsExact | mutator.cpp:395-439 | The union of the regions is exactly the old union and the new window. |
| DeterministicMutators.BaseDeterministicContext.AddHotOffset | mutator.cpp:395-439 | The loop over the regions inserts the window as the function does; cursors of old regions stay. |
| DeterministicMutators.BaseDeterministicContext.GetNextByteToMutate | mutator.cpp:441-463 | The loop emits the next mutation of the enumeration, or none. |
| Enumeration.NextDoes | mutator.cpp:441-463 | A call emits the next value of one region and changes no other, or fails with every region done. |
| Enumeration.NextUsesOneUnit | mutator.cpp:441-463 | A call succeeds exactly when work is left, and uses up one unit of it. |
| Enumeration.ValueExistsIff | mutator.cpp:441-463 | A value handed out is one of the values exactly when there are any. |
| Enumeration.NoValuesReached | mutator.cpp:441-463 | Without any value the first call after a first hot offset succeeds. |
| Enumeration.RunTracks | mutator.cpp:395-463 | Over any interleaving of hot offsets and calls, what each region has emitted is an unbroken count from its start. |
| Enumeration.RunIsOrdered | mutator.cpp:395-463 | Each pair of position and value of a region is emitted at most once, in order. |
| Enumeration.RunCovers | mutator.cpp:395-463 | After any run the regions cover exactly the windows of all hot offsets. |
| Enumeration.FailureMeansComplete | mutator.cpp:395-463 | When a call fails, every byte of every window has had every value. |
| DeterministicMutators.WriteAt | mutator.cpp:503-507 | The bytes are written at their place; a short sample grows with zeros. |
| DeterministicMutators.MutateOnceKeeps | mutator.h:239-249 | Children that the sequence passed are exhausted and stay so; failure means all are. |
| DeterministicMutators.SequenceIsComplete | mutator.h:202-249 | When a sequence that restarts on hot offsets fails, every child has come to every value at every byte of every window (and written it: DeterministicOutputs.OutputsAre). |
| DeterministicMutators.CompleteIffRestarts | mutator.h:202-249 | The sequence may be relied on exactly when it restarts on hot offsets. |
| DeterministicMutators.LateHotOffset | mutator.h:217-222 | Without the restart a hot offset after the end is never mutated. |
| DeterministicOutputs.RoundIsComplete | mutator.h:208-215 | A sequence that restarts each round has covered every window of every hot offset when a call fails in a round in which no hot offset came. |
| DeterministicMutators.MutatorSequence.AddHotOffsetToAll | mutator.h:217-222 | Every child hears of the offset; the index restarts if so configured. |
| DeterministicMutators.MutatorSequence.Mutate | mutator.h:239-249 | Writes the next mutation of the first child that has one, a byte flip its value at its byte and an interesting value its bytes from there on; fails when none has. |
| DeterministicMutators.MutatedBytes | mutator.cpp:471-511 | A byte flip makes the byte its value; an interesting value is copied as it is. |
| DeterministicOutputs.TraceIsCalls | mutator.h:239-249 | What a child is recorded to have emitted is what the calls of the run emitted for it. |
| DeterministicOutputs.OutputsAre | mutator.cpp:395-511 | When the sequence fails, its calls have made of a sample exactly the samples with any byte, or any interesting value, written anywhere from 3 bytes before to 19 bytes after a hot offset. |
| DeterministicOutputs.EveryByteFlipped | mutator.cpp:471-485 | In particular some call put each byte at each of these places and left the rest of the sample alone. |
| DeterministicRounds.SequenceUsesOneUnit | mutator.h:239-249 | Between hot offsets a call of the sequence succeeds exactly when some child has work left, and uses up one unit. |
| DeterministicRounds.ReachableIsTidy | mutator.h:202-249 | In every state a restarting sequence reaches, children before the current one have no work left. |
| DeterministicRounds.RoundShape | mutator.h:532-549 | A round does all deterministic mutations that are left and fit first, then the others, and then ends. |
| DeterministicRounds.RoundsFinishWork | mutator.h:527-549 | Rounds continue where the last one stopped: so many rounds do so much of the work until none is left. |
| DeterministicRounds.DeterministicNondeterministicMutator.Mutate | mutator.h:532-549 | Asks the deterministic sequence while its share lasts, and then makes what that makes; then the other mutator; then stops. |
| Prefixes.CommonPrefixIs | sample.cpp:170-177 | The common length is the one up to which, and only up to which, two samples agree. |
| Prefixes.FindFirstDiff | sample.cpp:170-177 | The loop finds it. |
| Prefixes.LongestSharedIs | sample.cpp:207-283 | The longest shared prefix is the one length up to which some earlier sample agrees and beyond which none does. |
| TrieImages.OneReader | sample.cpp:207-283 | No text is read by two nodes of a trie. |
| TrieImages.Extends | sample.cpp:236-259 | The trie reads one more character exactly if the current node's constant part or children do. |
| TrieImages.LeafDescribes | sample.cpp:244-252 | A new leaf makes the trie describe one sample more, and the position is the longest prefix shared with earlier ones. |
| TrieImages.DividedDescribes | sample.cpp:261-278 | Splitting a node changes nothing of what the trie reads. |
| TrieImages.ReadToTheEnd | sample.cpp:226-234 | A sample that is a prefix of an earlier one needs no insertion. |
| SampleTries.SampleTrie.AddSample | sample.cpp:207-283 | On any history: returns the longest prefix shared with any earlier sample, and the readable texts stay exactly the prefixes of the samples added. |
| UpdateStreams.WholeStream | server.cpp:259-269 | A complete reply is read as exactly the samples sent. |
| UpdateStreams.MessageAt | server.cpp:259-269 | In a reply each sample stands where those before it end, after an `S` and its size in eight bytes, and an `N` after the last. |
| UpdateStreams.CompleteIff | client.cpp:192-226 | Of any bytes the client makes a complete reply with these samples exactly when they start with their messages. |
| UpdateStreams.CutStream | client.cpp:192-226 | From a reply cut anywhere the client gets a prefix of the samples and knows it is not complete. |
| UpdateStreams.FirstSampleArrivesIff | client.cpp:192-226 | A cut reply brings a sample exactly when the cut is behind the bytes of the first one. |
| ServerLogs.ReportCommits | server.cpp:281-359 | A report adds nothing or is one more commit of new coverage. |
| ServerLogs.TimestampBounded | server.cpp:281-290 | The timestamp is the number of commits, and at most the number of offsets covered. |
| ServerLogs.IncrementsCoverTotal | server.cpp:281-290 | The commits' increments make up the total coverage. |
| ServerLogs.IncrementsDisjoint | server.cpp:281-290 | Increments are non-empty and pairwise disjoint. |
| ServerLogs.ReplayIsLog | server.cpp:341-352 | Timestamps and indices of every reachable log strictly increase, from index 0. |
| ServerLogs.SamplesAreCorpus | server.cpp:341-352 | The server holds the samples of all commits, one commit after the other. |
| ServerLogs.LogEntriesAre | server.cpp:341-352 | The log has an entry for each commit that brought samples, with its timestamp and the number of samples before it, and no other. |
| ServerLogs.IndexSplitsCorpus | server.cpp:191-222 | The index found for a timestamp is the number of samples in the commits up to it. |
| ServerLogs.GetIndex | server.cpp:191-222 | The binary search finds the first entry after the timestamp; the walk after it takes at most one step and the fatal error is unreachable. |
| CoverageServers.CoverageServer.HasNewCoverage | server.cpp:276-279 | Says whether the client covers something the server does not. |
| CoverageServers.CoverageServer.OnNewCoverage | server.cpp:281-290 | The total grows to include the client's coverage; the timestamp moves exactly when it does grow. |
| CoverageServers.CoverageServer.AcceptReport | server.cpp:332-358 | The write section commits coverage, log entry and samples together, or nothing: the samples are those before and the new ones, all that the commits brought. |
| CoverageServers.CoverageServer.ServeUpdates | server.cpp:224-274 | Sends the current timestamp and exactly the samples of the commits that the client has not confirmed. |
| CoverageClients.CoverageClient.GetUpdates | client.cpp:177-232 | Keeps the samples that arrived; the timestamp moves only when the reply was complete. |
| Delivery.TwoPhasesRefineOne | server.cpp:292-359 | Over any interleaving of reports, the server that commits differences found earlier under the read lock is in the state of one that commits the full coverage. |
| Delivery.ServerHasUploads | server.cpp:276-359 | Over any interleaving of reports the server covers what the uploads bring, and holds the samples of exactly those uploads that brought something new, in order. |
| Delivery.RunRecorded | server.cpp:276-359 | In every run the server's state is the replay of its commits. |
| Delivery.DeliveredExactly | client.cpp:177-232 | Over any run, the samples of a client's complete polls are exactly those that the commits up to its timestamp brought, in order, which are the first of all that uploads brought; it has received those and one more for each whole sample of a poll of its own that broke off. |
| Delivery.ReceivedOnceIff | client.cpp:192-226 | It has received exactly those, without repeat, if and only if no poll of its own broke off after a whole sample. |
| Delivery.NothingLost | client.cpp:177-232 | Over any run, with polls cut anywhere, it still has all of those in order, and samples of the corpus only. |
| Delivery.CatchesUp | client.cpp:177-232 | A complete poll after any run brings the client every sample of every upload that brought something new. |
| Delivery.SampleTwice | client.cpp:192-226 | A run in which a sample arrives twice. |
| Scheduling.FuzzerQueue.SynchronizeAndGetJob | fuzzer.cpp:553-697 | Changes phase, takes an entry that no other in the queue outranks, or the next sample, and counts what is pending; a fatal error only without any sample or generator. Which job that is, and that no sample from the server is lost: FuzzerJobs.JobIs and ServerSamplesHandedOut. |
| Scheduling.FuzzerQueue.JobDone | fuzzer.cpp:699-715 | Returns the entry to the queue or discards it; a processed sample is no longer pending. |
| Scheduling.FuzzerQueue.EnqueueSample | fuzzer.cpp:398-402 | One new entry with priority 0, which none exceeds (FuzzerRuns.StepKeepsCap), in the queue and in both lists. |
| Scheduling.FuzzerQueue.FuzzJob | fuzzer.cpp:717-772 | Tries the mutations in turn and stops at the first run that makes the entry too costly; only this entry changes. |
| Scheduling.PriorityCountsRuns | fuzzer.cpp:929-932 | An entry's priority is minus the number of runs since it last found new coverage or was saved. |
| Scheduling.CountersCount | fuzzer.cpp:717-772 | An entry's counters are the numbers of its runs, of those that found new coverage, that hung, and that crashed. |
| Scheduling.TooCostlyIff | fuzzer.cpp:753-766 | An entry costs too much exactly when more than 10 of its runs hung or more than 100 crashed, and more of all of them than is acceptable. |
| Scheduling.TriedInJobs | fuzzer.cpp:717-772 | What is tried in several jobs adds up. |
| FuzzerRuns.StepKeeps | fuzzer.cpp:553-715 | Every step of any thread keeps the invariant: one place for each entry, exact counts, phases, order of inputs, local copies. |
| FuzzerRuns.StepConserves | fuzzer.cpp:650-715 | Each entry stays in exactly one of: the queue, one thread's job, discarded. |
| FuzzerRuns.StepCounts | fuzzer.cpp:658-715 | The pending count is the number of threads processing a sample; the number of samples agrees with the lists. |
| FuzzerRuns.StepKeepsPrefixes | fuzzer.cpp:585-592 | Every thread's local list is a prefix of all samples. |
| FuzzerRuns.StepKeepsCap | fuzzer.cpp:929-932 | No entry's priority ever exceeds that of a new one. |
| FuzzerRuns.RunKeeps | fuzzer.cpp:553-715 | The invariant holds after every run. |
| FuzzerRuns.FuzzingIsQuiet | fuzzer.cpp:596-657 | In every reachable state in which the fuzzer fuzzes, no sample is pending or processed, both lists are empty, and all inputs were handed out once, in order. |
| FuzzerRuns.InputsFirst | fuzzer.cpp:594-673 | Once a fuzzing job was handed out, every input was, and no thread is at one. |
| FuzzerRuns.HeldByOne | fuzzer.cpp:650-657 | No entry is held by two threads, nor by one while it is in the queue or discarded. |
| FuzzerRuns.NextJobExists | fuzzer.cpp:594-697 | When no thread has a job the next one gets one, unless dry run or every entry is discarded: the phases cannot deadlock. |
| FuzzerJobs.JobIs | fuzzer.cpp:585-697 | A request gets the next input; then a sample from the server, waiting or just arriving; nothing while samples of the phase are pending; a generated sample if there are too few; then the entry of highest priority, the newest among equals. The thread then knows all samples. |
| FuzzerJobs.ServesInOrder | fuzzer.cpp:594-673 | Over any run, what waited and what the server sent are what was handed out and what waits, in order and each once. |
| FuzzerJobs.ServerSamplesHandedOut | fuzzer.cpp:594-673 | In a run from the start that fuzzes, all samples that the server sent have been handed out. |
| FuzzerJobs.DiscardedIff | fuzzer.cpp:699-715 | An entry is discarded exactly when a job on it ended so. |
| FuzzerRuns.ShareStep | fuzzer.cpp:650-715 | A step without new coverage raises no entry's lead over a waiting one, and picking an entry lowers its lead. |
| FuzzerRuns.BoundedScheduling | fuzzer.cpp:650-715 | While an entry waits and no new coverage is found, the number of fuzzing jobs handed out is at most the sum over the others of their excess in priority plus one, and the number of jobs that made no run. |
| FuzzerRuns.Starves | fuzzer.cpp:650-715 | In every state that fuzzes with an idle thread, a waiting entry and another on top, any number of jobs without a run can pass the waiting one over, each counted by the bound. |
| FuzzerRuns.StarvationIsReachable | fuzzer.cpp:553-715 | Every fuzzer that is not a dry run gets into such a state from its start, with two inputs. |
| CoverageAccounting.StableIsInAll | fuzzer.cpp:431-450 | Stable coverage is what every run has. |
| CoverageAccounting.VariableIsInSome | fuzzer.cpp:431-453 | Variable coverage is what some run has and some run misses. |
| CoverageAccounting.FuzzerCoverage.Retry | fuzzer.cpp:431-450 | Succeeds exactly when all the configured number of further runs of the same sample end well, and then both coverages are those of the first run and all of these. |
| CoverageAccounting.FuzzerCoverage.RunSample | fuzzer.cpp:405-492 | Coverage is reported on exactly when the first run ends well with some that is new and all repeats end well; it counts as new exactly when the stable coverage holds something the fuzzer did not know; otherwise nothing changes. |
| CoverageAccounting.FuzzerCoverage.InterestingSample | fuzzer.cpp:526-551 | Stable and variable coverage both become known; the answer says whether stable coverage was new. |
| CoverageAccounting.NewOnlyOnce | fuzzer.cpp:526-551 | Over any calls no offset counts as new stable coverage twice, nor after it was variable. |
| CoverageAccounting.AcceptedIff | fuzzer.cpp:526-551 | A sample is accepted exactly for a stable offset that no earlier call reported in either way. |
| CoverageAccounting.AcceptedBounded | fuzzer.cpp:526-551 | There are no more accepted samples than offsets in the fuzzer's coverage. |
| Ranges.ConsolidateRanges | rangetracker.cpp:58-82 | What is added to the output covers exactly the offsets of the input, is sorted, and has gaps between consecutive ranges. |
| Ranges.CoverDetermines | rangetracker.cpp:58-82 | Non-empty ranges with gaps are determined by the offsets they cover, so the order in which sorting leaves equal ranges does not matter. |

## Left out

- Sockets, shared memory, files, process control and the instrumentation library: they are inputs of the model; coverage is a finite set of module and offset.
- Sending coverage over the wire (server.cpp:118-189), crash reports, status and connection handling.
- Saving and restoring sessions: the phase that restores a session and the timer for saving are not modelled, and runs start empty.
- The byte-level random mutators, dictionaries, the mutator that repeats others, ranges of mutation, and the simple trimmer: size arithmetic that would only add easy members.
- Running out of memory, and 64-bit sizes, offsets and counters that wrap around: sizes that are written to bytes are assumed to fit; `atoi` is modelled without overflow.
- Rounding: weights and probabilities are real numbers, priorities are integers.
- `GenerateTreeNoFail` and endless drawing: with a finite record of draws the loops end; how draws are distributed is not modelled.
- The list of donors is an object of its own; its mutex is not modelled, and donors only ever join it.
- `string_cache` and the sharing of symbol and string pointers: nodes hold their text. An empty node's missing string is the empty string.
- A type byte other than 0 or 1 in a sample is taken as a symbol node that keeps its byte, as the code does, and written back as it was.
- Generation.GenerateRepeated: that a failure frees the trees made before it is done by the body and not said by the contract.
- Generation.ExpandRule: as for GenerateRepeated.
- Scheduling.FuzzerQueue.EnqueueSample: the sample index is any number, because the code reads it after releasing its mutex; its uniqueness is not claimed.
- SampleTries.SampleTrie.AddSample: the unused `leaf` flag and the freeing of a trie are not modelled.
- FuzzerRuns.BoundedScheduling: bounds picks while other threads run, not time.
- Ranges.Sort: an insertion sort stands for the library's sort; only its result matters.
