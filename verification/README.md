# Diamond, verified pieces

Dafny models of eight parts of the Diamond language system, with proofs about them. Code of the
system that works by changing things in place is modelled by methods with loops, arrays and
classes. Each of these is proved equal to a specification function, or against a property stated
outright, and the lemmas then say what those functions mean.

| part | modules | what is proved |
|---|---|---|
| Cyclic tail calls | `Digraph`, `Tarjan`, `SccMachine`, `Csr`, `SccWalk`, `TailCalls` | A recorded call byte is patched exactly when its edge lies on a cycle of recorded edges, and no other byte changes. The iterative search finds the strongly connected components, ends, and stays inside its tables. |
| Destructuring assignment | `Destructure`, `DestructureEmit`, `DestructureCompiler`, `DestructureMeaning` | Running the emitted code assigns to every leaf the value its pattern denotes, up to a store that raises, or raises the error of the pattern with nothing stored. Right-hand sides are read before anything is stored. What a pattern denotes is told by places in arrays and hashes: elements from the front and the back, the middle between them, the first entry of a key, and the entries whose keys are not named. |
| Big integers | `Positional`, `Magnitude`, `Bignum`, `Words`, `Bits`, `Bitwise`, `Shifts`, `Radix` | Every operation is the operation on integers, with one representation for each integer. No 64-bit intermediate overflows and no buffer is too small. Texts in any radix read back as the same integer. |
| Regular expression simulators | `Nfa`, `NfaMeaning`, `Tier1`, `Tier2`, `Leftmost`, `Exec` | Both simulators report a match exactly when an accepting run exists, and the longest end. The captures are those of one accepting run, and which one is decided by the automaton and the text; it is the leftmost run exactly when that is undisputed at every branch and every byte. Search finds the leftmost start. What a state takes is told by sets of bytes, and where an anchor holds by the words and lines of the text. |
| Source formatter | `Layout`, `Depth`, `EndlessMeaning`, `Nesting`, `Spacing`, `Format`, `Splice`, `FormatLine`, `Patterns`, `FormatApply`, `FormatMeaning`, `FormatSpacing`, `FormatTwice`, `FormatAgain`, `FormatSettled`, `FormatText`, `FormatRun` | Edits do not overlap and only touch blanks and blank lines. No literal changes exactly when every regex that goes over a line end is indented like code. A second formatting of any range sends no edits exactly under a condition on carriage returns. Each line is as deep as what is open there, told from the places of the tokens alone. In the document the edits make, every gap, indentation and run of blank lines is as the rules say. |
| Bytecode cache | `ZeroRuns`, `FunctionCodec`, `ClassCodec`, `ProgramCodec`, `CacheMeaning`, `ProgramFile`, `TypeGraph`, `Bindings`, `BindingCheck`, `BindingMeaning` | A program written without the functions a template has, and read with that template, is the same program. On any bytes the reader finds a program exactly when they start with a writing of it. The type-binding check accepts exactly the bindings that spell types, with no reference back to itself, and with no two references to one node where there are type variables. |
| JSON | `Utf8`, `CString`, `Json`, `JsonBack`, `JsonGrammar`, `JsonRun` | The parser returns a value on exactly the texts that spell it. Parsing what was printed gives the value back. Escapes, surrogate pairs included, read as the UTF-8 of their code points. |
| Templates and positions | `Template`, `TemplateFacts`, `TemplateRun`, `TemplateMeaning`, `Columns` | Tokens restore the source, and the statements of the translation do in order what they ask for: append a text, an expression or an escaped expression, or run code. Code lines are copied from the places recorded for them, texts survive escaping, and columns in bytes and in UTF-16 units convert back and forth. |

## How the models relate to the system

- Memory is always granted: the paths for a failed allocation are not there.
- Machine integers are written out where they matter. Limbs and words are numbers below 2^32 and
  products of them below 2^64; masks of sixteen nodes are 16-bit vectors and the visited set of the
  simulator is bytes of eight bits.
- The automata of the regular expression engine are arbitrary graphs. The second simulator does not
  return when it reaches a cycle of silent moves, so its contract asks that no state it reaches lie on
  one; the first needs no such condition.
- The formatter works on the text and the tokens of the lexer. `Layout.Document` says what the lexer
  guarantees about them: tokens start and end in something visible, only string and regex literals
  cross the end of a line, and tokens come line by line. Formatting again is formatting the document
  `FormatAgain.Again`, which has the text the edits make (`FormatAgain.AgainText`), the same tokens
  moved along, and lines split as the formatter splits them.
- The comment on the spacing rules says that no string, comment or identifier text can change. A regex
  literal can: a backslash at the end of a line carries it over to the next, and the formatter only
  looks for string tokens when it decides whether a line starts inside a literal.
  `FormatMeaning.MeaningKept` gives the exact condition, `FormatMeaning.PatternChanged` a text whose
  regex loses its blanks, and `FormatMeaning.OrdinaryKept` the documents without such literals.
- The formatter's own promise that formatting twice changes nothing more is not kept by every text.
  A carriage return that is not part of a line end can become one when the blanks after it are
  trimmed, and then uncovers blanks before it or makes two blank lines meet. For any range of lines
  `FormatSettled.Settled` is the exact condition, and `FormatSettled.Idempotent` proves it both ways;
  the second formatting is of the same lines, by their numbers in the formatted document.
  `FormatSettled.NotAlwaysIdempotent` gives a text that fails, and `FormatSettled.OrdinarySettled`
  shows that texts where every carriage return ends a line are fine, whatever the range.
- A chain of calls that goes on with a dot on the next line, and the body of an endless definition on
  the next line, are levels of their own in the indentation pass. `Nesting` gives the weights of the
  tokens that open and end them. The comment in the code lets a chain end at a later line that does
  not start with a dot, but a bracket closed on the line of the dot closes the chain's level instead
  of its own: `Nesting.ChainRefused` is a text whose brackets match and which is not formatted.
- One position for each line of a translated template holds exactly when no declared name holds a
  newline (`TemplateFacts.OnePositionPerLine`); `TemplateFacts.NewlineInName` is a template that
  fails. A text comes back from its string literals exactly when it has no zero byte
  (`TemplateFacts.LiteralsBack`), because the lexer stops there.
- Whether a store outside the frame raises is left to `Destructure.World`, a function of the stores
  attempted so far, so frozen objects and raising setters are covered.
- Of two threads meeting in one state, `t2_eps_add` keeps the later one. Its comment takes that one to
  be the left alternative. The model follows the code. Where the two meet without a byte in between, the
  left alternative is followed first, so the right one stays (`Leftmost.RightWins`). Where they meet
  after a byte, threads move in the order of the numbers of their states, so the one whose state has
  the greater number stays, be it the left or the right one (`Leftmost.GreaterNumberWins` is an
  automaton where it is the right one). `Leftmost.LeftmostKept` proves for whole runs that the leftmost
  run is the one kept exactly when no branch on it has a second silent way to where its walk stops, and
  at no byte a live state of greater number leads to the same next stop.
- The JSON parser is more lenient than RFC 8259, and `JsonGrammar.Spells` follows it: strings may hold
  control characters and any other bytes as they are, an escaped surrogate without its partner stands
  for itself, and keys may repeat. It is stricter in that the token of a number has less than 64 bytes.
- Images in the cache are cut into records by the writer in one way. The reader takes any cut
  (`CacheMeaning.ImageAt`), and whatever bytes stand where methods have pointers.
- Text is a string of bytes, written as characters below 256, in the formatter, JSON, template and
  column models.

## Model

| member | source | states |
|---|---|---|
| TailCalls.RewriteCyclicTailCalls | src/compiler_assignment.c:610-718 | A byte of a recorded caller goes from CALL to TAIL_CALL exactly when a recorded call at that place lies on a cycle of recorded calls through two or more functions; every other byte stays. |
| TailCalls.OnCycleComponent | src/compiler_assignment.c:706-708 | An edge lies on a cycle of two or more functions exactly when its ends share a component that has another member. |
| TailCalls.RecordedCyclic | src/compiler_assignment.c:603-611 | A recorded call between different functions is cyclic exactly when the recorded calls lead from its callee back to its caller. |
| TailCalls.CallGraphEdges | src/compiler_assignment.c:624-638 | The edges of the call graph are the recorded calls that count, and no others. |
| TailCalls.ComponentsRenamed | src/compiler_assignment.c:614-638 | Numbering the functions as they turn up keeps who is in whose component. |
| TailCalls.ReachRenamed | src/compiler_assignment.c:614-638 | Numbering the functions keeps reachability. |
| TailCalls.NumberNodes | src/compiler_assignment.c:614-638 | The nodes and edges are the recorded calls under an injective numbering of their functions. |
| TailCalls.FindComponents | src/compiler_assignment.c:639-705 | The tables tell for each node its component and whether that has another member. |
| TailCalls.PatchCalls | src/compiler_assignment.c:706-712 | Patches exactly the bytes that are due. |
| Csr.BuildCsr | src/compiler_assignment.c:639-665 | The two arrays hold, for each node, the targets of its edges in the order recorded. |
| Csr.FillStep | src/compiler_assignment.c:660-662 | Placing one edge keeps what every node has so far and adds the edge to its source. |
| Csr.OffsetTotal | src/compiler_assignment.c:655-656 | The stretches of all nodes together have room for exactly the edges there are. |
| SccWalk.Walk.Run | src/compiler_assignment.c:666-705 | After the search two nodes have the same component number exactly when they reach each other, and the size of a component is two or more exactly when a node in it has company. |
| SccWalk.Walk.WalkFrom | src/compiler_assignment.c:671-704 | A walk from an undiscovered root discovers it, keeps what was discovered and ends with an empty path, in step with the abstract search. |
| SccWalk.Walk.Expand | src/compiler_assignment.c:677-704 | The loop ends with an empty path, keeping the arrays in step with the abstract search and inside their bounds. |
| SccWalk.Walk.PopComponent | src/compiler_assignment.c:690-699 | Pops the stack down to the node, gives all popped nodes one new number and counts them. |
| Tarjan.RetireInv | src/compiler_assignment.c:690-699 | Retiring the component above a ripe node keeps the invariant, in which every group is one whole component. |
| Tarjan.StretchIsComponent | src/compiler_assignment.c:690-699 | From a node whose low link is its own number on, the stack holds its component. |
| Tarjan.DiscoverInv | src/compiler_assignment.c:674-685 | Entering an unvisited node keeps the invariant. |
| Tarjan.NoticeInv | src/compiler_assignment.c:686-687 | Taking an edge to a discovered node, lowering the low link where the node is on the stack, keeps the invariant. |
| Tarjan.RetreatInv | src/compiler_assignment.c:700-703 | Going back to the parent, its low link lowered, keeps the invariant. |
| SccMachine.RetireStep | src/compiler_assignment.c:690-699 | The arrays after popping a component represent the abstract state after retiring it. |
| SccMachine.DescendStep | src/compiler_assignment.c:679-685 | The arrays after following an edge to a new node represent the abstract state after it; both stacks have room for it, and the search has come closer to its end. |
| SccMachine.TablesAtEnd | src/compiler_assignment.c:666-708 | With every node retired, equal numbers mean the same component, and a size of two or more means company. |
| DestructureEmit.CompileCorrect | src/compiler_assignment.c:1019-1184 | Running the code of a multiple assignment comes to assigning to every target the value its pattern denotes, in order, until one of the stores raises; or it raises the error of the pattern and leaves everything but temporaries as it was. |
| DestructureEmit.ParallelAssignment | src/compiler_assignment.c:1166-1184 | With as many values as names, each name gets the value its right-hand side had before anything was stored, so `a, b = b, a` swaps. |
| DestructureEmit.ExtractCorrect | src/compiler_assignment.c:1019-1095 | The extraction code puts the value of every leaf into a fresh register, or raises, and changes nothing below its registers. |
| DestructureEmit.ExtractGroupCorrect | src/compiler_assignment.c:1062-1094 | The same for the parts of an array pattern: prefix, rest, suffix. |
| DestructureEmit.ExtractKeyedCorrect | src/compiler_assignment.c:1025-1061 | The same for the entries of a hash pattern, and the rest of the hash without the keys named. |
| DestructureEmit.StoreAllCorrect | src/compiler_assignment.c:1097-1126 | The stores assign the extracted values to the targets, first to last, and end with the first that raises. |
| DestructureMeaning.CompileMeans | src/compiler_assignment.c:1019-1184 | A compiled statement makes, in order, the assignments the pattern asks for, told by places in the value: an element counted from the front or the back, the elements between them, the first entry with a key. Otherwise it raises the error of the first place where the value has not the shape, with nothing stored; and it is always exactly one of the two. |
| DestructureMeaning.OthersStored | src/vm_run_chunk.c:2880-2905 | What the rest of a hash pattern is given holds, in order, just the entries whose keys are not named. A key finds in it what it finds in the hash, or nothing if it is named. |
| DestructureMeaning.DenoteMeans | src/compiler_assignment.c:1019-1095 | The assignments and the errors of any pattern on any value are those the relations give. |
| DestructureMeaning.RestLookup | src/vm_run_chunk.c:2880-2905 | Looking a key up in the rest. |
| DestructureMeaning.ShareMeans | src/vm_run_chunk.c:2906-2936 | The part of an array that a child of the pattern gets: one element, or all between those before and those after the rest. |
| DestructureMeaning.LookupMeans | src/vm_run_chunk.c:2937-2949 | Looking a key up finds its first entry, and fails exactly when no entry has it. |
| DestructureCompiler.Compiler.CompileMultiAssignment | src/compiler_assignment.c:1131-1184 | The compiler appends exactly that code, and leaves its registers and names as the code needs them. |
| DestructureCompiler.Compiler.EmitExtract | src/compiler_assignment.c:1019-1095 | Walking the pattern appends the extraction code and fills the table of values. |
| DestructureCompiler.Compiler.EmitStores | src/compiler_assignment.c:1097-1126 | Walking the pattern again appends the stores in order. |
| DestructureCompiler.Compiler.EmitStore | src/compiler_classes.c:2972-3108 | Appends the store of one leaf to a local, an instance or class variable, an element or a setter, giving a new local variable a register. |
| Destructure.RunAppend | src/vm_run_chunk.c:2767-2949 | Running one stretch of code after another is running the two together; an error in the first keeps the second from running. |
| Magnitude.Trim | src/bignum.c:35-38 | Leaves the value and no leading zero limb. |
| Magnitude.Compare | src/bignum.c:40-47 | The order of the magnitudes. |
| Magnitude.Add | src/bignum.c:50-65 | The sum, within one limb more than the longer operand. |
| Magnitude.Subtract | src/bignum.c:67-78 | The difference of a larger and a smaller magnitude, also in place. |
| Magnitude.MultiplyScalar | src/bignum.c:80-92 | The product by a number of one limb. |
| Magnitude.Multiply | src/bignum.c:94-115 | The product, in as many limbs as both operands together, with no 64-bit overflow. |
| Magnitude.QuotientDigit | src/bignum.c:137-150 | The binary search finds the largest digit that does not overshoot. |
| Magnitude.Divide | src/bignum.c:125-161 | Dividend = divisor times quotient + remainder, remainder below the divisor; every digit is below 10^9 and the remainder needs at most one limb more than the divisor. |
| Bignum.CanonicalUnique | src/bignum.c:217-227 | Each integer has one canonical representation. |
| Bignum.Int64ToMagnitude | src/bignum.c:163-176 | The magnitude of any 64-bit integer, the smallest included. |
| Bignum.MagnitudeToInt64 | src/bignum.c:178-194 | Converts exactly when the signed value fits 64 bits. |
| Bignum.Canonicalize | src/bignum.c:217-227 | A plain integer exactly when it fits 64 bits, otherwise a trimmed big one. |
| Bignum.ViewOf | src/bignum.c:229-245 | A view has the meaning of its value. |
| Bignum.AddViews | src/bignum.c:247-276 | Addition. |
| Bignum.SubtractViews | src/bignum.c:278-282 | Subtraction. |
| Bignum.Negate | src/bignum.c:284-286 | Negation. |
| Bignum.MultiplyViews | src/bignum.c:288-299 | Multiplication. |
| Bignum.DivideFloored | src/bignum.c:301-329 | The floor of the quotient, for every pair of signs, with the increment in place inside its buffer. |
| Bignum.ModuloFloored | src/bignum.c:331-364 | The floored remainder. |
| Bignum.DivModLaw | src/bignum.c:301-364 | Left = right times quotient + remainder, the remainder smaller than the divisor and zero or of its sign. |
| Bignum.FloorUnique | src/bignum.c:301-364 | Only one quotient and remainder satisfy that law. |
| Bignum.CompareViews | src/bignum.c:366-371 | The order of the integers. |
| Words.DivideShort | src/bignum.c:473-482 | Division by a number up to 2^32, in place, with its remainder. |
| Words.ToWords | src/bignum.c:487-504 | The same magnitude in base 2^32, within the buffer that is allocated. |
| Words.MultiplyAdd | src/bignum.c:508-521 | The magnitude times any 32-bit factor plus any 32-bit term, in place, with no 64-bit overflow and at most two more limbs, or one for small factors. |
| Words.WordsToValue | src/bignum.c:524-550 | The canonical integer of base-2^32 words and a sign. |
| Bitwise.ToTwosComplement | src/bignum.c:553-569 | The two's complement of the integer in the width given. |
| Bitwise.Complement | src/bignum.c:553-569 | The words become the negative of their number modulo the width. |
| Bitwise.BitwiseViews | src/bignum.c:571-606 | Every bit of the result, at every position, is the operation on the bits of the operands in infinite two's complement. |
| Bitwise.CombineResidues | src/bignum.c:576-606 | Combining the low bits of two numbers that fit the width, and extending the sign of the result, combines all their bits. |
| Shifts.ShiftLeft | src/bignum.c:608-633 | Multiplication by a power of two. |
| Shifts.ShiftRight | src/bignum.c:635-672 | The floor of the quotient by a power of two, for both signs, also past the width. |
| Shifts.ShiftsUndo | src/bignum.c:608-672 | A right shift undoes a left shift. |
| Shifts.ShiftRoundTrip | src/bignum.c:608-672 | Shifting a value left and right again gives the same canonical value. |
| Radix.ToRadixString | src/bignum.c:674-709 | The text of the integer in radix 2 to 36. |
| Radix.FromRadixDigits | src/bignum.c:711-727 | The canonical integer of the digits, within the limbs that are allocated. |
| Radix.TextRoundTrip | src/bignum.c:674-727 | Parsing the text of a number gives the number. |
| Radix.RadixRoundTrip | src/bignum.c:674-727 | Writing and reading any canonical value gives it back. |
| Radix.ToDecimalString | src/bignum.c:421-436 | The decimal text, nine digits for each limb below the top, within the stated length. |
| Radix.FromDecimalDigits | src/bignum.c:438-460 | The canonical integer of decimal digits, in chunks of nine. |
| Radix.DecimalRoundTrip | src/bignum.c:426-460 | Writing a big integer in decimal and reading it gives it back. |
| Nfa.MatchesIffAt | reginold/exec.c:26-101 | There is an accepting run to a position exactly when an accepting state is among those reachable there. |
| Nfa.RunIsAt | reginold/exec.c:141-213 | Every run stays among the states reachable position by position. |
| Nfa.AtIsRun | reginold/exec.c:141-213 | Every state reachable at a position is reached by a run. |
| NfaMeaning.ByteMeans | reginold/exec.c:26-67 | A state takes a byte exactly when the byte is in the set its kind has: ranges of ASCII for a type, the bits of the table for a class, all but a newline for a dot, turned around where it is negative. |
| NfaMeaning.AnchorMeans | reginold/exec.c:75-101 | An anchor holds exactly where a word or a line of the text starts or ends as it asks, words being longest stretches of word bytes and lines the pieces between newlines. |
| NfaMeaning.MoveMeans | reginold/exec.c:56-165 | One move of the automaton, by the kind of its state. |
| NfaMeaning.MatchMeans | reginold/exec.c:141-213 | There is a match exactly when such moves lead from the start to an accepting state. |
| NfaMeaning.SavesMean | reginold/exec.c:288-330 | A register holds where the run last saved in it, and -1 if it never did. |
| Tier1.StateSet.Add | reginold/exec.c:141-165 | The queue gets, once each, the consuming and accepting states reachable by silent moves whose anchors hold. |
| Tier1.GrownIsClosure | reginold/exec.c:141-165 | What such additions visit is the closure under silent moves. |
| Tier1.StepStates | reginold/exec.c:197-205 | The next set is the closure of where the byte leads. |
| Tier1.RunTier1 | reginold/exec.c:172-213 | A match exactly when some accepting run exists, with the longest end. |
| Tier2.Place | reginold/exec.c:288-330 | Ends whenever no state it reaches lies on a silent cycle. Each stopping state it can reach gets a thread with the saves of the way tried last, and every other slot stays. |
| Tier2.StepThreads | reginold/exec.c:382-394 | There is a thread exactly in the stopping states reachable after the byte, each carrying the saves of one run, and of all runs the one that arrives last. |
| Tier2.RunTier2 | reginold/exec.c:339-405 | A match exactly when some accepting run exists, with the longest end; the group registers are the saves of one accepting run with that end, the one that wins over the others. |
| Tier2.WinnersAgree | reginold/exec.c:358-369 | All accepting runs that can win have saved the same positions. |
| Tier2.ChosenUnique | reginold/exec.c:319-330 | Which registers win in a state at a position is decided by the automaton and the text alone. |
| Leftmost.LeftmostKept | reginold/exec.c:288-394 | The run kept for a state at a position is the leftmost run there exactly when no branch on the leftmost run has two silent ways to where its walk stops, and at no byte a live state of greater number leads to the same next stop. |
| Leftmost.LeftmostReported | reginold/exec.c:339-405 | The registers reported are the saves of the accepting run that is kept, and that is the leftmost accepting run to the end reported exactly under the same condition. |
| Leftmost.LeftmostMatch | reginold/exec.c:10-14 | Wherever there is a match there is a leftmost run that makes it: one that takes, at every branch, the first way from which the match can still be reached. |
| Leftmost.LeftmostUnique | reginold/exec.c:10-14 | There is only one. |
| Leftmost.KeptUnique | reginold/exec.c:319-330 | Only one run is kept for a state at a position. |
| Leftmost.KeptIsChosen | reginold/exec.c:382-394 | The saves of the run that is kept are the registers that win. |
| Leftmost.ChosenIsKept | reginold/exec.c:382-394 | The registers that win are the saves of a run that is kept. |
| Leftmost.RightWins | reginold/exec.c:10-14 | An automaton where two ways meet without a byte: the left one saves a position, and the right one, which does not, wins. |
| Leftmost.GreaterNumberWins | reginold/exec.c:382-394 | An automaton where two ways meet after a byte and no branch has two ways to one state: the left one saves a position, and the right one, whose state has the greater number, wins. |
| Exec.ExecMatch | reginold/exec.c:416-457 | Both tiers give the outcome, and the captures of the second are those of one run. |
| Exec.TiersAgree | reginold/exec.c:416-457 | There is one possible outcome, so the tiers agree. |
| Exec.ExecSearch | reginold/exec.c:459-472 | The least start with a match, or none when there is no match from the start position on; asks nothing of positions after the first match. |
| FormatRun.FormatRange | lsp/formatting.c:709-862 | The edits for a range of lines are those specified, or none at all when the text does not lex or its levels do not balance. Texts with regex literals over line ends are included. |
| FormatRun.SplitLines | lsp/formatting.c:22-44 | The physical lines, without newline and carriage return. |
| FormatRun.ScanDefinition | lsp/formatting.c:92-140 | Whether a definition is of the endless form. |
| FormatRun.ComputeLineDepths | lsp/formatting.c:466-519 | The depth of every line, in place, and whether the levels balance. |
| FormatRun.StepLine | lsp/formatting.c:481-504 | A line with tokens: its depth and the state after it. |
| FormatRun.ChooseGap | lsp/formatting.c:632-642 | What is wanted between two tokens. |
| FormatRun.IsMethodName | lsp/formatting.c:588-611 | Whether an operator stands for a method name. |
| FormatRun.TokenGap | lsp/formatting.c:616-627 | The blank text between two tokens of one line. |
| FormatRun.InsideStringToken | lsp/formatting.c:662-669 | Whether a position falls strictly inside a string token. |
| FormatRun.CollapseBlankLines | lsp/formatting.c:748-789 | Marks all but the first line of each run of blank lines and collects the deletions. |
| FormatRun.SpaceTokens | lsp/formatting.c:835-853 | The edits for the gaps of a line. |
| FormatRun.EditLine | lsp/formatting.c:799-857 | The edits inside one line: indentation, gaps, trailing blanks. |
| FormatText.StartsInside | lsp/formatting.c:657-669 | A line starts inside a string token exactly when a literal goes over its start. |
| FormatText.EndsInside | lsp/formatting.c:657-669 | A line ends inside a string token exactly when it leaves a literal open. |
| FormatText.TokensInLines | lsp/formatting.c:46-76 | The tokens of a document come line by line, the end last. |
| Nesting.NestingDepths | lsp/formatting.c:300-519 | The pass succeeds exactly when brackets, blocks, chains of calls and endless bodies nest, nothing but a chain or an endless body is left open at the end, and no line continues a block that is not open; and each line is as deep as what is open there. What a token opens or ends is told from its place and what stands before it. |
| Nesting.ChainRefused | lsp/formatting.c:309-313 | A text whose brackets match and which the pass refuses, because a bracket closes the level of a chain. |
| Depth.DepthsFiltered | lsp/formatting.c:466-519 | Leaving out lines without tokens leaves out their depths and changes no other. |
| Depth.SameDefIsEndless | lsp/formatting.c:92-140 | Whether a definition is endless depends only on kinds and on which tokens share a line. |
| EndlessMeaning.KindsMean | lsp/formatting.c:162-201 | The kinds of tokens that end a value, close a level or continue a block. |
| EndlessMeaning.EndlessMeans | lsp/formatting.c:76-140 | A definition is taken for an endless one exactly when the first parenthesis after it is closed, and then an `=` follows, at once or after a return type that stands on the line of its arrow but for what is inside brackets. |
| Spacing.SameWantedGap | lsp/formatting.c:588-642 | So does the gap that is wanted. |
| FormatLine.LineSplice | lsp/formatting.c:799-857 | The edits of a line are in order and do not overlap, and make it the line wanted. |
| FormatApply.EditsApply | lsp/formatting.c:709-862 | All edits, for any range, are pairwise apart, and applied to the text give the formatted document. |
| FormatMeaning.MeaningKept | lsp/formatting.c:544-552 | Formatting any range keeps every literal to the letter, every token, all text between them but for blanks around it, and every end of a line that is not blank, exactly when each line of the range that a regex literal goes on on is indented like code. |
| FormatMeaning.OrdinaryKept | lsp/formatting.c:544-552 | It keeps all that in every document where no regex literal goes over a line end. |
| FormatMeaning.PatternChanged | lsp/formatting.c:657-669 | A text whose regex literal formatting changes. |
| FormatSpacing.GapsSpaced | lsp/formatting.c:544-642 | In the formatted document no blank is before a comma, there is one after a comma unless a closing bracket follows and on both sides of an operator that does not stand for a method name, and every other gap and every token is as it was. |
| FormatSpacing.NameMeans | lsp/formatting.c:588-611 | An operator stands for a method name exactly after `def`, `.` or `::`, or as the `=` of a setter with only parts of a name between it and the `def` on its line. |
| FormatSpacing.LinesTidy | lsp/formatting.c:799-857 | In the formatted document a blank line in range is empty. Any other starts with two spaces for each level, unless inside a string literal, and ends in something visible, unless it leaves one open. |
| FormatSpacing.DoomedMeans | lsp/formatting.c:748-789 | A line is removed exactly when it is in a run of blank lines outside string literals, is not the first of it, and the second line of the run is in range. |
| FormatSpacing.OthersStay | lsp/formatting.c:790-799 | A line out of range that is not removed stays as it is. |
| Patterns.TidyPattern | src/lexer.c:188-203 | A formatted line goes on with its regex literals, and ends inside one, as it did before. |
| FormatTwice.LineTwice | lsp/formatting.c:799-857 | A line formatted once gets no further edit exactly when it is calm, and is blank then exactly when it was hollow. |
| FormatSettled.Idempotent | lsp/formatting.c:709-866 | Formatting any range, and then the same lines of the formatted document, sends no edits the second time exactly when the range is settled. |
| FormatSettled.WholeSettled | lsp/formatting.c:709-866 | For the whole document that is a condition on each line and the one before it. |
| FormatSettled.OrdinarySettled | lsp/formatting.c:709-866 | Every range is settled in documents where every carriage return ends a line. |
| FormatSettled.NotAlwaysIdempotent | lsp/formatting.c:22-44 | A text for which a second formatting sends edits. |
| FormatSettled.AgainSurplus | lsp/formatting.c:748-789 | After formatting a range, a line is a surplus blank line exactly when it and the line before are blank then, and it still counts as a line. |
| FormatAgain.AgainText | lsp/formatting.c:22-44 | The document formatted again, in any range, has the text the edits made. |
| FormatAgain.AgainLexed | lsp/formatting.c:22-76 | It is a document the lexer and the splitting into lines can have made. |
| FormatAgain.AgainDepths | lsp/formatting.c:466-519 | Its lines are as deep as they were. |
| ZeroRuns.RoundTrip | src/compiled_prelude.c:72-112 | Reading the records of any image, whatever follows them, gives the image and stops where they end. |
| ZeroRuns.Covers | src/compiled_prelude.c:86-110 | No record written covers nothing. |
| ZeroRuns.LiteralIs | src/compiled_prelude.c:90-102 | A literal ends before the first run of eight zeros or at the end, and holds no such run. |
| ZeroRuns.WriteImage | src/compiled_prelude.c:72-112 | The records of the image. |
| ZeroRuns.CountLiteral | src/compiled_prelude.c:90-102 | Counting through zeros and stepping back from eight of them finds the end of the literal. |
| ZeroRuns.ReadImage | src/compiled_prelude.c:316-337 | On any bytes at all, ends, stays within them, and reads what the records say or refuses them. |
| FunctionCodec.FunctionRoundTrip | src/compiled_prelude.c:316-394 | A function comes back without its pointers, and the reader stops where it ends. |
| FunctionCodec.ReadStringsBack | src/compiled_prelude.c:361-379 | Strings stored by length come back. |
| ClassCodec.ClassRoundTrip | src/compiled_prelude.c:150-190 | A class, with its type parameters, flags, optional bindings, methods, fields and class variables, comes back, and the reader stops where it ends. |
| ClassCodec.ModuleRoundTrip | src/compiled_prelude.c:194-216 | The same for a module. |
| ClassCodec.InterfaceRoundTrip | src/compiled_prelude.c:222-234 | The same for an interface. |
| ClassCodec.ReadManyBack | src/compiled_prelude.c:281-288 | Any number of entries one after the other come back, if each does. |
| ProgramCodec.ReadBodyBack | src/compiled_prelude.c:240-292 | A body without its first functions reads as the program with the template's functions in their place. |
| ProgramCodec.ProgramRoundTrip | src/compiled_prelude.c:564-646 | Leaving out the functions shared with a template and reading with it gives the program, up to the bytes the code ignores. |
| ProgramCodec.SharedMeans | src/compiled_prelude.c:1032-1041 | The template's functions are left out exactly when the program starts with functions that differ from them in nothing but ignored bytes. |
| ProgramCodec.OnlyAdded | src/compiled_prelude.c:240-292 | A program that adds functions to the template's is written as if it had only the added ones. |
| CacheMeaning.BodyMeans | src/compiled_prelude.c:564-646 | On any bytes and with any template the reader finds a program exactly when the bytes start with a writing of it: the entry, the functions that are not the template's, and classes, interfaces, modules and constants that are within their limits and well made. |
| CacheMeaning.FunctionMeans | src/compiled_prelude.c:316-394 | The same for a function; its image may be cut into records in any way. |
| CacheMeaning.ClassMeans | src/compiled_prelude.c:431-502 | The same for a class; the pointers in its methods may be any bytes and come back as zeros. |
| CacheMeaning.ModuleMeans | src/compiled_prelude.c:504-538 | The same for a module. |
| CacheMeaning.InterfaceMeans | src/compiled_prelude.c:542-560 | The same for an interface. |
| ProgramFile.Reader.TakeProgram | src/compiled_prelude.c:564-646 | The cursor reads exactly the program specified, or refuses. |
| ProgramFile.Reader.TakeFunction | src/compiled_prelude.c:316-394 | The same for a function. |
| ProgramFile.Reader.TakeStrings | src/compiled_prelude.c:361-379 | The same for its strings. |
| ProgramFile.Reader.TakeClass | src/compiled_prelude.c:431-502 | The same for a class, with every check of its flags, counts and type parameters. |
| ProgramFile.Reader.TakeModule | src/compiled_prelude.c:504-538 | The same for a module. |
| ProgramFile.Reader.TakeInterface | src/compiled_prelude.c:542-560 | The same for an interface. |
| ProgramFile.Writer.AppendProgram | src/compiled_prelude.c:240-292 | Appends exactly the body specified. |
| ProgramFile.Writer.AppendClass | src/compiled_prelude.c:150-190 | Appends exactly the bytes specified for a class. |
| ProgramFile.CountShared | src/compiled_prelude.c:1032-1041 | All of the template's functions when the program starts with them, otherwise none. |
| ProgramFile.SaveAndLoad | src/compiled_prelude.c:240-292 | Writing and reading back gives the program again. |
| BindingCheck.CheckBinding | src/compiled_prelude.c:735-740 | Accepts exactly the bindings whose nodes are sound, refer only to nodes of the binding, are all reached from the first and lie on no cycle, and with type variables are referred to at most once. |
| BindingCheck.CheckNode | src/compiled_prelude.c:677-722 | The recursive check comes to what the walk over the graph does, and ends on every graph. |
| BindingCheck.CheckMember | src/compiled_prelude.c:686-719 | One member of a type node, its arguments and its signature. |
| BindingCheck.CheckSignature | src/compiled_prelude.c:706-719 | A signature, its parameters and result. |
| BindingMeaning.AcceptedMeans | src/compiled_prelude.c:677-740 | What the check accepts, told without the graph: every node has one to eight members that each spell a type, no place refers outside the binding, references lead from the first node to every node and from none back to itself, and with type variables no two places refer to one node. |
| BindingMeaning.MemberMeans | src/compiled_prelude.c:686-719 | A member is sound exactly when its number is that of a type, the class, interface, variable or native kind it names is there, and it has no arguments or signature but those its type has. |
| BindingMeaning.EdgeMeans | src/compiled_prelude.c:705-719 | A node has an edge to another exactly when one of its places refers to it: an argument, a parameter or the result of a signature. |
| BindingMeaning.ApartMeans | src/compiled_prelude.c:681 | No node has two edges into it exactly when no two places refer to one node. |
| TypeGraph.VisitGraph | src/compiled_prelude.c:677-722 | A walk succeeds exactly when all it can reach is sound, off the path and on no cycle, and has then met just that. |
| TypeGraph.TreeEdges | src/compiled_prelude.c:681 | With type variables each node met is met over one edge. |
| TypeGraph.TreeAccepts | src/compiled_prelude.c:681 | And no graph with one edge into each node is refused for it. |
| Bindings.FullBits | src/compiled_prelude.c:740 | The mask compared with has exactly the bits of the nodes. |
| JsonBack.PrintedParses | lsp/json.c:519-533 | Parsing a printed value gives it back and uses all of the text, for values whose numbers are integers below 2^53 in magnitude and whose keys hold no zero byte. |
| JsonGrammar.ParseMeans | lsp/json.c:148-533 | The parser returns a value on exactly the texts that spell it, with any blanks where RFC 8259 allows them, and refuses all others. |
| JsonGrammar.PrintedSpells | lsp/json.c:594-662 | What is printed spells the value. |
| JsonGrammar.CharsMeans | lsp/json.c:227-321 | A string is read exactly when characters, escapes and pairs of escapes that spell it stand there, up to a quote. |
| JsonGrammar.NumberRead | lsp/json.c:323-377 | A number token with nothing after it that would go on with it is read as the number it spells. |
| CString.CutMeans | lsp/json.c:72-86 | A key is kept up to its first zero byte. |
| JsonBack.ValueBack | lsp/json.c:489-517 | The same for a value anywhere in a text. |
| JsonBack.CharsBack | lsp/json.c:569-592 | Any bytes, printed as a string literal, read back. |
| JsonBack.NumberBack | lsp/json.c:323-377 | An integer below 2^53 in magnitude reads back. |
| JsonBack.EscapesRead | lsp/json.c:202-289 | Escapes read as the UTF-8 of their code points, a surrogate pair as the one it stands for. |
| Utf8.RoundTrip | lsp/json.c:202-225 | The bytes of a code point decode to it, with continuations after the first byte. |
| JsonRun.ParseText | lsp/json.c:519-533 | Parses a whole text as specified, or refuses it. |
| JsonRun.Parser.ParseValue | lsp/json.c:489-517 | A value at the offset. |
| JsonRun.Parser.ParseString | lsp/json.c:227-321 | A string literal. |
| JsonRun.Parser.ParseEscape | lsp/json.c:246-289 | An escape; a high surrogate takes a low one that follows along. |
| JsonRun.Parser.ParseNumber | lsp/json.c:323-377 | A number token. |
| JsonRun.Parser.ParseArray | lsp/json.c:387-425 | An array. |
| JsonRun.Parser.ParseObject | lsp/json.c:427-487 | An object, keys kept up to a zero byte. |
| JsonRun.Writer.AppendString | lsp/json.c:569-592 | The string literal of a text. |
| JsonRun.Serialize | lsp/json.c:594-662 | The text of a value. |
| Template.ScanRestores | lsp/div.c:44-82 | The tokens, delimiters put back, are the source; text holds no tag start and a tag ends where it first can. |
| Template.ScanFails | lsp/div.c:44-82 | A scan only fails at a tag that nothing closes. |
| TemplateFacts.WrappedCopies | lsp/div.c:183-209 | Each line of copied code is source text starting at the position recorded for it. |
| TemplateFacts.WrappedJoins | lsp/div.c:183-209 | Together the lines are the code between its prefix and its suffix. |
| TemplateFacts.LiteralsBack | lsp/div.c:218-245 | Read as string literals, the lines written for a text append exactly the text, each literal ending at its own quote without interpolation; a text with a zero byte does not read. |
| TemplateFacts.EscapedBack | lsp/div.c:230-241 | A text escaped between quotes reads as that text, whatever follows, exactly when it has no zero byte. |
| TemplateFacts.OnePositionPerLine | lsp/div.c:331-444 | One position for each line of output exactly when no declared name has a newline in it. |
| TemplateFacts.NewlineInName | lsp/div.c:279-329 | A template with one position too few. |
| TemplateMeaning.TranslateMeans | lsp/div.c:331-444 | The translation defines a function of the declared names whose statements do, in order, what the tokens ask for. Text appends itself, `=` appends its trimmed expression escaped and `==` as it is, a comment nothing, and anything else is code, over any number of lines. |
| TemplateMeaning.TagMeans | lsp/div.c:251-271 | The statement of one tag. |
| TemplateMeaning.NamesMean | lsp/div.c:279-329 | The names declared are the trimmed parts between commas after `locals:` in comments, without blank ones and up to a zero byte, in order. |
| TemplateMeaning.TrimmedOnce | lsp/div.c:128-139 | There is one way to trim a text. |
| TemplateMeaning.PositionMeans | lsp/div.c:93-125 | The text before a position is as many lines as its line says, the last as long as its column says. |
| TemplateRun.ScanTokens | lsp/div.c:44-82 | The tokens of the source, or the tag that is not closed. |
| TemplateRun.BuildIndex | lsp/div.c:93-110 | Where each line starts. |
| TemplateRun.FindPosition | lsp/div.c:116-125 | The binary search gives the line by counting newlines, and the column in it. |
| TemplateRun.Translator.EmitWrapped | lsp/div.c:183-209 | One line of output and one position for each line of the code. |
| TemplateRun.Translator.EmitLiteral | lsp/div.c:218-245 | One line for each thousand bytes of text. |
| TemplateRun.Translator.EmitTag | lsp/div.c:251-271 | The code of a tag. |
| TemplateRun.ExtractLocals | lsp/div.c:279-329 | The names declared. |
| TemplateRun.Translate | lsp/div.c:331-444 | The whole translation with its positions, or the place of the error. |
| Columns.CountUnits | lsp/position.h:30-39 | UTF-16 units in the first bytes of a line. |
| Columns.CountBytes | lsp/position.h:43-57 | Bytes covered by a number of units. |
| Columns.BoundaryRoundTrip | lsp/position.h:28-57 | At every character boundary, bytes to units and back is where it started. |
| Columns.UnitsRoundTrip | lsp/position.h:41-57 | Units to bytes and back loses at most one, and that only inside a surrogate pair. |
| Columns.UnitsGrow | lsp/position.h:30-39 | More bytes never give fewer units, on any line. |
| Columns.BytesMonotone | lsp/position.h:43-57 | More units never give fewer bytes, on any line. |
| Columns.FindLine | lsp/position.h:12-26 | The piece of the text between the right newlines, or that there is none. |
| Columns.CharacterFor | lsp/position.h:59-65 | The column of the protocol on any line of a text. |
| Columns.ByteColumnFor | lsp/position.h:67-73 | The byte column on any line of a text. |
| Columns.ThereAndBack | lsp/position.h:59-73 | A byte column at a character boundary of any line survives the trip. |

## Left out

- Parsing of assignments, and register limits.
- DestructureCompiler.Compiler.EmitStore: constants, variables captured by blocks and the rewriting of the instruction that made a value are not modelled.
- Destructure.RunAppend: arrays and hashes are values, so sharing between them is not captured.
- TailCalls.RewriteCyclicTailCalls: node numbers are unbounded, so the 32-bit node count of the code is not modelled.
- Conversion of big integers from and to floating point, hashing and garbage collection.
- Building automata from compiled patterns, and choosing a tier.
- Tier2.Place: asks that no state it reaches lie on a silent cycle, because the code does not return otherwise; so do Tier2.StepThreads, Tier2.RunTier2, Exec.ExecMatch and Exec.ExecSearch.
- Exec.ExecMatch: asks for a start position inside the text or at its end, which search provides, and for the second tier one accepting state and a register count other than one, as the builder of automata makes them.
- The lexer of the formatter: its tokens are taken as given, and re-lexing edited text is taken to give the same tokens moved along. A `#line 1` comment, which restarts the count of lines, is not modelled.
- FormatRun.FormatRange: columns of edits are in bytes; the conversion to UTF-16 units is `Columns.CountUnits`, and JSON objects for the edits are not built.
- ClassCodec.ClassRoundTrip: methods, type bindings and constants are records of bytes of any size; what their fields mean is not modelled, except for the pointers that are cleared.
- The checks between a class and its superclass around the type bindings, bytecode verification, and the header, checksum and file handling of the cache.
- JsonRun.ParseText: numbers that are not integers below 2^53 are kept as their token, so rounding and the refusal of infinite values are not modelled; the same holds of JsonRun.Parser.ParseValue and JsonRun.Parser.ParseNumber.
- JsonRun.Serialize: asks that every number be an integer below 2^53 in magnitude, because printing other numbers with `%g` is not modelled.
- Json.ReadValue: nesting has no bound, and the text of error messages is not modelled.
- The text of the function that escapes HTML in templates, which is a parameter of the translation, and hexadecimal and Unicode escapes in string literals, which the translator does not write.
- Language server requests other than formatting, the debugger, sockets and processes.
