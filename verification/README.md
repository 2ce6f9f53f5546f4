# A Dafny model of the repository's checkers, multipliers, stores and gates

The repository proves many small programs with SAW, Kani and Isabelle at fixed sizes. This project models the
same programs over arbitrary sizes (words, chain length, store capacity, fragments, OMEGA and K, digits, runs of
any length) and proves what they are for. Code that works in place is modelled in place: C arrays are arrays (or
offsets into one word memory where the source passes pointers into a scratch buffer), Python dictionaries and lists
that a loop fills are variables that a loop reassigns, a `HashSet` is a field of a class.

Files, by part of the repository:

- `Gf2Poly`, `Words`: polynomials over GF(2) and little-endian vectors of 64-bit words; `Prod` is the
  reference product, coefficient t the XOR over i of a_i and b_(t-i).
- `School`: the word loop of the FFT harness. `Karatsuba`: the recursion the generator emits, on values.
  `Gf2x`, `Gf2xKaratsuba`, `VectMul`: the C code in place, schoolbook leaf, Karatsuba with its scratch buffer,
  fold mod x^n - 1. `ScratchSize`: the scratch recurrence and the size closure.
- `LaneIr`, `PoisonCheck`, `PoisonSound`, `PoisonExact`, `PoisonRewrite`, `RewriteSound`, `RewriteText`, `LoadBounds`: a
  lane-wise SSA IR after parsing, the static poison check, the rewriting of poison operands into loads, and the bounds of
  those loads. `Placeholder`: the second rewriter.
- `FaultIr`, `Faults`, `FaultOnce`, `FaultSites`, `FaultCoverage`, `FaultShapes`, `FaultCycles`: the single-fault injector.
- `Hint`: FIPS 204 hint encodings (section 7.1, Algorithms 20 and 21).
- `NonceExp`, `NonceLog`: the two single-use challenge stores and the `HashSet` twin.
- `Evidence`: fragment reassembly in C and Rust.
- `Capability`, `CapStore`: delegation chains, replay and revocation stores.
- `Eid`: GSMA SGP.29 check digits. `Comments`, `Lexer`, `Mutants`, `MutantMeaning`, `Tokens`,
  `MaskLimits`: the mutation generator, the comments and literals of a C text, the operator tokens of C.

Conventions. A poison lane, of an operand or of a shuffle's mask, takes its value from an oracle that may answer
differently at every step, place and lane;
"for any two oracles" is how "whatever poison is" is said. Opaque instructions (loads, arithmetic, calls, branches)
have a meaning that is a parameter of every theorem. Signature checks are input bits, keys are opaque identifiers,
the clock is a number per request.

Where the code and its own documentation part:

- target/hqc/gf2x.c:24-27 sizes the scratch buffer at 16 words per operand word without a bound on n. The recurrence
  of the specification stays within that up to 2^21 words and exceeds it by one at 2^21 + 1. What the C code writes is
  less (the last level stops inside tb): it fits up to 2^23 words, and the first overrun, by 8 words, is at 2^23 + 1.
  The last word of the extent is really written, whatever it held (`KaratsubaMul`, `LastSumAny`).
  The pointers it forms for child buffers stay within the buffer or one past it up to 2^22 words; at 2^22 + 1 one of
  them stands 8 words past the end, though nothing is written there. `SixteenTimesSufficesIff` gives the exact
  condition of all three for every n.
- scripts/hqc_avx_ir.py:44-50 says any other instruction with a poison operand fails. The check looks at value
  definitions only, and in an insertelement not at the inserted element. `PoisonIrrelevantIff` is exact: of the
  functions that the check accepts, poison is unobserved in those, and only those, where no store, void call or
  terminator has a poison operand (`EffectsClean`) and no insertelement writes a poison element (`ElementsClean`).
  `PoisonElementPasses` is the shortest function with such an element; it is caught later, by the assertion at
  line 146 (`NoScalarPoisonLeft`).
- scripts/hqc_avx_ir.py:105-108 says every poison operand becomes a load from its own global. Line 137 declares every
  global with four lanes, while line 126 loads as many lanes as the operand has. The rewritten function stays inside
  its globals iff no rewritten operand has more than four lanes (`StaysInsideIffNarrow`); an eight-lane shuffle passes
  the check and its load leaves the global (`EightLanesLeave`). `RewritePreserves` has the width as a precondition.
- scripts/hqc_decaps_faults.py:11-13 speaks of one dynamic instance. In a loop that is not a counted loop every
  iteration carries label 0, and in a counted loop inside another the outer index labels all inner iterations.
  `UncountedSiteRepeats` and `NestedSiteRepeats` show functions that the pass accepts and sites that it selects where
  a label is met twice. `OnePass` is the static condition under which one instance is what the code gives;
  `SitesPassOnce` derives it for all selected sites of a function whose counted loops are not nested. Outside
  counted loops a label is unique, over runs that begin at any line, iff no control-flow cycle goes through the site,
  when every branch on such a cycle tests an opaque value computed just before it (`CycleExact`); `OnePass` itself is
  exact when the jumps back are those of while loops with straight bodies (`OutsideExact`). In an inner loop with a
  straight body a label is met once iff that loop has at most one iteration (`InnerExact`).
- qseal/mutation/mutate.py:88-89 says the text is returned with its comments blanked. The scan does not know literals:
  it blanks exactly the comments iff no string or character literal holds `//` or `/*` (`MaskKeepsCode`, for every
  text). Where one does, code is lost: `s="//";a<b` has no mutant (`LostComparison`); and a comment on the next line is
  read as code: in `"//"/* a` followed by the line `<*/` the angle is mutated (`CommentMutated`). The scan does not know
  joined lines either: a line comment that ends in a backslash goes on on the next line, which the scan reads as code
  (`SplicedReadAsCode`, `SplicedMutated`); with no opener there it is right iff that line is blank (`SplicedIff`).
  `Lexical` pieces exclude a line that is joined to the next one where that could move the end of a piece.
- qseal/mutation/mutate.py:124-126 speaks of each relational and logical operator. The scan reads characters, not
  tokens. `ScanIsTokensIff` gives the exact condition on a line: it finds exactly the relational and logical operator
  tokens iff no token is misread; `MutantsAreTokensIff` gives it for the lines of a text whose literals hold no opener.
  On lines without digraphs, operators inside literals, and adjacencies that no C expression has, two families are left
  (`OrdinaryIff`): shift-assignments yield a mutant though they compare nothing, and a comparison directly after a
  decrement, as in `n-->0`, yields none though it is one (`ShiftLine`, `DecrementLine`).
- qseal/mutation/mutate.py:124-126 leaves out the excluded functions. `SkippedIff` gives the lines that the code leaves
  out: the line that closes such a function is not among them (`ClosingLineKept`), and such a function on one line takes
  the following lines along, up to the next function or closing line (`OneLineRunsOn`).

## Model

| member | source | states |
|---|---|---|
| School.ClMul | scripts/hqc_fft_native/harness.c:39-41 | the 64-step lo/hi loop leaves the 128-bit carry-less product of two words |
| School.AddWordProduct | scripts/hqc_fft_native/harness.c:42 | adding one word product into words i+j and i+j+1 completes exactly one more word of row i |
| School.NextRow | scripts/hqc_fft_native/harness.c:36-38 | finishing row i gives the product of the first i+1 words |
| School.School | scripts/hqc_fft_native/harness.c:34-45 | for every W, c ends as the product of a and b over GF(2)[x], all 128 W bits; skipping zero words changes nothing; all indices stay in range |
| Karatsuba.Clmul1IsProduct | model/cryptol/hqc/GF2X.cry:8-15 | the one-word shift-and-XOR leaf is the product |
| Karatsuba.StepIsProduct | model/cryptol/hqc/GF2X.cry:20-32 | one Karatsuba step with halves of n0 and n1 words, n0 at most n1, turns three half products into the product |
| Karatsuba.ProdHalfSums | model/cryptol/hqc/GF2X.cry:28-32 | the middle product expands into the four half products, the low half padded to the high one's length |
| Karatsuba.KmIsProduct | proof/hqc/gen_hqc.py:64-77 | for every n from 1 and all operands, the recursion on n/2 and n - n/2 down to one word computes the product |
| Karatsuba.ProductUnique | proof/hqc/gen_hqc.py:157-160 | two correct products are the same words: recursion, schoolbook loops and C code agree |
| Gf2x.BitAfterWords | target/hqc/gf2x.c:48-57 | after j words of the inner loop, bit t has changed by the shifted prefix of b exactly when the bit of a is set |
| Gf2x.BitAfterBits | target/hqc/gf2x.c:39-60 | after m bits of a, the block holds the product of the part of a below x^m |
| Gf2x.AllBitsIsProduct | target/hqc/gf2x.c:39-60 | after all bits it is the product |
| Gf2x.SchoolbookMul | target/hqc/gf2x.c:39-60 | the masked shift-and-XOR loops write the product into r and change nothing else |
| Gf2xKaratsuba.AssembledInThreeLoops | target/hqc/gf2x.c:113-121 | the three XOR loops of step 4 produce the same words as the one-expression assembly of the model |
| Gf2xKaratsuba.AddMiddle | target/hqc/gf2x.c:116-121 | the last loop XORs zmid, z0 padded with zeros and z2 into r from word m on, and only into r |
| Gf2xKaratsuba.AssembleInto | target/hqc/gf2x.c:112-121 | step 4 leaves the assembly of z0, z2 and zmid in r and touches nothing else |
| Gf2xKaratsuba.HalfSums | target/hqc/gf2x.c:103-109 | ta and tb become the half sums of a and b, short halves read as zero past their end |
| Gf2xKaratsuba.SideProducts | target/hqc/gf2x.c:97-101 | steps 1 and 2 leave both side products in the scratch buffer, within the words the split is entitled to |
| Gf2xKaratsuba.HalfProducts | target/hqc/gf2x.c:84-110 | after steps 1 to 3 the scratch buffer holds the three half products side by side; no later recursive call disturbs an earlier result |
| Gf2xKaratsuba.LastSumAny | target/hqc/gf2x.c:103-109 | the last half sum of the last split level can be any word, so the word it is stored in is written whatever it held |
| Gf2xKaratsuba.KaratsubaMul | target/hqc/gf2x.c:74-122 | for every n, r receives the product, and only r and the scratch words up to the extent of the last level's tb are written, the last of them with the last half sum of b; a leaf writes no scratch |
| VectMul.BitFold | model/cryptol/hqc/Fold.cry:10-14 | bit t of the fold is bit t XOR bit t + n below n and zero from n on |
| VectMul.RemainderUnique | proof/hqc/gen_hqc.py:169-172 | remainder mod x^n - 1 is well defined |
| VectMul.FoldIsRemainder | model/cryptol/hqc/Fold.cry:10-14 | the fold of a polynomial of degree below 2n is its remainder mod x^n - 1 |
| VectMul.VmulCorrect | proof/hqc/gen_hqc.py:169-172 | for operands of degree below n, vmul is the product mod x^n - 1, for every n |
| VectMul.ReduceWords | target/hqc/gf2x.c:133-140 | the word loop with its two shifts and the final mask computes the fold |
| VectMul.Reduce | target/hqc/gf2x.c:133-140 | in place: o becomes the fold of the 2w words at a |
| VectMul.VectMul | target/hqc/gf2x.c:151-160 | product and reduction with both local arrays: o is vmul of the operands, for every word count whose written extent fits the 16w scratch words |
| ScratchSize.TmpWordsMonotone | proof/hqc/gen_hqc.py:33-40 | the recurrence is monotone, so the larger child is always the upper half |
| ScratchSize.TmpWordsUpperHalf | proof/hqc/gen_hqc.py:33-40 | the maximum of the two children is the upper half's |
| ScratchSize.TmpWordsClosedForm | proof/hqc/gen_hqc.py:33-40 | it is 8 times the sum of n over 2^i rounded up, over the splitting levels, plus 1 |
| ScratchSize.TmpWordsBound | proof/hqc/gen_hqc.py:33-40 | above the threshold it is at most 16n + 8k - 143 over k levels |
| ScratchSize.TmpWordsWorst | proof/hqc/gen_hqc.py:33-40 | one word above 16 times a power of two it is exactly 16n + 8k - 135 |
| ScratchSize.TmpWordsExact | proof/hqc/gen_hqc.py:33-40 | its exact value for every n, from the ones among the low bits of n - 1 |
| ScratchSize.ExtentExact | target/hqc/gf2x.c:84-110 | the scratch words written are the recurrence less the leaf's word and half of the last size that is split |
| ScratchSize.FurthestExact | target/hqc/gf2x.c:94-95 | the furthest child buffer pointer stands where the recurrence ends, less the leaf's word |
| ScratchSize.SixteenTimesSufficesIff | target/hqc/gf2x.c:24-27 | exactly when 16n words suffice: for the specified recurrence, for the pointers the C code forms, and for the words it writes |
| ScratchSize.SixteenTimesSuffices | proof/hqc/gen_hqc.py:33-40 | 16n suffices for all n from 1 to 2^21 and is one short at 2^21 + 1 |
| ScratchSize.SixteenTimesSufficesInC | target/hqc/gf2x.c:24-27 | the extent of what the C code writes fits for all n up to 2^23, fills the buffer exactly at 2^22 + 1, and overruns by 8 at 2^23 + 1 |
| ScratchSize.PointersStayInBuffer | target/hqc/gf2x.c:94-95 | child buffer pointers stay within the buffer or one past it up to 2^22 words and stand 8 words past the end at 2^22 + 1 |
| ScratchSize.ClosureIsClosed | proof/hqc/gen_hqc.py:43-50 | the reached sizes contain both halves of every size above the threshold |
| ScratchSize.ClosureIsLeast | proof/hqc/gen_hqc.py:43-50 | and are the least such set that contains n |
| ScratchSize.ReachedSizesAreRoundings | proof/hqc/gen_hqc.py:43-61 | every reached size is n over some 2^d, rounded down or up |
| ScratchSize.SizeSet.Reach | proof/hqc/gen_hqc.py:43-61 | the calls sharing one set: from the empty set they collect exactly the closure, whichever sizes are met first |
| PoisonCheck.AddUses | scripts/hqc_avx_ir.py:62-63 | every occurrence of a register as an operand is recorded once, with the register its line defines |
| PoisonCheck.Collect | scripts/hqc_avx_ir.py:54-63 | the two dictionaries describe the function's definitions and uses |
| PoisonCheck.NoReturn | scripts/hqc_avx_ir.py:72-80 | a walk along single uses never meets a line twice, so it ends |
| PoisonCheck.NoLinkNoChain | scripts/hqc_avx_ir.py:76-79 | where the walk finds no next insertelement there is no dead chain at all |
| PoisonCheck.Walk | scripts/hqc_avx_ir.py:67-81 | the walk succeeds iff the poison lanes of the base are all overwritten along a chain of single uses |
| PoisonCheck.PoisonNeverRead | scripts/hqc_avx_ir.py:43-89 | the check passes iff every poison operand of a value definition has one of the two harmless shapes |
| PoisonExact.ShuffleAcceptedIff | scripts/hqc_avx_ir.py:81-86 | a shuffle of a register with a poison vector, its mask written out, is accepted iff its result is the same for every value of the second operand and of the poison lanes of the mask |
| PoisonExact.ZeroMaskRefused | scripts/hqc_avx_ir.py:83-85 | a zero mask is refused, though its result is fixed |
| PoisonExact.FixedLineAccepted | scripts/hqc_avx_ir.py:64-66 | a line whose operands and mask have one value under every choice of poison is accepted |
| PoisonExact.OthersRefused | scripts/hqc_avx_ir.py:87-88 | any value definition but an insertelement or such a shuffle is refused when an operand or its mask depends on poison |
| PoisonExact.VectorBuilt | scripts/hqc_avx_ir.py:67-80 | a vector built lane by lane from poison, each intermediate used by the next line alone, is accepted at every length |
| PoisonSound.StepAgrees | scripts/hqc_avx_ir.py:48-50 | one step keeps two states equal outside dead lanes, whatever the two oracles answer |
| PoisonSound.PoisonIrrelevant | scripts/hqc_avx_ir.py:44-51 | if the check passes, no store, void call or terminator has a poison operand and no insertelement writes a poison element: two runs of any length under any two choices of poison take the same path and agree on memory and on every lane of every register that is not a dead lane |
| PoisonSound.OnlyIntermediatesAreDead | scripts/hqc_avx_ir.py:48-50 | a register with a dead lane is a chain intermediate, used only by the next insertelement |
| PoisonSound.PoisonEffectObserved | scripts/hqc_avx_ir.py:64-65 | a poison operand of a store, void call or terminator, which the check does not look at, is observable |
| PoisonSound.PoisonElementObserved | scripts/hqc_avx_ir.py:67-71 | an inserted poison element, which the check does not look at, is observable |
| PoisonSound.PoisonElementPasses | scripts/hqc_avx_ir.py:67-75 | a function with an inserted poison element that the check accepts |
| PoisonSound.PoisonIrrelevantIff | scripts/hqc_avx_ir.py:44-51 | of the accepted functions, exactly those without such operands and elements run alike under any choice of poison |
| PoisonRewrite.EmitLoad | scripts/hqc_avx_ir.py:115-134 | one poison operand becomes a load of its own global with the defined lanes re-inserted |
| PoisonRewrite.RewriteOneLine | scripts/hqc_avx_ir.py:111-136 | the operands of a line are replaced from left to right, numbered by the running counter |
| PoisonRewrite.Rewrite | scripts/hqc_avx_ir.py:109-138 | the whole text is rewritten with one numbering |
| RewriteText.PoisonFreeIff | scripts/hqc_avx_ir.py:110-146 | no poison is left among the operands iff every operand with a poison lane is a vector of 32-bit or 64-bit lanes |
| RewriteText.LineOut | scripts/hqc_avx_ir.py:117-136 | every line comes out as the same instruction, each such operand a loaded register and every other operand as it was |
| RewriteText.OneGlobalEach | scripts/hqc_avx_ir.py:122-126 | the text loads globals 0, 1, 2 and so on, each once, as many as there are such operands |
| RewriteSound.ReinsertedValue | scripts/hqc_avx_ir.py:126-133 | the re-insertions leave the constant with its poison lanes taken from the global |
| RewriteSound.NoScalarPoisonLeft | scripts/hqc_avx_ir.py:146 | the final assertion rules out the inserted poison scalar that the check misses |
| RewriteSound.RewriteSimulates | scripts/hqc_avx_ir.py:109-138 | every step of the original, poison lanes read from the four-lane globals, is matched by the added lines and the rewritten line, when no rewritten operand is wider |
| RewriteSound.RewritePreserves | scripts/hqc_avx_ir.py:48-50 | check plus rewrite, rewritten operands of at most four lanes: with any contents of the globals the rewritten function follows the original with any poison and never leaves a global |
| LoadBounds.NeverOutside | scripts/hqc_avx_ir.py:125-138 | with operands of at most four lanes no load of the rewritten function leaves its global, on any run |
| LoadBounds.FirstWideLeaves | scripts/hqc_avx_ir.py:125-138 | from the start of its block the rewritten function gets to the first wider operand's load, which leaves the global |
| LoadBounds.StaysInsideIffNarrow | scripts/hqc_avx_ir.py:125-138 | the rewritten function stays inside its globals iff no rewritten operand has more than four lanes, whatever the opaque instructions mean |
| LoadBounds.EightLanesLeave | scripts/hqc_avx_ir.py:81-86 | an eight-lane shuffle that the check accepts is rewritten into a load past its global |
| Placeholder.ZeroBlock | scripts/hqc_decaps_ir.py:42-69 | one block: stops iff some poison has none of the three shapes, otherwise every placeholder is zero |
| Placeholder.ZeroPlaceholders | scripts/hqc_decaps_ir.py:40-70 | the same for the whole function |
| Placeholder.ZeroingPreserves | scripts/hqc_decaps_ir.py:45-66 | original and rewritten function run in step on every run; only lanes above 0 of an insertelement consumed by a lane-0 broadcast may differ, for any value of poison |
| Placeholder.NothingLeft | scripts/hqc_decaps_ir.py:67-69 | no poison is left in a rewritten line |
| Placeholder.ZeroedIsZero | scripts/hqc_decaps_ir.py:45-66 | on every run the rewritten function is the original with all its poison read as zero, and nothing else has changed |
| Placeholder.ShapesRecognized | scripts/hqc_decaps_ir.py:42-69 | each of the three shapes, spelled out, is rewritten at every width |
| Faults.RedirectOutputs | scripts/hqc_decaps_faults.py:264-268 | every output of a skipped call gets a scratch buffer and a chosen destination |
| Faults.Variant | scripts/hqc_decaps_faults.py:197-270 | a variant is a copy of the lines with the site's line replaced, the state-restoring skip of a squeeze included |
| Faults.PreludePrepares | scripts/hqc_decaps_faults.py:202-210 | the added prelude decides whether fault number and label agree and records a hit, and changes nothing of the function's own |
| Faults.RedirectsChoose | scripts/hqc_decaps_faults.py:264-268 | each output goes to its scratch buffer on a hit and to its own place otherwise |
| Faults.LineIsStep | scripts/hqc_decaps_faults.py:211-269 | for all fault kinds the replaced line is one step of the original, faulted exactly on a hit; for the state-restoring skip, in a memory where writing a context back as it stands changes nothing |
| Faults.StateLine | scripts/hqc_decaps_faults.py:252-269 | a skipped squeeze writes its output to scratch and puts the saved context back; one that is not hit leaves the new context |
| Faults.InjectedRuns | scripts/hqc_decaps_faults.py:195-275 | over whole runs the instrumented text is the original with its labelled instances faulted |
| Faults.UnhitVariantIsOriginal | scripts/hqc_decaps_faults.py:18-19 | when the fault number labels no executed instance the variant runs as the original on all original state |
| FaultOnce.BoundedStep | scripts/hqc_decaps_faults.py:21-24 | the loop index stays below its bound around the loop, also when a test is forced; only an overrun of the last test takes it one further |
| FaultOnce.PassedStep | scripts/hqc_decaps_faults.py:21-24 | once the labelled instance is behind, it stays behind |
| FaultOnce.LabelMetOnce | scripts/hqc_decaps_faults.py:11-13 | in a counted loop that is not nested, and outside loops, no label is met twice, in the original or in the faulted run |
| FaultOnce.ExactlyOneInstance | scripts/hqc_decaps_faults.py:11-19 | either no instance carries the label, the variant is the original and fault_fired is 0, or exactly one does, the run is the original with that one instance faulted, and fault_fired is 1 |
| FaultOnce.TestReadsIndex | scripts/hqc_decaps_faults.py:21-24 | a loop whose header load is not the site is tested on its true index, on every run, faulted or not |
| FaultSites.IndexLoad | scripts/hqc_decaps_faults.py:138 | the header is the last load of the tested register before the test |
| FaultSites.FindLoops | scripts/hqc_decaps_faults.py:130-144 | exactly the tested loops of the region are found, in text order; it fails iff one has no index load or no exit branch, or there is none |
| FaultSites.LoopOf | scripts/hqc_decaps_faults.py:156-160 | a line is outside iff no found loop spans it |
| FaultSites.FindIndexRegs | scripts/hqc_decaps_faults.py:146-154 | the registers excluded from value faults, in one pass |
| FaultSites.IndexRegsClosed | scripts/hqc_decaps_faults.py:151-154 | exclusions last to the end of the region, and an add or comparison of a register excluded by an earlier line, or loaded from an index anywhere, defines an excluded register |
| FaultSites.LineSites | scripts/hqc_decaps_faults.py:167-195 | the sites of one line; a skippable call with an integer result is a call site and a value site |
| FaultSites.FindSites | scripts/hqc_decaps_faults.py:166-195 | the sites of all lines, in text order and without repetition |
| FaultSites.SitesPassOnce | scripts/hqc_decaps_faults.py:156-195 | every selected site fits its instruction and, with loops not nested, has one instance per label |
| FaultSites.Variants | scripts/hqc_decaps_faults.py:113-278 | the whole pass: one variant per site, an error iff the loops or a skippable call's output cannot be found; what the sites are is stated by the coverage rows below |
| FaultSites.EveryVariantFaultsOnce | scripts/hqc_decaps_faults.py:11-19 | end to end: every variant written alters one dynamic instance of the original or none |
| FaultSites.IndexLoadNotSited | scripts/hqc_decaps_faults.py:186-190 | the header load of a found loop is never a value site, because its cell is excluded |
| FaultSites.LoopsTestTrueIndex | scripts/hqc_decaps_faults.py:21-24 | so no value fault reaches a loop index: in every variant, on every run, every found loop is tested on the index it counts with |
| FaultCoverage.StoreCovered | scripts/hqc_decaps_faults.py:192-195 | for every store of the region and every run that reaches it under its label, some variant leaves what memory held there, or the fault value at a first write, and otherwise runs as the original |
| FaultCoverage.TestCovered | scripts/hqc_decaps_faults.py:177-185 | the same for every loop test, forced either way |
| FaultCoverage.CallCovered | scripts/hqc_decaps_faults.py:175-176 | the same for every skippable call: its outputs go to scratch buffers |
| FaultCoverage.SqueezeCovered | scripts/hqc_decaps_faults.py:171-174 | the same for every squeeze with DEC_SKIP_STATE: its context is put back too |
| FaultCoverage.ValueCovered | scripts/hqc_decaps_faults.py:186-191 | the same for every integer value that no chain of adds and comparisons leads to from a loop index: it becomes the fault value of its type |
| FaultCoverage.NoIndexFaulted | scripts/hqc_decaps_faults.py:21-23 | and no value fault replaces what such a chain computes |
| FaultCoverage.IndexRegsAre | scripts/hqc_decaps_faults.py:146-154 | the excluded registers are exactly the ends of such chains in text order |
| FaultCoverage.CountedLoopFound | scripts/hqc_decaps_faults.py:130-144 | every counted loop laid out as compiled is found, with its header, exit and index |
| FaultShapes.UncountedLoopRepeats | scripts/hqc_decaps_faults.py:156-160 | in every while loop around a site outside counted loops, each iteration carries label 0 |
| FaultShapes.OutsideExact | scripts/hqc_decaps_faults.py:11-13 | outside counted loops, where jumps back are those of such loops: labels are unique in every environment and from every start state, at any line, iff no jump goes back over the site |
| FaultCycles.CycleExact | scripts/hqc_decaps_faults.py:11-13 | outside counted loops, in a function of any shape whose branches on cycles through the site test opaque values: labels are unique in every environment and from every start state, at any line, iff no control-flow cycle goes through the site |
| FaultShapes.InnerInstances | scripts/hqc_decaps_faults.py:156-160 | in a counted loop inside another, the outer index labels one instance in each inner iteration and no other line |
| FaultShapes.InnerExact | scripts/hqc_decaps_faults.py:156-160 | so a label is met at most once iff the inner loop has at most one iteration, and for its test iff it has none |
| FaultShapes.UncountedSiteRepeats | scripts/hqc_decaps_faults.py:130-195 | a function that the pass accepts, with a counted loop and then an uncounted one, and a selected site met with label 0 in every iteration |
| FaultShapes.NestedSiteRepeats | scripts/hqc_decaps_faults.py:130-195 | a function that the pass accepts, with a counted loop inside another, and a selected site met twice with label 0 |
| Hint.HintAccepts | cve-anchor/ref/hint_canonical.c:10-28 | the flat scan accepts iff the cuts are monotone and at most OMEGA, the padding is zero, and every byte in a block exceeds the one before |
| Hint.HintBitUnpack | cve-anchor/ref/hint_canonical.c:10-28 | Algorithm 21 as a nested loop succeeds iff its block-by-block rule holds and returns the sets of each block |
| Hint.FlatIsNested | cve-anchor/ref/hint_canonical.c:20-26 | flat scan with its block-start test and nested rule agree on every input, strict or lax, empty blocks and bad cuts included |
| Hint.AcceptsIff | cve-anchor/ref/hint_canonical.c:10-28 | both variants, block by block: cuts in order and at most OMEGA, strictly increasing bytes or, in the lax one, nondecreasing ones, and zero padding |
| Hint.PackAccepted | cve-anchor/fidelity/gen_vectors.py:14-29 | every packed hint is accepted and decodes to itself |
| Hint.AcceptedIsPacked | cve-anchor/ref/hint_canonical.c:30-32 | every accepted encoding is the packing of the hint it decodes to |
| Hint.CanonicalIffPacked | cve-anchor/ref/hint_canonical.c:30-32 | accepted encodings are exactly the packings of K-tuples of at most OMEGA indices in all, and the tuple is unique |
| NonceExp.Store.Accept | qseal/ref/nonce_exp.c:6-34 | the scan and guarded write answer and update the store as the slot rule says |
| NonceExp.LiveIsHistory | qseal/ref/nonce_exp.c:12-33 | from an all-zero store with a nondecreasing clock, live slots are as a multiset exactly the unexpired accepted requests |
| NonceExp.SeenIsAcceptedEarlier | qseal/ref/nonce_exp.c:13-17 | a key is seen live iff an earlier accepted request with it is unexpired |
| NonceExp.AcceptIsHistoryRule | qseal/ref/nonce_exp.c:24-33 | every decision follows from the history: ok, now before expiry, no unexpired acceptance of the key, fewer than CAP unexpired acceptances |
| NonceExp.LiveEntryStays | qseal/ref/nonce_exp.c:18-32 | from any store, no step overwrites a slot that is live at that step |
| NonceExp.NoReplayInWindow | qseal/ref/nonce_exp.c:24-33 | from any store, no key is accepted twice before the expiry of its first acceptance |
| NonceLog.ArrayStore.Seen | qseal/ref/nonce.c:7-16 | the scan finds exactly the consumed keys |
| NonceLog.ArrayStore.Accept | qseal/ref/nonce.c:18-31 | accepts iff ok, unseen and not full, and then appends the key at count |
| NonceLog.HashStore.AcceptOnce | qseal/demo/src/main.rs:120-137 | accepts iff the signatures are good and the concatenated key is new, and then inserts it |
| NonceLog.LogInvariant | qseal/ref/nonce.c:18-31 | on every run the first count slots are distinct and at most CAP |
| NonceLog.LogTracksSet | qseal/demo/src/main.rs:107-138 | until CAP distinct keys are accepted the slots are exactly the set; afterwards the array is full |
| NonceLog.SameAnswersUntilFull | qseal/demo/src/main.rs:107-138 | both stores answer alike until CAP distinct keys are accepted, then the array store rejects everything |
| NonceLog.NoReplay | qseal/ref/nonce.c:18-31 | no key is accepted twice |
| NonceLog.LogRule | qseal/ref/nonce.c:18-31 | every answer of the array store: ok, key not accepted before, fewer than CAP accepted before |
| NonceLog.SetRule | qseal/demo/src/main.rs:120-137 | every answer of the set store: good, and no good request before it had its key |
| Evidence.Reassemble | qseal/ref/evidence.c:6-26 | accepts iff totals agree and each index below NF occurs once; then every payload is at its index, otherwise the output is all zero |
| Evidence.ReassembleEvidence | qseal/demo/src/main.rs:163-175 | the Rust twin has the same condition and the same result |
| Evidence.NoOtherIndex | qseal/ref/evidence.c:10-15 | by counting, NF fragments with each index below NF once carry no other index |
| Evidence.AcceptedIsReordering | qseal/ref/evidence.c:20-25 | an accepted set is a reordering of the split of its output |
| Evidence.ReorderingIsAccepted | qseal/demo/src/main.rs:152-158 | a reordering of the split of a blob is accepted and yields that blob |
| Evidence.AcceptedIffReordering | qseal/ref/evidence.c:6-26 | accepted iff it is a reordering of the split of some blob, and the blob is unique |
| Capability.AcceptChain | cap/src/lib.rs:398-422 | the loops accept iff the chain starts at a root, all signatures hold, all adjacent pairs are valid delegations and the leaf gate passes |
| Capability.AcceptChainSigned | cap/src/lib.rs:429-444 | additionally every key is the one its link names as issuer |
| Capability.InvariantStep | cap/src/lib.rs:213-235 | one delegation keeps the chain invariant |
| Capability.Attenuates | cap/src/lib.rs:213-221 | for every length and any two links, authority shrinks and depth falls by at least their distance |
| Capability.AcceptedChain | cap/src/lib.rs:193-235 | accepted chains: a root first, every signature good, pairwise invariant, distinct links, at most root depth + 1 links and at most 256, every window holds now, every audience is the verifier, every non-leaf may delegate |
| Capability.AcceptedIffGrown | cap/src/lib.rs:391-422 | accepted are exactly the chains that grow from a signed root for this verifier by one signed re-delegation after the other, on the fields of the links, each in its window |
| Capability.BadSignatureRejects | cap/src/lib.rs:407-413 | one bad signature anywhere rejects |
| Capability.SignersChain | cap/src/lib.rs:424-444 | key i commits to the subject of link i - 1 |
| CapStore.Contains | cap/src/lib.rs:524-534 | the scan of the live prefix decides membership, an excessive length read as full |
| CapStore.AcceptLeafOnce | cap/src/lib.rs:541-559 | leaf gate plus single use, rejecting when full |
| CapStore.AcceptChainOnce | cap/src/lib.rs:572-593 | chain gate plus single use of the leaf's key |
| CapStore.RevokeId | cap/src/lib.rs:631-642 | idempotent, refused when full |
| CapStore.AcceptLeafFull | cap/src/lib.rs:649-665 | revocation, fields, key binding, leaf gate and single use |
| CapStore.AcceptChainFull | cap/src/lib.rs:673-693 | the same on every link of a chain |
| CapStore.StoresAreHistory | cap/src/lib.rs:505-559 | over every run mixing leaves, chains and revocations the two stores are exactly the accepted leaf keys and the revoked ids, distinct and within capacity |
| CapStore.RevokedIdsAre | cap/src/lib.rs:616-642 | an id is on the list iff an earlier revoke of it answered true |
| CapStore.AnswerIsHistoryRule | cap/src/lib.rs:649-693 | every answer is decided by the stateless gates and the history |
| CapStore.LeafAnswer | cap/src/lib.rs:649-665 | over every run, a leaf is accepted iff its version, suite, key, signature, audience and window are right, it is not revoked, no accepted presentation ended in it before, and there is room |
| CapStore.ChainAnswer | cap/src/lib.rs:673-693 | over every run, a chain is accepted iff it has grown so, every link has the version, suite and key it needs and none is revoked, its leaf is unused, and there is room |
| CapStore.RevocationIsFinal | cap/src/lib.rs:667-693 | after revoke answered true, nothing with that id at any link is accepted |
| CapStore.NoReplay | cap/src/lib.rs:561-593 | no presentation is accepted twice, nor another chain to the same leaf |
| Eid.EidValid | esim-eid/ref/eid.c:5-15 | for every digit count the early-reduced 32-bit fold decides the standard's rule (section 10 of GSMA SGP.29 v1.1) |
| Eid.Remainder | esim-eid/ref/eid.c:10-12 | the fold equals the decimal value modulo 97 and never leaves 32 bits |
| Eid.OrderIs96 | esim-eid/README.md:57-69 | 10 has order 96 modulo 97 |
| Eid.SingleErrorRejected | esim-eid/ref/eid.c:5-15 | changing one digit of a valid identifier to any other byte is rejected, at every length |
| Eid.SwapKeepsRemainder | esim-eid/ref/eid.c:10-13 | swapping two unequal digits keeps the remainder iff their distance is a multiple of 96 |
| Eid.SwapRejected | esim-eid/ref/eid.c:5-15 | so in 32 digits every such swap is rejected |
| Comments.MaskComments | qseal/mutation/mutate.py:87-121 | the in-place scan with its two flags refines the token-wise definition |
| Comments.MaskKeepsPlaces | qseal/mutation/mutate.py:88-89 | length and newlines stay; every other character is kept or becomes a space |
| Comments.MaskHasNoOpener | qseal/mutation/mutate.py:111-118 | no comment opener is left |
| Comments.OpenerFreeUnchanged | qseal/mutation/mutate.py:119-120 | a text without openers is unchanged |
| Comments.MaskIdempotent | qseal/mutation/mutate.py:87-121 | masking twice is masking once |
| Lexer.EveryTextHasPieces | qseal/mutation/mutate.py:96-118 | every text is code characters, literals and comments in one way only, unterminated ones included; they are what a C lexer sees when no line is joined to the next |
| Lexer.MaskedPieces | qseal/mutation/mutate.py:96-118 | on such a list, joined lines excluded where they could move the end of a piece: code and literals are kept and each comment is blanked to its exact end iff no literal holds a comment opener |
| Lexer.MaskKeepsCode | qseal/mutation/mutate.py:87-121 | masking any text changes the characters of its comments and no others iff none of its literals holds a comment opener |
| Mutants.LineMutants | qseal/mutation/mutate.py:142-162 | the scan of a line yields its operator occurrences and their replacements |
| Mutants.GenMutants | qseal/mutation/mutate.py:124-162 | depth and skip tracking yield the mutants of all lines that are not skipped; which lines and which replacements these are is stated below |
| Mutants.JoinReplace | qseal/mutation/mutate.py:159-160 | replacing a line replaces that stretch of the text |
| Mutants.MutantIsOneOperator | qseal/mutation/mutate.py:124-162 | every mutant is a different text, from the source in exactly one operator that masking keeps, on a line that is not skipped; outside comments, when no literal holds a comment opener and no joined line moves the end of a piece |
| Mutants.OperatorHasMutant | qseal/mutation/mutate.py:144-162 | every operator that masking keeps on such a line has its mutant unless it is the second character of another, or an angle after a minus or beside another angle |
| Mutants.MutatedIff | qseal/mutation/mutate.py:131-162 | a place of a line is mutated iff the line is not skipped and the scan of its masked form finds an operator there |
| Mutants.MutantsInOrder | qseal/mutation/mutate.py:124-162 | mutants come in reading order, never two at one place |
| MutantMeaning.MutantMutates | qseal/mutation/mutate.py:13-15 | every mutant's operator is replaced by the only operator of the list that differs from it exactly at equal sides (orderings), everywhere (equalities), or where the sides differ (logical); replacing that gives it back |
| MutantMeaning.SkippedIff | qseal/mutation/mutate.py:131-141 | a line is skipped iff it is a preprocessor line or in an excluded function, from the line it begins on to the one before the line that closes it |
| MutantMeaning.ClosingLineKept | qseal/mutation/mutate.py:138-141 | the line that closes an excluded function is not skipped |
| MutantMeaning.OneLineRunsOn | qseal/mutation/mutate.py:132-140 | an excluded function on one line keeps the lines after it skipped, up to the next function or closing line |
| Tokens.FirstOpIs | qseal/mutation/mutate.py:145-149 | the first operator of the list at a place, character by character |
| Tokens.ScanIsTokensIff | qseal/mutation/mutate.py:142-162 | the scan finds exactly the relational and logical operator tokens of a line, longest match first, iff no token is misread |
| Tokens.OrdinaryIff | qseal/mutation/mutate.py:155-157 | on lines as C expressions have them: iff there is no shift-assignment and no decrement directly before a comparison |
| Tokens.ShiftAssignIsMutated | qseal/mutation/mutate.py:155-157 | every shift-assignment token is mutated although it is no relational or logical operator |
| Tokens.DecrementHidesComparison | qseal/mutation/mutate.py:155-157 | a comparison token directly after a decrement is never mutated |
| Tokens.ShiftLine | qseal/mutation/mutate.py:124-126 | the failing line x>>=1: one mutant, no operator token |
| Tokens.DecrementLine | qseal/mutation/mutate.py:124-126 | the failing line n-->0: no mutant, one operator token |
| Tokens.MaskedTokensIff | qseal/mutation/mutate.py:124-162 | on a line that is not skipped the mutated places are exactly the relational and logical operator tokens of its masked form iff none of its tokens is misread |
| Tokens.MutantsAreTokensIff | qseal/mutation/mutate.py:124-162 | on a line of a text whose literals hold no comment opener, joined lines as above: the mutated places are exactly the operator tokens left when the comments are blanked, iff no token is misread |
| MaskLimits.LiteralHidesLine | qseal/mutation/mutate.py:111-114 | behind a literal that begins with two slashes the line is blanked, and the next line is read as code |
| MaskLimits.LostComparison | qseal/mutation/mutate.py:111-114 | the failing text s="//";a<b: one comparison, no token misread, and no mutant |
| MaskLimits.CommentMutated | qseal/mutation/mutate.py:124-126 | the failing text of a literal of two slashes and a block comment over two lines: a mutant inside the comment |
| MaskLimits.SplicedReadAsCode | qseal/mutation/mutate.py:98-103 | the line that a backslash joins to a line comment is read as code |
| MaskLimits.SplicedIff | qseal/mutation/mutate.py:98-103 | with no opener on that line, it is blanked as the comment it is iff it is blank already |
| MaskLimits.SplicedMutated | qseal/mutation/mutate.py:124-126 | the failing text: a mutant inside a line comment that goes on on the next line |

## Left out

- VectMul.VectMul: n a multiple of 64 is excluded, because the shift by 64 - (n mod 64) in the C code is then undefined; the repository's three values of n are odd.
- FaultOnce.ExactlyOneInstance: the static condition is sufficient; it is shown exact for the shapes of `FaultShapes`. Where a branch on a cycle tests a loop index or a value kept from before, no control-flow condition is exact, because whether the cycle is closed depends on the function's data.
- FaultOnce.LoopForm: a loop's add and store of the index are one instruction, loads and stores of index cells are told apart from other memory, and the bound is below 2^64 - 1 (at 2^64 - 1 a forced test makes the index wrap).
- Faults.Variant: the dropping of nsw and nuw and the search for an earlier write to the same object (`written_before`, here an input per line) are not modelled; a scratch buffer has one address for the whole run, and the saved context is a register instead of a stack copy.
- FaultSites.FindSites: a value that names a loop's index slot without loading it is not excluded, since index slots are told apart from other memory.
- PoisonCheck.PoisonNeverRead: single static assignment is a precondition, as LLVM guarantees it; every line is one instruction, regular expressions start from parsed operands.
- PoisonRewrite.Rewrite: the zero and ones modes, the slack arrays, the getelementptr rewriting and the side file of globals.
- RewriteSound.RewritePreserves: alignment is not modelled; poison in a phi is excluded by the source's own assertion; predecessor blocks are part of the opaque memory.
- CapStore.AcceptLeafOnce: identifiers, digests, nonces and keys are numbers that are only compared; their serialization is not modelled.
- NonceExp.Store.Accept: a key is compared and copied as one value instead of byte by byte; times are unbounded naturals that are only compared; CAP is at most 255, the range of the slot counter.
- Hint.HintAccepts: the three written-out cut comparisons are a loop over K cuts; OMEGA is at most 255, the range of a cut byte.
- Mutants.GenMutants: the function-header pattern, the list of excluded functions and white space are inputs; compiling and proving the mutants is not modelled.
- Tokens.ScanIsTokensIff: preprocessor lines are not treated, nor tokens that a backslash at the end of a line cuts in two; a literal that masking or the end of the line cuts short ends there.
- Lexer.MaskedPieces: header names, digit separators, raw strings and trigraphs are not told apart from other code.
- The signature schemes, SHA-256 and the key pairs behind key identifiers: foreign code, here input bits and opaque ids.
- Fixed-width serializers (qseal/ref/tbs_v1.c, qseal/ref/tbs_v2.c, serialize and parse in cap/src/lib.rs) and the single-branch checks of assertion.c, validate.c and hybrid.c would add only easy members.
- Deliberately broken variants in the C and Rust files.
- The additive FFT, Toom and NTT kernels, decapsulation itself, ProVerif and Isabelle theories, and the scripts that drive other tools.
