# Verified models of the BEAM emulator core

This project models parts of the BEAM emulator of Erlang/OTP in Dafny and proves
what the code under `erts/emulator` promises. It covers three families.

**Bignum arithmetic (`big.c`)**, on arrays of 64-bit digits and in place where the
source works in place.

- `Digits`, `Words`, `WordDivision`, `TwoDigitDivision`: digit vectors and the word
  macros that work with half-digit products.
- `Vectors`, `Multiply`, `ShortDivision`, `Divide`, `LongDivision`: the routines on
  vectors. Long division lets its remainder go below zero, flips a sign flag and
  corrects later. The invariant is x == Q*y + R or x == Q*y - R, and the pair
  (length of R, R) falls.
- `Integers`: canonical terms and the signed operations.
- `Bits`, `Bitwise`, `Shift`: two's-complement AND and OR over sign and magnitude, and
  shifts that round down.
- `Decimal`: chunked printing, the size estimate and chunked parsing.
- `Sequences`, `Wrappers`: reversal and `Option`, shared by all families.

**Code-loading protocols.**

- `Catches`: the catch table, whose slot vector is shared by the staged pools.
- `Breakpoints`, `TimeHash`: double-buffered breakpoints with reference counts, and the
  call-time tables.
- `Ranges`: the address ranges of modules.
- `CodeIx`: code indices and the write permission.
- `Purge`, `Suspension`: suspended processes and literal areas.

**Loader transformations and their execution.**

- `Select`: all forms of `select_val`.
- `Labels`: patch lists threaded through the code.
- `Packer`, `PackTables`: the operand packer and its inverse, and the generator of packing
  programs and of the expressions that read packed operands (`beam_makeops`).
- `Maps`: flat-map updates.

Verify with `dafny verify dfyconfig.toml`.

## Conventions

- Addresses, allocation and process identities are parameters or counters.
- Words are 64 bits and every wrap-around is written out.
- `qsort` is an insertion sort: the keys are distinct, so every sort gives the same array.
- An ERTS_BPF bit mask is a record of booleans.
- A reference count is the multiplicity in a multiset, so an object is live while it is in it.
- Map keys stand for their place in the term order.
- The load test of the time tables is in single precision, with integers for its roundings.

## Where the code does less than a reader would expect

- `D2DIVREM` returns quotient minus one with a remainder equal to the divisor when the division
  is exact and the loop ends on the negative side (`TwoDigitDivision.ExactUnlessNegative`,
  `TwoDigitDivision.ExactDivisionCanLoseOne`). Long division tolerates it.
- `I_band` on two negative operands complements the upper digits of the longer one without
  the pending borrow. The result is wrong exactly if the common low digits of the longer
  operand are all zero (`Bitwise.BAnd`).
- Aborting a staging after it took a slot from a free list of two or more leaves the active
  catch table without a consistent free list (`Catches.AbortIsSafeExactly`,
  `Catches.AbortWouldLoseSlot`). No caller does so: `beam_bif_load.c:411-440` aborts only
  before any code of the batch is finished.
- Setting local trace over global trace on one function, or the reverse, loses one reference
  to the old match specification (`Breakpoints.ExactUnlessMixed`,
  `Breakpoints.MixedTraceLosesReference`). `trace_pattern` never does so: it clears the other
  kind first (`erl_bif_trace.c:1420-1433`), and functions and exports have breakpoints of
  their own.
- A list that mixes immediates with float literals loses the floats when no integer test stands in
  front, and an integer test for the label Fail is not applied to atom keys
  (`Select.SplitIsExact`). Keys of one selection have one type, so neither is emitted.
- The wide operand field is 32 bits wide but is unpacked with a 16-bit mask: the operands of a
  program come back if and only if all of them fit the mask (`Packer.Unpack`, `PackTables.PackAndRead`).

## Model

| member | source | states |
|---|---|---|
| `Words.DSum` | erts/emulator/beam/big.c:67-73 | sum and carry of two digits are exact for all words |
| `Words.DSumC` | erts/emulator/beam/big.c:55-64 | the same with an incoming carry word |
| `Words.DSub` | erts/emulator/beam/big.c:86-92 | difference and borrow of two digits are exact |
| `Words.DSubB` | erts/emulator/beam/big.c:75-84 | the same with an incoming borrow word |
| `Words.DMulC` | erts/emulator/beam/big.c:182-203 | with half-digit products only, hi*B + lo == a*b + old hi; no overflow changes the result |
| `WordDivision.CountLeadingZeros` | erts/emulator/beam/big.c:220-230 | the normalisation shift is exact: the shifted divisor has its top bit set and no bit is lost |
| `WordDivision.DDivRem` | erts/emulator/beam/big.c:264-301 | (a1*B + a0) == q*b + r with r < b, for every a1 < b, through two half-digit quotients |
| `WordDivision.DRem` | erts/emulator/beam/big.c:313-318 | the remainder alone, for every a1 and b > 0 |
| `TwoDigitDivision.OutcomeIsDivision` | erts/emulator/beam/big.c:333-370 | the trial loop terminates; quotient and remainder fit together, and the remainder reaches the divisor only in an exact division |
| `TwoDigitDivision.D2DivRem` | erts/emulator/beam/big.c:333-370 | the macro on words computes that outcome, although its partial remainders go negative |
| `TwoDigitDivision.ExactUnlessMultiple` | erts/emulator/beam/big.c:333-370 | away from multiples of the divisor the outcome is the exact quotient and remainder |
| `TwoDigitDivision.ExactUnlessNegative` | erts/emulator/beam/big.c:333-370 | the outcome is the exact quotient and remainder if and only if the loop does not end on the negative side of a multiple of the divisor |
| `TwoDigitDivision.ExactDivisionCanLoseOne` | erts/emulator/beam/big.c:333-370 | a concrete exact division that yields quotient minus one and remainder equal to the divisor |
| `Vectors.Compare` | erts/emulator/beam/big.c:448-468 | longer wins; at equal length the result is the order of the numbers |
| `Vectors.IAdd` | erts/emulator/beam/big.c:474-502 | the digits written denote x + y, without leading zero if x has none; nothing else is written |
| `Vectors.DAdd` | erts/emulator/beam/big.c:506-521 | x + c for one digit c, in place or not |
| `Vectors.ISub` | erts/emulator/beam/big.c:528-557 | x - y for x >= y with leading zeros stripped; the target may be y |
| `Vectors.DSubtract` | erts/emulator/beam/big.c:562-580 | x - c, stripped |
| `Vectors.ZSub` | erts/emulator/beam/big.c:585-602 | turns a vector that went below zero into its magnitude |
| `Multiply.IMul` | erts/emulator/beam/big.c:608-661 | the schoolbook product denotes x*y and has no leading zero |
| `Multiply.ISqr` | erts/emulator/beam/big.c:669-724 | the special squaring loop with five carries denotes exactly x*x, also when x is the upper half of the target and is destroyed on the way |
| `Multiply.SquareAgreesWithProduct` | erts/emulator/beam/big.c:608-724 | for every x a run of I_sqr and a run of I_mul(x, x) leave the same 2*xl digits and the same length |
| `Multiply.DMul` | erts/emulator/beam/big.c:730-764 | x*d for one digit d, in place or not |
| `Divide.DMulSub` | erts/emulator/beam/big.c:774-807 | subtracts d*x from a window of the remainder and reports whether it went below zero |
| `Divide.Reduce` | erts/emulator/beam/big.c:891-935 | one subtraction of the division loop keeps the remainder's meaning, flipping the sign when it overshoots |
| `Divide.TrialIsSound` | erts/emulator/beam/big.c:891-935 | the estimated quotient digit is at least one and never so large that the next remainder is not smaller |
| `Divide.DivStep` | erts/emulator/beam/big.c:891-935 | one step from trial digit to new remainder, in digits and as numbers |
| `LongDivision.RemPass` | erts/emulator/beam/big.c:996-1041 | one pass of I_rem keeps x == Q*y + R or x == Q*y - R by sign, and (length, R) falls |
| `LongDivision.DivPass` | erts/emulator/beam/big.c:876-942 | the same for I_div with the quotient digits in their places |
| `LongDivision.FinishRemainder` | erts/emulator/beam/big.c:943-960 | the closing correction turns a negative remainder into the least non-negative one |
| `LongDivision.IDiv` | erts/emulator/beam/big.c:865-960 | terminates with x == q*y + r, 0 <= r < y, and neither vector has a leading zero, for all normal x >= y with two or more digits in y |
| `LongDivision.IRem` | erts/emulator/beam/big.c:987-1052 | the same remainder without quotient digits |
| `LongDivision.RemainderAgreesWithDivision` | erts/emulator/beam/big.c:865-1052 | a run of I_rem leaves the very digits that a run of I_div leaves as remainder |
| `ShortDivision.DDiv` | erts/emulator/beam/big.c:814-855 | x == q*d + rem with rem < d, in place or not, q without leading zero |
| `ShortDivision.DRemainder` | erts/emulator/beam/big.c:965-979 | the remainder alone |
| `Integers.BigNorm` | erts/emulator/beam/big.c:1842-1868 | the canonical term of sign and digits: small iff it fits, no leading zero, TooBig iff the header cannot count the digits |
| `Integers.RepresentationIsUnique` | erts/emulator/beam/big.c:1842-1868 | equal integers have equal terms |
| `Integers.TooBigIsExact` | erts/emulator/beam/big.c:1842-1868 | the overflow report is given exactly for integers of more digits than a header can hold |
| `Integers.BPlusMinus` | erts/emulator/beam/big.c:2223-2241 | the signed sum for every sign combination, canonical |
| `Integers.BigPlus` | erts/emulator/beam/big.c:2246-2257 | x + y as canonical term |
| `Integers.BigMinus` | erts/emulator/beam/big.c:2259-2269 | x - y as canonical term |
| `Integers.BigTimes` | erts/emulator/beam/big.c:2320-2347 | x * y as canonical term, by whichever of the three product routines is chosen |
| `Integers.BigDiv` | erts/emulator/beam/big.c:2354-2378 | the quotient truncated towards zero, canonical |
| `Integers.BigRem` | erts/emulator/beam/big.c:2383-2413 | the remainder with the sign of the dividend, canonical |
| `Integers.SignedDivision` | erts/emulator/beam/big.c:2354-2413 | quotient and remainder fit together as div and rem do |
| `Decimal.WriteBig` | erts/emulator/beam/big.c:1733-1784 | emits exactly the decimal digits, low end first, then the sign, for every normal vector |
| `Decimal.ChunkSplits` | erts/emulator/beam/big.c:1761-1779 | dividing off k digits splits the text into k padded digits and the text of the quotient |
| `Decimal.ILg` | erts/emulator/beam/big.c:1444-1455 | the position of the highest bit, -1 for zero |
| `Decimal.TwoToThe93` | erts/emulator/beam/big.c:1719-1728 | 2^93 < 10^28, the fact behind the estimate |
| `Decimal.EstimateSuffices` | erts/emulator/beam/big.c:1719-1728 | 2^bits <= 10^(bits*28/93 + 1) for every number of bits |
| `Decimal.DecimalEstimate` | erts/emulator/beam/big.c:1719-1728 | the size is bits*28/93 plus sign and terminator for the exact number of bits, and the text of write_big has at most size - 1 characters |
| `Decimal.NoLeadingZero` | erts/emulator/beam/big.c:1733-1784 | the text of a positive integer does not start with a zero |
| `Decimal.HornerConcat` | erts/emulator/beam/big.c:2764-2805 | chunked evaluation equals digit-by-digit evaluation |
| `Decimal.TimesPlus` | erts/emulator/beam/big.c:2783-2805 | one chunk: the vector becomes 10^17 times itself plus the chunk, in place |
| `Decimal.CharsToInteger` | erts/emulator/beam/big.c:2667-2831 | base ten: succeeds iff the text is a run of digits, alone or behind a plus or a minus, and returns the canonical term of the integer this denotes, for text of any length |
| `Decimal.ParseIsDenotes` | erts/emulator/beam/big.c:2667-2831 | parsing finds n if and only if the text denotes n, for every text and every n |
| `Decimal.Signs` | erts/emulator/beam/big.c:2685-2693 | a plus in front of digits changes nothing and a minus negates |
| `Decimal.TextRoundTrip` | erts/emulator/beam/big.c:1733-2831 | parsing the text of an integer gives the integer back, for both signs |
| `Decimal.PrintThenRead` | erts/emulator/beam/big.c:1733-2831 | write_big followed by erts_chars_to_integer returns the very term, for every integer that has one |
| `Bits.AndIsBitwise` | erts/emulator/beam/big.c:1099-1160 | the reference And is the bitwise conjunction of the infinite two's-complement expansions |
| `Bits.OrIsBitwise` | erts/emulator/beam/big.c:1170-1243 | likewise Or |
| `Bitwise.ComplementHigh` | erts/emulator/beam/big.c:1070-1083 | the mask loop of I_btrail removes nothing from the complement |
| `Bitwise.TrailNegative` | erts/emulator/beam/big.c:1057-1088 | two's-complement digits of a negative result become its magnitude, whatever leading words of ones there are |
| `Bitwise.TrailPositive` | erts/emulator/beam/big.c:1090-1094 | leading zeros are dropped |
| `Bitwise.StreamMeans` | erts/emulator/beam/big.c:1112-1160 | digits with pending borrow, plus what stands above, are the signed operand |
| `Bitwise.DigitwiseAnd` | erts/emulator/beam/big.c:1099-1160 | combining digits combines the numbers, whatever stands above |
| `Bitwise.BAnd` | erts/emulator/beam/big.c:1099-1166 | equals And for every sign combination, less B^yl exactly when both are negative and the low yl digits of x are all zero |
| `Bitwise.BorrowLostExample` | erts/emulator/beam/big.c:1162-1163 | a concrete pair for which the pending borrow is lost |
| `Bitwise.BOr` | erts/emulator/beam/big.c:1171-1243 | equals Or for every sign combination |
| `Bitwise.BigBand` | erts/emulator/beam/big.c:2425-2444 | the canonical term, with the operands in either order of length |
| `Bitwise.BigBor` | erts/emulator/beam/big.c:2447-2466 | the canonical term of the disjunction |
| `Shift.LeftDigits` | erts/emulator/beam/big.c:1361-1378 | bits and digits shifted left in one pass, with what is carried out |
| `Shift.RightDigits` | erts/emulator/beam/big.c:1403-1421 | the digits shifted right are the quotient by the power of two, and the last bits tell whether the remainder is zero |
| `Shift.RightMeans` | erts/emulator/beam/big.c:1384-1435 | the magnitude plus one when a bit is lost is division rounded down, for both signs |
| `Shift.ILshift` | erts/emulator/beam/big.c:1338-1439 | x*2^y for y >= 0 and floor(x/2^-y) for y < 0, both signs, every mix of digit and bit offsets, result normal |
| `Shift.BigLshift` | erts/emulator/beam/big.c:2497-2504 | the canonical term of the shifted integer |
| `Catches.CatchTable.constructor` | erts/emulator/beam/beam_catches.c:57-72 | an empty table in which every pool shares one vector |
| `Catches.GcOldVec` | erts/emulator/beam/beam_catches.c:75-84 | frees a vector only when no pool refers to it |
| `Catches.CatchTable.StartStaging` | erts/emulator/beam/beam_catches.c:87-98 | the staging pool becomes a copy of the active header over the same vector; it is neither the active nor the previously active pool, and every other pool and its vector are as before |
| `Catches.CatchTable.CommitStaging` | erts/emulator/beam/beam_catches.c:100-103 | the staged chains become the committed ones, and the next staging index is neither the new nor the previously active index, as code_ix.c computes it |
| `Catches.StartKeeps` | erts/emulator/beam/beam_catches.c:87-98 | what readers of the active and of the previously active index find is the same while the pool is overwritten |
| `Catches.CommitKeeps` | erts/emulator/beam/beam_catches.c:100-103 | the commit keeps the table consistent and makes the old active index the previous one |
| `Catches.CatchTable.AbortStaging` | erts/emulator/beam/beam_catches.c:100-103 | if no slot was taken from a free list of two or more, the active pool is as before the staging; otherwise no owners and no free list make a consistent table of it |
| `Catches.AbortIsSafeExactly` | erts/emulator/beam/beam_catches.c:100-139 | the active pool is a consistent table after an abort if and only if no free slot was taken or the active free list had at most one slot |
| `Catches.AbortLosesSlot` | erts/emulator/beam/beam_catches.c:100-139 | otherwise no assignment of owners and no free list makes a consistent table of it |
| `Catches.AbortWouldLoseSlot` | erts/emulator/beam/beam_catches.c:87-174 | a run that ends in such a state: two addresses loaded, deleted, and one consed again |
| `Catches.CatchTable.Grow` | erts/emulator/beam/beam_catches.c:119-131 | doubling copies all slots and keeps the vectors of other pools alive |
| `Catches.CatchTable.Cons` | erts/emulator/beam/beam_catches.c:105-139 | takes one free slot for the module; every other chain is as before |
| `Catches.CatchTable.Car` | erts/emulator/beam/beam_catches.c:141-149 | returns the address that a module stored in the slot, for every committed module; and for the index active before the last commit, also while the next staging goes on, for every module committed then and not purged since |
| `Catches.CatchTable.LoadCatches` | erts/emulator/beam/beam_load.c:4794-4803 | the chain of a module holds all its catch addresses |
| `Catches.CatchTable.DelMod` | erts/emulator/beam/beam_catches.c:151-174 | succeeds iff every stored address lies less than the code size above the code, by the signed difference; then returns the slots of the module to the free list and forgets exactly its chain |
| `Catches.TakeSlot` | erts/emulator/beam/beam_catches.c:105-139 | free slots and chains still partition the slots below the high mark, and the free list is acyclic |
| `Catches.GiveSlot` | erts/emulator/beam/beam_catches.c:151-174 | likewise when a slot is given back |
| `Breakpoints.SetHalf` | erts/emulator/beam/beam_bp.c:1451-1528 | what the staged half shows afterwards, and counts that move with its references except for one lost reference when local and global trace are mixed |
| `Breakpoints.ExactUnlessMixed` | erts/emulator/beam/beam_bp.c:1451-1528 | the counts are exact if and only if the setting does not mix local and global trace over a match specification |
| `Breakpoints.MixedTraceLosesReference` | erts/emulator/beam/beam_bp.c:1451-1528 | a run of the setting that loses the reference |
| `Breakpoints.ClearHalf` | erts/emulator/beam/beam_bp.c:1558-1579 | exactly the cleared slots are released |
| `Breakpoints.CopySlots` | erts/emulator/beam/beam_bp.c:340-361 | the staged half shows what the active one shows, with one more reference per flagged slot |
| `Breakpoints.UnrefSlots` | erts/emulator/beam/beam_bp.c:303-322 | every flagged slot gives up one reference to a live object |
| `Breakpoints.SetFunctionBreak` | erts/emulator/beam/beam_bp.c:1427-1530 | stages the setting on top of what is staged already; running processes see no change; the function keeps its own instruction; restart and pause create nothing |
| `Breakpoints.ClearFunctionBreak` | erts/emulator/beam/beam_bp.c:1546-1581 | stages the clearing on top of what is staged already; running processes see no change and the function keeps its own instruction |
| `Breakpoints.InstallWord` | erts/emulator/beam/beam_bp.c:376-406 | a staged structure gets its breakpoint word, still without effect; the function keeps its own instruction |
| `Breakpoints.UninstallWord` | erts/emulator/beam/beam_bp.c:422-437 | a dead breakpoint gives the function's own instruction back, without effect |
| `Breakpoints.ConsolidateFunction` | erts/emulator/beam/beam_bp.c:284-362 | halves agree afterwards; a function whose active half is empty loses its structure and no function its own instruction |
| `Breakpoints.CommitKeeps` | erts/emulator/beam/beam_bp.c:366-373 | swapping the halves shows matched functions what was staged and changes nothing for all others |
| `Breakpoints.Consolidated` | erts/emulator/beam/beam_bp.c:258-362 | between cycles: halves agree, every count is the number of flagged slots plus outside references, a module's number of breakpoints is its number of installed words |
| `Breakpoints.NeverDangling` | erts/emulator/beam/beam_bp.c:284-437 | in every safe state a breakpoint word has live data and all it points at is live |
| `Breakpoints.IdleWords` | erts/emulator/beam/beam_bp.c:258-437 | between cycles the entry of a function holds a breakpoint word if it shows something, and otherwise the instruction it was loaded with |
| `Breakpoints.TurnedOnAsAsked` | erts/emulator/beam/beam_bp.c:1451-1528 | a counter or time table that is there is inactive after pause and active after anything else; one that is not there is made, except by restart and pause on a function without any breakpoint; traces get the match specification asked for, and nothing else changes |
| `Breakpoints.ClearedIsRemoved` | erts/emulator/beam/beam_bp.c:1558-1579 | the selected kinds are gone and the others are as they were |
| `Breakpoints.Table.SetBreak` | erts/emulator/beam/beam_bp.c:1412-1423 | any number of settings in one cycle: each works on what the earlier ones staged; nothing visible changes; after every single function the state is safe |
| `Breakpoints.Table.ClearBreak` | erts/emulator/beam/beam_bp.c:1533-1542 | likewise for any number of clearings in one cycle |
| `Breakpoints.Table.Install` | erts/emulator/beam/beam_bp.c:376-406 | words installed and counted per module, nothing visible changes, and after every single function the state is safe |
| `Breakpoints.Table.CommitStaged` | erts/emulator/beam/beam_bp.c:366-373 | the only step that changes what a function shows, and only for matched ones |
| `Breakpoints.Table.Uninstall` | erts/emulator/beam/beam_bp.c:410-437 | words of dead breakpoints removed, nothing visible changes, and after every single function the state is safe |
| `Breakpoints.Table.Consolidate` | erts/emulator/beam/beam_bp.c:258-362 | back to the state between cycles, nothing visible changes, and after every single function the state is safe |
| `Breakpoints.TurnedOnInTurn` | erts/emulator/beam/erl_bif_trace.c:1481-1493 | traces set first and counters and time tables after them give all selected kinds together |
| `Breakpoints.Table.TraceOn` | erts/emulator/beam/erl_bif_trace.c:1477-1656 | a whole cycle that sets local, meta, count and time in any combination: matched functions show what was asked for, others what they showed before; every function without a breakpoint has the instruction it was loaded with |
| `Breakpoints.Table.TraceOff` | erts/emulator/beam/erl_bif_trace.c:1496-1656 | a whole cycle that clears them in any combination: exactly the selected kinds are gone, and a function that shows nothing has the instruction it was loaded with |
| `Breakpoints.Table.ClearAllBreaks` | erts/emulator/beam/erl_bif_trace.c:1477-1656 | a whole cycle after which matched functions show nothing and start with the instruction they were loaded with |
| `Breakpoints.Table.DebugBreakpoint` | erts/emulator/beam/beam_debug.c:160-170 | a whole cycle: matched functions show the debug flag set or cleared, others exactly what they showed before; every function without a breakpoint has the instruction it was loaded with |
| `Select.TaggingIsInvertible` | erts/emulator/beam/beam_emu.c:2377-2410 | tagging a small and reading it back are inverse, for negative values as well |
| `Select.TaggingKeepsOrder` | erts/emulator/beam/beam_load.c:3786-3795 | the tables are sorted by raw operands and searched by tagged words: the orders agree |
| `Select.MinusOneIsTheSentinel` | erts/emulator/beam/beam_load.c:3898-3902 | the sentinel is the word of the small -1 and of no other small |
| `Select.LinearSearch` | erts/emulator/beam/beam_emu.c:2291-2307 | the unrolled sentinel search reaches the paired label or Fail, also for -1, and reads up to the first key that is not smaller, at most the sentinel |
| `Select.GenLinear` | erts/emulator/beam/beam_load.c:3859-3911 | lays out that table |
| `Select.BinarySearch` | erts/emulator/beam/beam_emu.c:2317-2366 | the search on byte offsets reaches the paired label or Fail |
| `Select.GenBinary` | erts/emulator/beam/beam_load.c:3833-3856 | lays out the sorted pairs |
| `Select.UseJumpTable` | erts/emulator/beam/beam_load.c:2706-2733 | true iff all keys are smalls and their unsigned spread is at most the list length |
| `Select.BothSignsUseNoTable` | erts/emulator/beam/beam_load.c:2706-2733 | keys of both signs never get a jump table, because they are compared unsigned |
| `Select.GenJumpTable` | erts/emulator/beam/beam_load.c:3692-3775 | slot key - min holds its label, every other slot Fail |
| `Select.Jump` | erts/emulator/beam/beam_emu.c:2377-2411 | indexing with wrap-around reaches the paired label or Fail |
| `Select.SelectVal2` | erts/emulator/beam/beam_emu.c:2252-2262 | the two-way test reaches the paired label or Fail |
| `Select.TestLiterals` | erts/emulator/beam/beam_load.c:3919-3949 | the chain of exact comparisons with bignum and float literals reaches the paired label or Fail |
| `Select.Compile` | erts/emulator/beam/beam_load.c:3692-3949 | the form is the one the rules choose by the number and spread of the keys, and it is a correct layout of the choices |
| `Select.Execute` | erts/emulator/beam/beam_emu.c:2252-2411 | executing it reaches the label paired with the value, or Fail, for every term |
| `Select.SplitSelects` | erts/emulator/beam/beam_load.c:3595-3685 | immediates first and literals second selects the same label as the whole list |
| `Select.RunSplit` | erts/emulator/beam/beam_load.c:3595-3685 | the split sequence does what the original type test and selection do, in both of its orders, except that its own integer test sends floats to Fail |
| `Select.SplitIsExact` | erts/emulator/beam/beam_load.c:3595-3685 | it does so for all terms if and only if: without an integer test in front no float key has a label other than Fail, and with one for the label Fail no atom key has |
| `Select.IntegerTestIsRedundant` | erts/emulator/beam/beam_load.c:3803-3911 | an integer test with the same Fail in front of integer keys may be dropped |
| `Labels.Loader.constructor` | erts/emulator/beam/beam_load.c:1835-1845 | no label is referred to |
| `Labels.Loader.NewLabel` | erts/emulator/beam/beam_load.c:5454-5466 | adds an undefined label without references |
| `Labels.Loader.EmitWord` | erts/emulator/beam/beam_load.c:2480-2491 | an ordinary word touches no list |
| `Labels.Loader.EmitReference` | erts/emulator/beam/beam_load.c:2361-2366 | the word joins the list of its label and no other |
| `Labels.Loader.DefineLabel` | erts/emulator/beam/beam_load.c:2379-2393 | succeeds iff the label exists and is undefined, and records the code index |
| `Labels.Loader.FuncInfo` | erts/emulator/beam/beam_load.c:2523-2572 | pads only where a NIF needs room and then to the least size; the last label and no other moves with it; the words arrive unchanged and the function-table slot joins the list of the last label; too many functions are refused |
| `Labels.PushKeeps` | erts/emulator/beam/beam_load.c:2361-2366 | lists stay acyclic, disjoint and complete |
| `Labels.ResolveLabel` | erts/emulator/beam/beam_load.c:4749-4756 | following a list while overwriting it terminates and patches exactly its words |
| `Labels.Loader.Freeze` | erts/emulator/beam/beam_load.c:4740-4757 | succeeds iff every label that some step referred to was defined; then every reference holds the address of the index at which its label was defined, and every other word is as it was emitted |
| `Labels.IndexKept` | erts/emulator/beam/beam_load.c:2379-2572 | in every load the index of a label is changed by no step that is not about it, and code once emitted stays |
| `Labels.ReferencesAre` | erts/emulator/beam/beam_load.c:2361-2572 | in every load the words that refer to a label are exactly those that some step emitted for it, and the table slot of each func_info refers to the label defined last before it |
| `Labels.LabelPointsAt` | erts/emulator/beam/beam_load.c:2379-2393 | in every load a label stands for the word that followed its definition |
| `Labels.LabelPointsAtInfo` | erts/emulator/beam/beam_load.c:2523-2572 | in every load the label of a function stands for its func_info, behind any padding |
| `Packer.StepBack` | erts/emulator/beam/beam_load.c:2446-2470 | undoing a letter restores the state if and only if the state after it was right and its operand fits the mask; a wrong word stays wrong |
| `Packer.RoundTrip` | erts/emulator/beam/beam_debug.c:414-458 | running a program forwards and then backwards restores operands and stack if and only if every packed operand fits the 16-bit mask |
| `Packer.Pack` | erts/emulator/beam/beam_load.c:2437-2474 | the packing engine computes the forward run |
| `Packer.Unpack` | erts/emulator/beam/beam_debug.c:414-458 | the unpacking loop returns the operands that were packed if and only if they all fit the mask |
| `Packer.MaskDecides` | erts/emulator/beam/beam_debug.c:443-448 | for one operand that fits its field: it comes back iff it fits the 16-bit mask, which is narrower than the wide field |
| `PackTables.DoPack` | erts/emulator/utils/beam_makeops:1092-1216 | the loop writes the packing program and, for every operand, the word and field it will be read from |
| `PackTables.Runnable` | erts/emulator/utils/beam_makeops:1163-1216 | for every list of operands the generated program runs in the packing engine of the loader: no letter loses a field, nothing is left on the stack, and the words are those the operands define |
| `PackTables.ReadBack` | erts/emulator/utils/beam_makeops:1218-1225 | the generated expression of an operand yields it if and only if it fits the mask of its field |
| `PackTables.PackAndRead` | erts/emulator/utils/beam_makeops:1092-1225 | generated program and generated expressions are inverse on every list of operands, exactly where each operand fits its mask |
| `Ranges.FindRange` | erts/emulator/beam/beam_ranges.c:259-280 | from any cached midpoint: the range containing the address, or none iff there is none |
| `Ranges.SiftFirst` | erts/emulator/beam/beam_ranges.c:154-161 | the in-place sift is insertion into the sorted rest |
| `Ranges.SiftIsSort` | erts/emulator/beam/beam_ranges.c:151-161 | and gives the array that a full sort would |
| `Ranges.SortedUnique` | erts/emulator/beam/beam_ranges.c:151-153 | a sorted table is determined by its contents |
| `Ranges.CopyLive` | erts/emulator/beam/beam_ranges.c:133-142 | old ranges follow the new ones, without the purged ones |
| `Ranges.BuildTable` | erts/emulator/beam/beam_ranges.c:121-168 | the new table is ordered and holds exactly the new and the unpurged old ranges |
| `Ranges.RangeIndex.constructor` | erts/emulator/beam/beam_ranges.c:88-100 | start-up: one index is active and staged, and nothing can be found |
| `Ranges.RangeIndex.StartStaging` | erts/emulator/beam/beam_ranges.c:102-119 | room for all, memory accounted for, lookups unchanged |
| `Ranges.RangeIndex.Update` | erts/emulator/beam/beam_ranges.c:170-198 | adds a range that overlaps none in use, making room for the preloaded modules at start-up; lookups unchanged |
| `Ranges.RangeIndex.CommitStaging` | erts/emulator/beam/beam_ranges.c:121-168 | lookups find the new ranges and all old unpurged ones, and the active table has no purged entry |
| `Ranges.RangeIndex.AbortStaging` | erts/emulator/beam/beam_ranges.c:121-168 | lookups unchanged |
| `Ranges.RangeIndex.Find` | erts/emulator/beam/beam_ranges.c:259-280 | returns the one range in use that contains the address, or none, and caches the place of what it found and nothing else |
| `Ranges.RangeIndex.LookupFunction` | erts/emulator/beam/beam_ranges.c:221-256 | returns the one function of all ranges in use whose code holds the address, or none iff there is none |
| `Ranges.RangeIndex.Remove` | erts/emulator/beam/beam_ranges.c:200-205 | exactly the range that holds the code is no longer found |
| `Ranges.FindFunction` | erts/emulator/beam/beam_ranges.c:239-256 | the function whose interval holds the address, none iff the address is outside the table |
| `Ranges.FunctionOnce` | erts/emulator/beam/beam_ranges.c:239-256 | and it is the only one |
| `Maps.MergedSorted` | erts/emulator/beam/beam_emu.c:6962-7040 | the merge has no key twice and stays within the reserved slots |
| `Maps.MergedOverrides` | erts/emulator/beam/beam_emu.c:6962-7040 | the merge is the old map overridden by the updates |
| `Maps.MergedFull` | erts/emulator/beam/beam_emu.c:6900-6908 | the merge is as long as both lists together if and only if all updates have new keys |
| `Maps.MergeLoop` | erts/emulator/beam/beam_emu.c:6962-6995 | the loop writes a prefix of the merge and leaves one list empty |
| `Maps.UpdateAssoc` | erts/emulator/beam/beam_emu.c:6910-7040 | a sorted flat map on the heap equal to the override, within the words reserved and using all of them iff every key is new, with a filler over unused key slots; nothing else is written |
| `Maps.UpdateExact` | erts/emulator/beam/beam_emu.c:7101-7191 | succeeds iff all keys exist, then leaves a map at the heap top that shares the old key tuple and is the override; otherwise names the first missing key and the heap top stays; no word beyond the reserved ones is written |
| `TimeHash.Probe` | erts/emulator/beam/beam_bp.c:1297-1310 | every probe ends, at the entry or at a free slot |
| `TimeHash.Get` | erts/emulator/beam/beam_bp.c:1297-1310 | finds the entry iff the process has one |
| `TimeHash.OneEntry` | erts/emulator/beam/beam_bp.c:1312-1342 | no process has two entries |
| `TimeHash.EntrySums` | erts/emulator/beam/beam_bp.c:1297-1342 | the table is a map: a process has the calls and time of its entry |
| `TimeHash.Insert` | erts/emulator/beam/beam_bp.c:1327-1341 | adds one entry and keeps all others reachable |
| `TimeHash.Rehash` | erts/emulator/beam/beam_bp.c:1264-1296 | a table of the new size with the same contents |
| `TimeHash.RoomLeft` | erts/emulator/beam/beam_bp.c:1317-1324 | the test in single precision, with both roundings, leaves two free slots in every table of four or more |
| `TimeHash.CrowdedIsSevenTenths` | erts/emulator/beam/beam_bp.c:1317-1324 | up to 2^22 slots the test is that of seven tenths exactly |
| `TimeHash.Table.constructor` | erts/emulator/beam/beam_bp.c:1249-1262 | an empty table |
| `TimeHash.Table.Put` | erts/emulator/beam/beam_bp.c:1312-1342 | doubles exactly when the load test says so; under the load rule a free slot always remains; contents plus the new entry |
| `TimeHash.Table.Add` | erts/emulator/beam/beam_bp.c:1184-1192 | adds to the entry of the process or makes one |
| `TimeHash.Collect` | erts/emulator/beam/beam_bp.c:1174-1194 | merging all schedulers' tables conserves calls and time of every process |
| `CodeIx.StepKeeps` | erts/emulator/beam/code_ix.c:114-164 | every event keeps the invariant of holder, queue, suspensions and references |
| `CodeIx.Exclusion` | erts/emulator/beam/code_ix.c:114-164 | in every interleaving at most one process has the permission; when it is free nobody is queued, referenced or left suspended; a live process that is suspended is queued |
| `CodeIx.RefusedWait` | erts/emulator/beam/code_ix.c:114-164 | in every run a process is queued and referenced exactly once, and suspended once while it lives, if its last attempt was refused and nothing was released since, and otherwise not at all |
| `CodeIx.Permission.TrySeize` | erts/emulator/beam/code_ix.c:114-142 | succeeds iff the permission is free, and then the process has it; otherwise the process is queued in front, suspended once and referenced once, and nothing else changes |
| `CodeIx.Permission.ReleaseAll` | erts/emulator/beam/code_ix.c:144-164 | frees the permission, empties the queue, drops all references and wakes every live waiter and nobody else |
| `CodeIx.Permission.ProcessExits` | erts/emulator/beam/code_ix.c:148-159 | a process may exit at any time; one that is queued stays queued and referenced until the release, which does not resume it |
| `CodeIx.StagingIsApart` | erts/emulator/beam/code_ix.c:52-99 | after any number of commits the staging index is neither the active nor the previously active one |
| `Suspension.ResumedCounts` | erts/emulator/beam/beam_bif_load.c:1676-1684 | resuming a list takes from each live process as many suspensions as it is listed times, and nothing from a dead one |
| `Purge.PurgeState.constructor` | erts/emulator/beam/beam_bif_load.c:90-111 | no purge and nobody suspended |
| `Purge.PurgeState.Prepare` | erts/emulator/beam/beam_bif_load.c:1741-1792 | refuses while a purge runs, reports a module without old code, and otherwise starts a purge |
| `Purge.PurgeState.SuspendOnPurge` | erts/emulator/beam/beam_bif_load.c:1625-1656 | the process is appended and suspended, and the list grows by a hundred exactly when it is full; without a purge nothing happens |
| `Purge.PurgeState.Finalize` | erts/emulator/beam/beam_bif_load.c:1658-1706 | no live process stays suspended by the purge, and a dead one is not touched |
| `Purge.StepPlaces` | erts/emulator/beam/beam_bif_load.c:1540-1604 | a step moves a literal area from one place to the next; only a hand-over adds one |
| `Purge.ReleasedOnce` | erts/emulator/beam/beam_bif_load.c:1540-1604 | in every run an area is released at most once and never while queued, current or pending; none is lost |
| `Purge.FirstComeFirstServed` | erts/emulator/beam/beam_bif_load.c:1540-1604 | in every run areas are taken up in the order in which they were handed over, one at a time |
| `Purge.LiteralAreas.HandOver` | erts/emulator/beam/beam_bif_load.c:1971-1992 | appends behind the last node, or starts the list; the area stays in memory |
| `Purge.LiteralAreas.SwitchArea` | erts/emulator/beam/beam_bif_load.c:1540-1604 | the first area becomes current, the old current is left to thread progress, and the list stays linked |
| `Purge.LiteralAreas.Release` | erts/emulator/beam/beam_bif_load.c:1517-1537 | a pending area is still in memory and in no other place, and leaves memory |

## Left out

- Decimal.CharsToInteger: base ten only, and for values whose digits a bignum header can count, because the source does not test for larger ones.
- Breakpoints.SetFunctionBreak: a function never has local and global trace at once, because the source loses a reference otherwise; the other case is `Breakpoints.ExactUnlessMixed`.
- Breakpoints.Table.SetBreak: a function never has local and global trace at once, because the source loses a reference otherwise; the other case is `Breakpoints.ExactUnlessMixed`.
- Ranges.RangeIndex.Update: at start-up at most 128 ranges, because the source does not test for more.
- Purge.PurgeState.SuspendOnPurge: the process list is a sequence with a capacity, so the release of a replaced array is not modelled.
- Values of counters and time tables in breakpoints, which restart sets back to zero; the tables themselves are `TimeHash`.
- Breakpoints on exports and BIFs, match specifications and tracers themselves, and the code a breakpoint runs.
- `I_bxor`, which needs the condition of `I_band` and adds nothing new to the proof.
- Heap sizing through the floating-point logarithm table, conversion to and from floats, other bases, and 32-bit words.
- `transform_engine` and the opcode tables: the rules for `select_val` are taken from `ops.tab` as they are written.
- PackTables.DoPack: which operands are packable and how many go into a word are parameters, and operands of size zero do not occur.
- Packer.Pack: label and literal patches are not moved along with an operand.
- Labels.Loader.FuncInfo: the later refusal of more than MAX_ARG arguments is not modelled, and MIN_FUNC_SZ is that of a build with dirty schedulers.
- Literal, string, import and catch patch lists of the loader; line tables and source locations.
- Maps with more than 32 keys (hash maps), and garbage collection before an update.
- Locks and memory order: each operation that the source runs under a mutex is one step.
- The module life cycle of current, old and on_load code; the tables of funs and exports.
