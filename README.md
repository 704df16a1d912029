# Digital logic simulator, modelled in Dafny

This repository holds two C programs. Each reads a combinational circuit and prints its truth table. A circuit has `INPUTVAR` names, `OUTPUTVAR` names, and gate lines: NOT, AND, OR, NAND, NOR, XOR, XNOR, DECODER and MULTIPLEXER.

Both programs share the same core:

- **Signal table.** A linked list of named 0/1 variables with `insert`, `exists`, `getValue` and `setValue`. The second program adds a `done` flag with `setDone` and `getDone`. The names `"0"` and `"1"` are constants.
- **Gates.** Seven bit functions, plus a decoder and a multiplexer. Both read their select bits as a Gray-code word and convert it with `grayToBinary`.
- **Gray-code helpers.** `genGrayCode`, `validPowerTwo` and `log_2`.
- **Enumeration loop.** For each of the `2^m` rows it sets the inputs from `i ^ (i >> 1)`, the first input most significant. It then runs every gate of the gate list in list order and prints the input and output values. Values are never reset between rows.

How the two programs differ:

- `first/first.c` runs the gates in declaration order.
- `second/second.c` first marks every declared input and output done. It then sorts the gates. Each step moves the first gate, in remaining declaration order, whose read signals are all done, and marks that gate's outputs done. When no gate is ready, the C loop never ends.

## How the model is organised

- `bits.dfy` (module `Bits`): shifts, `&`, `|` and `^` on non-negative integers.
- `gray.dfy` (module `Gray`):
  - `grayToBinary`, both as a function and as the C loop;
  - the Gray code `i ^ (i >> 1)` and `genGrayCode`;
  - the select word of the decoder and the multiplexer;
  - the input row of enumeration row `i`;
  - `validPowerTwo` and `log_2`.
- `gates.dfy` (module `Gates`): the gate kinds, the gate record (`struct line`), the bit functions, `myDecoder` and `myMultiplexer`.
- `signals.dfy` (module `Signals`): the class `SignalTable`.
  - The list from `head` is a `seq<Var>`, head first, and `num_vars` is a field.
  - The lookups walk the sequence the way the C loops walk the list.
  - Their contracts are stated over the value map `Env()`, the names `Names()` and the done names `Done()`.
- `scheduling.dfy` (module `Scheduling`): the sorting pass of the second program as a function, `Schedule`, with its properties.
- `evaluation.dfy` (module `Evaluation`): what one evaluation case does to the values, what a pass over the gate list does, and the rows of the enumeration loop, all as functions with their properties.
- `netlist.dfy` (module `Netlist`): the class `Circuit`.
  - It holds the signal table, the gate list `linehead`, the ordered list `orderhead` and the slot arrays `inputArray` and `outputArray`.
  - Its methods are `make*`, `insertLine`, the declaration loops, the sorting loop, the evaluation `switch` and the enumeration loop.
  - Each method is proved against the functions above.
- `programs.dfy` (module `Programs`): both `main`s from an already-read circuit description.
  - `RunFirst` and `RunSecond` are proved equal to the specification functions `FirstRun` and `SecondRun`.
  - The end-to-end properties are stated about those functions.
- `scenarios.dfy` (module `Scenarios`): two small circuits worked out exactly. They show where gate order and the pre-marked outputs change what gets printed.

A slot of `inputArray` or `outputArray` points at the node at the head of the list right after `insert`. Names in the table are unique, so the model records the node's name.

The model allows repeated names and constants among the declared inputs and outputs. In that case the slot aliases whatever node was at the head, as in the C code (`Netlist.RepeatedNameAliases`).

## Model

| member | source | states |
|---|---|---|
| Gray.GrayToBinaryLoop | second/second.c:465-469 | the `while (in >>= 1) temp ^= in` loop computes the XOR-fold of all right shifts of the word |
| Gray.GrayToBinaryOfGray | first/first.c:307-311 | `grayToBinary(i ^ (i >> 1)) == i` for every non-negative i |
| Gray.GrayOfGrayToBinary | first/first.c:307-311 | `grayToBinary` is also a right inverse of `i ^ (i >> 1)`, so the two are inverse bijections |
| Gray.GrayToBinaryBound | first/first.c:307-311 | a word below 2^n converts to an index below 2^n |
| Gray.GrayBound | first/first.c:336-343 | `i ^ (i >> 1)` of an index below 2^n stays below 2^n |
| Gray.GrayInjective | first/first.c:336-343 | distinct indices have distinct Gray words |
| Gray.GrayStep | first/first.c:336-343 | consecutive Gray words differ exactly in the bit at the lowest set bit of i + 1 |
| Gray.GrayAdjacent | first/first.c:336-343 | consecutive entries of the table differ in exactly one bit |
| Gray.GenGrayCode | first/first.c:336-343 | the fresh array has `2 << (bits - 1)` = 2^bits entries and entry i is `i ^ (i >> 1)` |
| Gray.SelectCode | first/first.c:265-272 | the shift-and-add word built from n select bits is below 2^n |
| Gray.SelectCodeMsbFirst | second/second.c:423-430 | reading back the m bits of a number, most significant first, gives the number |
| Gray.FirstRowZero | second/second.c:916-923 | row 0 sets every input to 0 |
| Gray.AdjacentRowsDifferOnce | second/second.c:916-923 | consecutive rows differ in exactly one input |
| Gray.InputRowCode | second/second.c:916-923 | row i, read as a select word, is Gray word i, which converts back to i |
| Gray.InputRowsDistinct | second/second.c:916-923 | the 2^m rows are pairwise different, so each input assignment appears once |
| Gray.PowerOfTwoExponent | first/first.c:136-141 | a positive number with `num & (num - 1) == 0` is 2^k for some k |
| Gray.PowerOfTwoAnd | first/first.c:136-141 | every power of two passes the `num & (num - 1) == 0` test |
| Gray.ValidPowerTwoIff | first/first.c:136-141 | `validPowerTwo` holds exactly for 0 and the powers of two |
| Gray.Log2 | first/first.c:153-166 | `log_2` returns -1 for 0, -2 for a non-power of two, and k exactly when num is 2^k |
| Gates.TruthTables | first/first.c:225-251 | each gate function on 0/1 values is its Boolean connective, and NOT is an involution |
| Gates.MyDecoder | first/first.c:265-272 | `myDecoder` returns grayToBinary of the select word, first input most significant, an index below 2^n |
| Gates.MyMultiplexer | first/first.c:289-296 | `myMultiplexer` returns the encoding value at grayToBinary of the select word, and that index is in range |
| Gates.DecoderSelectsGrayIndex | second/second.c:423-430 | a two-select decoder fed 1, 1 (Gray word 3) selects index 2 |
| Gates.OneSelectMultiplexer | second/second.c:447-454 | with one select, 0 picks the first encoding signal and 1 the second |
| Signals.SignalTable.Exists | second/second.c:224-241 | `exists` is true exactly for a constant or a name in the list |
| Signals.SignalTable.Insert | second/second.c:112-130 | a constant or a present name leaves the list and `num_vars` unchanged; a new name is put at the head with the value, not done, and counted |
| Signals.SignalTable.SetValue | first/first.c:179-186 | only the value of the node with the name changes; names, done flags and every other node are unchanged |
| Signals.SignalTable.GetValue | first/first.c:199-211 | 0 for "0", 1 for "1" without a lookup, otherwise the stored value |
| Signals.SignalTable.SetDone | second/second.c:339-348 | no-op for the constants; otherwise only that node's flag becomes true, and no value changes |
| Signals.SignalTable.GetDone | second/second.c:360-369 | true for the constants, otherwise the node's done flag |
| Signals.DoneOfSet | second/second.c:339-348 | setting a node's flag adds exactly its name to the done names, so flags never go back to false |
| Signals.EnvOfUpdate | first/first.c:179-186 | overwriting the first node with a name changes the lookup at that name only |
| Evaluation.WriteAllAt | second/second.c:982-989 | with distinct names, each written name ends with its own value |
| Evaluation.WriteAllOther | second/second.c:296-303 | a name that is not written keeps its value |
| Evaluation.StepFrame | second/second.c:930-1006 | a gate changes no value but those of its outputs |
| Evaluation.StepSimple | second/second.c:932-973 | NOT and the two-input gates write their output with the gate function of the values they read |
| Evaluation.DecoderOneHot | second/second.c:974-990 | a decoder with distinct outputs sets exactly one of its 2^n outputs to 1, at the Gray-decoded select index |
| Evaluation.MultiplexerSelects | second/second.c:991-1004 | a multiplexer writes the encoding value at the Gray-decoded select index |
| Evaluation.EvalAllFrame | second/second.c:930-1006 | a name no gate writes keeps its value through the whole list |
| Evaluation.OutputsAgree | second/second.c:930-1006 | a gate whose reads agree on two tables computes the same outputs on both |
| Evaluation.EvalAllDetermined | second/second.c:930-1006 | along a dependency-respecting order, everything written is determined by the seed values |
| Evaluation.SetInputsAt | second/second.c:919-923 | with distinct input slots, slot p holds bit m-1-p of the row's Gray word |
| Evaluation.RowsSnoc | first/first.c:686-790 | the rows so far are extended by the next row |
| Evaluation.EnumerationLength | second/second.c:916-928 | 2^m rows are printed when there is a gate and none when the list is empty |
| Evaluation.RowInputAt | second/second.c:919-923 | input slot p still holds its row bit after the gates run, when no gate writes it |
| Evaluation.RowInputs | second/second.c:1008-1011 | the printed input columns of row i are the bits of Gray word i |
| Evaluation.EnumerationGrayOrder | second/second.c:916-923 | the printed input columns start at all zeros, change one input per row and never repeat |
| Evaluation.RowDetermined | second/second.c:917-1006 | along an order valid from the inputs, a row's written values do not depend on the values left by earlier rows |
| Evaluation.RowsDetermined | second/second.c:917-1019 | an output column fed by an input or a gate does not depend on the values the table started with |
| Scheduling.FirstReady | second/second.c:876-910 | the index found is ready and no earlier gate is; None means no gate is ready |
| Scheduling.SchedulePermutation | second/second.c:875-913 | the ordered list is a permutation of the declared gates |
| Scheduling.ValidOrderCons | second/second.c:876-897 | a ready gate followed by an order valid after its outputs are done is a valid order |
| Scheduling.ScheduleRespectsDependencies | second/second.c:876-897 | each scheduled gate reads only constants, names done beforehand and outputs of earlier gates |
| Scheduling.RemoveFromValidOrder | second/second.c:890-901 | removing a placed gate and treating its outputs as done keeps an order valid |
| Scheduling.ScheduleComplete | second/second.c:875-911 | the pass cannot get stuck when some order of the gates respects the dependencies |
| Scheduling.ScheduleSucceedsIff | second/second.c:875-911 | the pass fails exactly when no dependency-respecting order exists, e.g. a cycle or a never-written read |
| Scheduling.CycleIsStuck | second/second.c:875-911 | two inverters feeding each other never become ready |
| Netlist.DeclareAllSpec | second/second.c:112-130 | declaring a list of names keeps old values and adds exactly the new non-constant names, each at 0 |
| Netlist.DeclareAllConcat | second/second.c:745-772 | declaring two lists one after the other is declaring their concatenation |
| Netlist.SlotsOfNewNames | second/second.c:805-810 | with distinct new names, every slot points at its own name |
| Netlist.RepeatedNameAliases | second/second.c:805-810 | a repeated name makes its slot point at the node then at the head |
| Netlist.ProgressAdvance | second/second.c:890-901 | moving the first ready gate keeps the ordered list, the done names and the outcome of the loop in step |
| Netlist.SetInputsPrefix | second/second.c:919-923 | the j-th write of the input loop sets slot m-1-j to bit j of the Gray word |
| Netlist.Circuit.InsertNames | second/second.c:112-130 | `insert(name, 0)` of each name in turn; the done names are unchanged |
| Netlist.Circuit.InsertLine | first/first.c:55-94 | the gate goes at the tail of the declared list; nothing else changes |
| Netlist.Circuit.MakeNot | second/second.c:512-526 | declares the input, then the output, and appends the NOT gate |
| Netlist.Circuit.MakeBinary | second/second.c:537-555 | declares both inputs and the output, and appends the gate with its opcode |
| Netlist.Circuit.MakeDecoder | second/second.c:713-733 | declares n selects and 2^n outputs, and appends the decoder |
| Netlist.Circuit.MakeMultiplexer | second/second.c:745-772 | selects = log_2 of the encoding count; declares the encodings, the selects and the output, and appends the multiplexer |
| Netlist.Circuit.DeclareOne | second/second.c:805-810 | `insert(name, 0)`, the slot takes the head node, and the second program marks that node done |
| Netlist.Circuit.DeclareNext | second/second.c:805-810 | one turn of the `INPUTVAR`/`OUTPUTVAR` loop keeps the loop's invariant |
| Netlist.Circuit.Declare | second/second.c:796-827 | the slots, values, names and done names after a declaration loop |
| Netlist.Circuit.SetSlots | second/second.c:803-818 | the slot arrays hold declared names and the lists are still empty |
| Netlist.Circuit.IsReady | second/second.c:876-889 | ready exactly when every input and, for a multiplexer, every encoding signal is done |
| Netlist.Circuit.MarkOutputsDone | second/second.c:890-894 | a scheduled gate's non-constant outputs become done; no value changes |
| Netlist.Circuit.ScanReady | second/second.c:876-910 | the scan stops at the first ready gate or reports that there is none |
| Netlist.Circuit.MoveGate | second/second.c:890-901 | the gate is unlinked from the declared list and appended to the ordered list, with its outputs done |
| Netlist.Circuit.MoveFirstReady | second/second.c:875-911 | one outer pass moves the first ready gate, or shows the loop would never end |
| Netlist.Circuit.ScheduleGates | second/second.c:867-913 | succeeds exactly when `Schedule` does, and then the gate list becomes the ordered list |
| Netlist.Circuit.ReadValues | second/second.c:977-979 | `getValue` of each name in turn |
| Netlist.Circuit.EvalSimple | second/second.c:932-973 | the NOT and two-input cases of the evaluation switch perform `Step` |
| Netlist.Circuit.WriteOneHot | second/second.c:982-989 | output l gets 1 when l is the decoded index and 0 otherwise |
| Netlist.Circuit.EvalDecoder | second/second.c:974-990 | the decoder case performs `Step` |
| Netlist.Circuit.EvalMultiplexer | second/second.c:991-1004 | the multiplexer case performs `Step` |
| Netlist.Circuit.EvalGate | second/second.c:930-1006 | one case of the switch performs `Step` and changes no name or done flag |
| Netlist.Circuit.RunGates | second/second.c:929-1006 | the pass over the gate list evaluates every gate in list order |
| Netlist.Circuit.SetRowInputs | second/second.c:919-923 | the input loop writes the row's Gray bits into the slots |
| Netlist.Circuit.RunRow | second/second.c:917-1019 | one row sets the inputs, runs every gate, and yields the values at the slots |
| Netlist.Circuit.NextRow | first/first.c:686-790 | one turn of the enumeration loop keeps the loop's invariant |
| Netlist.Circuit.EnumerateRows | second/second.c:916-1020 | 2^m rows computed from the Gray table, with nothing reset between rows |
| Netlist.Circuit.Enumerate | second/second.c:916-1020 | the rows and final values of the enumeration loop, with the early exit when the list is empty |
| Programs.GateNames | second/second.c:745-772 | the names a gate line inserts are exactly those it reads or writes |
| Programs.GateNamesIncluded | first/first.c:649-684 | every name of a gate line is among the names all lines insert |
| Programs.SlotsDeclared | second/second.c:796-827 | every slot points at a declared name, one slot per name |
| Programs.DeclaredNames | first/first.c:623-684 | the table holds exactly the non-constant input, output and gate names |
| Programs.InitialEnvZero | first/first.c:19-35 | every declared name starts at 0 |
| Programs.PortDeclared | first/first.c:623-647 | a declared port is in the table at 0 |
| Programs.GateNameDeclared | first/first.c:649-684 | a name of a gate line is in the table at 0 |
| Programs.Layout | first/first.c:616-684 | a runnable description has m slots, declared slot names and evaluable gates |
| Programs.AllEvaluablePermutation | second/second.c:875-913 | a reordered gate list stays evaluable |
| Programs.SortedRunSome | second/second.c:913-1020 | after a successful sort the enumeration runs on the sorted list |
| Programs.SecondRunSome | second/second.c:913-1020 | the second program enumerates with the list its sort produced |
| Programs.AddGate | second/second.c:832-865 | the opcode selects the `make*` call: the gate is appended and its names declared |
| Programs.AddGates | first/first.c:649-684 | gate lines are added in file order, so the list is the declared gates |
| Programs.DeclarePorts | second/second.c:796-827 | the slots, the values and, in the second program, the done names after the two declaration loops |
| Programs.Load | first/first.c:623-684 | the circuit after reading: the gate list, the slots, all names at 0, the seed done names |
| Programs.RunFirst | first/first.c:616-790 | the first program prints exactly `FirstRun` |
| Programs.RunSecond | second/second.c:774-1020 | the second program never ends exactly when `SecondRun` is None, and otherwise prints its rows |
| Programs.PlainPortsSlots | second/second.c:803-823 | with distinct plain ports, the slots are the declared names and exactly those names are done |
| Programs.FirstRows | first/first.c:686-790 | 2^m rows, none with no gates; with plain ports the input columns follow the Gray code |
| Programs.NoInputWritten | second/second.c:875-913 | sorting keeps every input unwritten |
| Programs.SecondRows | second/second.c:916-1020 | the same row count and Gray-code columns hold for the second program |
| Programs.SecondStuckIff | second/second.c:875-911 | the second program hangs exactly when no order valid from the done inputs and outputs exists |
| Programs.SortedRowsFresh | second/second.c:916-1019 | an order valid from the inputs alone reads no stale value |
| Programs.SecondRowsFresh | second/second.c:916-1019 | the second program reads no stale value when its sorted list is valid from the inputs alone |
| Programs.InputSeededRowsFresh | second/second.c:805-823 | seeding the sort with the inputs alone yields rows free of stale values whenever that sort succeeds |
| Scenarios.LateWireLoaded | first/first.c:623-684 | the late-wire circuit after reading: slots a and z, wire w at 0 |
| Scenarios.FirstReadsStaleValues | first/first.c:686-777 | z = NOT w run before w = NOT a prints z = NOT a: the first program reads last row's w |
| Scenarios.LateWireSorted | second/second.c:875-911 | the sort moves w = NOT a ahead of z = NOT w |
| Scenarios.SecondSortsLateWire | second/second.c:867-1019 | after sorting, the same circuit prints z = a |
| Scenarios.LateOutputSorted | second/second.c:818-823 | with y pre-marked done, z = NOT y counts as ready at once and the declared order stands |
| Scenarios.SecondReadsStaleOutput | second/second.c:818-823 | the second program prints z from the previous row's y, so z = NOT a instead of a |
| Scenarios.LateOutputInputSeeded | second/second.c:805-810 | seeded with the input alone, the sort moves y = NOT a first |
| Scenarios.InputSeededLateOutput | second/second.c:805-810 | seeded with the input alone, the circuit prints y = NOT a and z = a |

## Findings

| source | as written | input that shows it | evidently intended | confidence | as-written member | corrected member |
|---|---|---|---|---|---|---|
| second/second.c:821-822 | each declared output node is marked done before the sort, so a gate that reads a declared output counts as ready before that output is computed | inputs `a`; outputs `y z`; gates `NOT y z` then `NOT a y`: the program prints z = NOT a, reading the previous row's y (0 in row 0) | only the inputs count as done at the start, as for `inputArray`; the comment on the line says the case should never happen | medium, not executed | Scenarios.SecondReadsStaleOutput | Programs.InputSeededRowsFresh |

`Programs.SecondRun` and `Programs.RunSecond` model the code as written. The corrected program is `Programs.InputSeededRun`. For it, `Programs.InputSeededRowsFresh` proves that no row reads a stale value. `Scenarios.InputSeededLateOutput` shows that it prints y = NOT a and z = a on the circuit above.

## Left out

- Reading the circuit file is not modelled, and neither is the unknown-opcode error that ends the first program. The model starts from a `Description`: input names, output names, and gates whose operand lists are already split. Each `make*` takes those names.
- The second program reads the `INPUTVAR` and `OUTPUTVAR` lines in file order. The model always declares the inputs first, as the first program does.
- Row printing (`printf`) and the `argc` check are not modelled. Each row is returned as its input values and output values.
- `malloc`/`free`, the fixed 32- and 64-byte name buffers and `strcpy` overflow are not modelled. The pointer splicing of the linked lists is modelled with sequences.
- `binaryToGray` computes `in ^ (in - 1)`, which is not the Gray code, and nothing calls it.
- C `int` width is not modelled: values are unbounded naturals. `genGrayCode(0)` shifts by -1, so a `Runnable` description has at least one input. Negative arguments to `grayToBinary` cannot occur.
- Netlist.Circuit.MakeMultiplexer: requires an encoding count that is a power of two. Otherwise `log_2` returns -1 or -2 and the C code passes that to `malloc`.
- Programs.Runnable excludes three cases that crash the C code:
  - a gate that writes "0" or "1" (`setValue` walks off the list);
  - a first input that is a constant (no head node for the slot);
  - a gate without the operand counts of its kind.
- Netlist.Circuit.ScheduleGates: the C sorting loop never ends when a scan finds no ready gate. The model returns false at that point, and `Programs.RunSecond` returns None.
- Signal values are restricted to 0 and 1 (`Bits.Bit`), which is all the C code ever stores.
- Netlist.Circuit.WriteOneHot: the decoder's `if`/`else` over `setValue(…, 1)` and `setValue(…, 0)` is one `setValue` with a conditional value.
- Netlist.Circuit.Enumerate: the C code checks for an empty gate list inside the first row, after setting its inputs. The model decides once, before the loop, with the same effect: the inputs of row 0 are set and no row is printed.
- Three behaviours of the C code that the model keeps as they are:
  - the sort starts with the declared outputs done as well as the inputs (see Findings);
  - when no gate is ready, the sorting loop never ends;
  - an empty gate list ends the program with no row printed.
