# Order matching engine and bank-account OCR, modelled in Dafny

This project models two independent pieces of one repository.

**The limit-order matching engine** (`matching/python/engine.py`).
- The engine keeps two books, BUY and SELL. Each book maps an order id to an order.
- An order has an id, a side, a limit price and a list of quantity lots ("needs"). Each lot is stamped with the arrival number of the command that created it.
- The engine also keeps a log of fills and an arrival counter. Every command takes the next arrival number first.
- **New order.** Its single lot sweeps a snapshot of every lot on the opposite side, sorted ascending by (price, arrival).
  - Each lot that has something left, and whose order accepts the incoming price, trades min(resting, incoming) at the resting order's price.
  - Both lots are lowered, and emptied lots are stripped.
  - The incoming order is then filed on its own side, and orders left without lots are dropped.
- **Cancel** takes the id off both sides.
- **Modify** looks the id up, BUY side first, and fails when the id is unknown.
  - To grow an order, it appends a lot with the difference.
  - To shrink one, it walks the lots newest first (`decrement_needs_backward`).
  - It then strips empty lots and drops empty orders.

The engine is an `Engine` class (`engine.dfy`) whose methods update its fields. Each method is proved equal to a specification function over values (`commands.dfy`, `sweep.dfy`, `orders.dfy`). The properties are lemmas about those functions:
- conservation of quantity;
- what a fill does;
- exhaustive price priority, so the book stays uncrossed;
- the invariant on both books;
- the cases of Cancel and Modify.

`scenarios.dfy` replays command sequences from `matching/python/test_engine.py` through `Apply`: the crossing sell, the cancel and the modify-down.

**The bank-account OCR decoder** (`ocr/python/ocr.py`).
- Three text lines hold nine glyphs of 3x3 characters. Each glyph is looked up in a table of the ten digits, and '?' stands for an unknown glyph.
- The account is annotated ILL when it holds a '?'. Otherwise it is annotated ERR when checksum checking is on and the weighted mod-11 checksum is not 0.
- A failing account is repaired by changing one cell of one glyph to '_', '|' or ' '.
  - With exactly one passing repair, that repair is printed.
  - With none, the annotated account is printed.
  - With several, the account is printed with AMB and the sorted list of repairs.

In `ocr.dfy`, the pure parts are functions. `alternate_slugs` and `account_output` are methods with loops, proved against set-valued specifications.

The global `checksum_on` flag is a parameter (`checksumOn`).

## Model

| member | source | states |
|---|---|---|
| Orders.Dir.OtherSide | matching/python/engine.py:16-18 | the other side is never the same side |
| Orders.Dir.WantToFill | matching/python/engine.py:20-24 | definition: a buyer accepts any price at most its limit, a seller any price at least its limit |
| Orders.WantToFillMirror | matching/python/engine.py:20-24 | a buy at p accepts a sell's limit q exactly when that sell accepts p, and every limit accepts its own price |
| Orders.Fill.Buyer | matching/python/engine.py:33-37 | definition: the incoming order when it is a BUY, else the resting order |
| Orders.Fill.Seller | matching/python/engine.py:33-37 | definition: the resting order when the incoming order is a BUY, else the incoming order |
| Orders.The | matching/python/engine.py:7-10 | a value exactly when the list has one element, and that value is in the list |
| Orders.StripZeroNeeds | matching/python/engine.py:118-119 | keeps exactly the lots with positive quantity; the outstanding total is unchanged |
| Orders.StripAscending | matching/python/engine.py:118-119 | stripping keeps the lots in arrival order and brings in no new arrival |
| Orders.AddNeed | matching/python/engine.py:115-116 | the new lot adds its quantity to the total and to its own arrival, and every other arrival keeps its quantity; id, side and price are kept; arrival order is kept when the arrival is newer than every lot |
| Orders.DecrementBackward | matching/python/engine.py:105-113 | definition: from the newest lot back, lower each lot by min(q - t, q) and the running target t by the same amount, stopping once t is at most 0; the number of lots is kept |
| Orders.DecrementNeedsBackward | matching/python/engine.py:105-113 | the loop over lots newest first, with its running target, computes `DecrementBackward` of the lots |
| Orders.DecrementBackwardVisits | matching/python/engine.py:108-113 | the walk visits a run of the newest lots and leaves every older lot unchanged; the newest lot ends at the target, or at 0 when the target is not positive, and a target that is not positive stops the walk after that lot |
| Orders.DecrementBackwardArrivals | matching/python/engine.py:108-111 | the walk changes quantities only, never arrivals |
| Orders.DecrementAtQty | matching/python/engine.py:80 | lowering one lot by d lowers that lot, and only it, by d; the total drops by d |
| Orders.StripKeepsQty | matching/python/engine.py:81 | stripping empty lots changes no lot's quantity |
| Sorting.SortBySorted | matching/python/engine.py:199-200 | `sorted` returns a sorted permutation of its input |
| Sorting.SortedUnique | matching/python/engine.py:199-200 | a sorted permutation is unique once the key ties no two elements |
| CounterSweep.Snapshot | matching/python/engine.py:196-200 | definition: the opposite side's lots, flattened and sorted by (price, arrival); pinned by `SnapshotIsSorted` and `SnapshotUnique` |
| CounterSweep.Crosses | matching/python/engine.py:62-63 | definition: the resting order's side accepts the incoming price at the resting limit |
| CounterSweep.ShouldFill | matching/python/engine.py:65-66 | definition: min of the two live quantities is positive and the resting order crosses |
| CounterSweep.FillAt | matching/python/engine.py:77-82 | definition: trade min(resting, incoming) at the resting price, lower both lots, strip empties, log the fill; pinned by `StepFill` and `StepConserves` |
| CounterSweep.Step | matching/python/engine.py:70-73 | definition: fill against one snapshot lot when its order is still there and `ShouldFill` holds, else change nothing |
| CounterSweep.Sweep | matching/python/engine.py:68-74 | definition: `Step` over every lot of the snapshot once, left to right; pinned by `SweepConserves`, `SweepClearsCrossing` and the other Sweep lemmas |
| CounterSweep.SnapshotIsSorted | matching/python/engine.py:196-200 | the snapshot of a side lists every lot exactly once, strictly ascending by (price, arrival) |
| CounterSweep.SnapshotUnique | matching/python/engine.py:196-200 | any such listing is the snapshot, so dictionary order does not matter |
| CounterSweep.CollectedSnapshot | matching/python/engine.py:196-200 | sorting the lots collected in any order gives the snapshot |
| CounterSweep.StepFill | matching/python/engine.py:59-82 | a fill happens exactly when both lots have something left and the resting order accepts the incoming price; it trades min(resting, incoming) at the resting price, lowers both lots by that amount, strips empties, appends one fill and changes nothing else |
| CounterSweep.SweepShrinks | matching/python/engine.py:68-74 | the sweep keeps every order of the opposite side at its price and only lowers its lots |
| CounterSweep.StepConserves | matching/python/engine.py:71-82 | one pass either changes nothing or appends one positive fill of the incoming order against that lot, at the resting price, taken off the incoming lot |
| CounterSweep.SweepConserves | matching/python/engine.py:68-82 | the incoming quantity equals what is left plus the total of the new fills; new fills are positive and name the incoming order; earlier fills are unchanged |
| CounterSweep.SweepNeedShrinks | matching/python/engine.py:68-74 | the incoming lot never grows during a sweep |
| CounterSweep.SweepClearsCrossing | matching/python/engine.py:68-74 | when the snapshot holds every crossing lot, either the incoming lot is used up or no crossing lot with anything left remains |
| CounterSweep.SweepFillsFromSnapshot | matching/python/engine.py:70-78 | every new fill trades with a lot of the snapshot, at that order's price |
| CounterSweep.SweepFillPricesAscending | matching/python/engine.py:70-72 | the new fills' prices are in ascending order: of any two new fills, the earlier is priced no higher than the later |
| CounterSweep.SweepKeepsPositive | matching/python/engine.py:81 | a side without empty lots keeps none after the sweep |
| CounterSweep.SnapshotCoversCrossing | matching/python/engine.py:196-200 | the snapshot lists every lot that crosses a given price |
| Commands.CompactSide | matching/python/engine.py:189-194 | an order stays exactly when it has a lot, and it stays unchanged |
| Commands.RemoveMatching | matching/python/engine.py:235-237 | the id leaves both sides; every other order stays as it was |
| Commands.Matching | matching/python/engine.py:239-240 | the order is found exactly when the id is on a side, BUY side first |
| Commands.Resize | matching/python/engine.py:155-165 | definition: shrink with `DecrementBackward` below the total, append a lot with the difference above it, then strip empty lots; pinned by `ResizeUp` and `ResizeDownSingle` |
| Commands.NewResult | matching/python/engine.py:130-139 | definition: sweep the opposite side, file the incoming order on its own side, compact both sides |
| Commands.ModifyResult | matching/python/engine.py:155-167 | definition: fail for an id on neither side, else resize the order found (BUY first) and compact |
| Commands.Apply | matching/python/engine.py:208-221 | definition: take the next arrival, then run New, Cancel or Modify; a failing Modify keeps only the moved counter |
| Commands.Outcome | matching/python/engine.py:217-221 | definition: the swept incoming order for a New, nothing for Cancel and Modify, the error for a Modify of an unknown id |
| Commands.NewAgainstEmptySide | matching/python/engine.py:130-139 | with nothing on the opposite side a positive New rests whole under its id and the log is unchanged |
| EngineTests.ThreeSells | matching/python/test_engine.py:57-60 | three sells of 1, 3 and 5 against an empty book rest whole, stamped 1, 2 and 3, with no fill |
| EngineTests.CancelScenario | matching/python/test_engine.py:57-63 | cancelling the second of those sells leaves the lots 1 and 5 and no fill |
| EngineTests.ModifyDownScenario | matching/python/test_engine.py:68-74 | modifying the second sell down to 2 leaves the lots 1, 2 and 5 and no fill |
| EngineTests.CrossingSellScenario | matching/python/test_engine.py:23-38 | after buys of 10 at 99.0 and 10 at 100.0, a sell of 10 at 99.5 trades all 10 with the buy at 100.0 at 100.0 and leaves only the buy at 99.0 |
| Commands.ApplyAppendsOnly | matching/python/engine.py:208-210 | every command moves the arrival counter by one and only appends to the fill log |
| Commands.ApplyKeepsInv | matching/python/engine.py:130-167 | after every command both sides are well formed, with lots in arrival order and no order without lots |
| Commands.NewKeepsInv | matching/python/engine.py:130-139 | a New keeps the invariant |
| Commands.ModifyKeepsInv | matching/python/engine.py:155-167 | a Modify keeps the invariant |
| Commands.InitialInv | matching/python/engine.py:181-187 | the empty engine satisfies the invariant and is uncrossed |
| Commands.NewSweepConserves | matching/python/engine.py:68-82 | after its sweep the incoming order keeps id, side and price; quantity = what it keeps + the new fills, each positive and naming it |
| Commands.NewConserves | matching/python/engine.py:130-139 | quantity = what the placed order keeps + the new fills; each new fill is positive and names the incoming order; the placed order is on its side exactly when it keeps a lot |
| Commands.NewClearsCrossing | matching/python/engine.py:68-74 | an incoming order with quantity left faces no opposite order that accepts its price |
| Commands.NewKeepsUncrossed | matching/python/engine.py:130-139 | a positive New keeps the book uncrossed and without empty lots |
| Commands.ModifyKeepsUncrossed | matching/python/engine.py:155-167 | a Modify keeps the book uncrossed and without empty lots |
| Commands.ApplyKeepsUncrossed | matching/python/engine.py:130-167 | every command with a positive New quantity keeps every buy priced below every sell |
| Commands.CancelRemoves | matching/python/engine.py:145-147 | Cancel takes the id off both sides and nothing else; an unknown id changes only the counter; cancelling twice equals cancelling once |
| Commands.ModifyUnknown | matching/python/engine.py:155-157 | a Modify fails exactly when the id is on neither side, and then only the counter moved |
| Commands.ModifyBook | matching/python/engine.py:155-167 | a Modify rewrites only the order it found, on its own side, then compacts both sides |
| Commands.ResizeUp | matching/python/engine.py:160-162 | growing an order adds one lot of target - total under the command's arrival and leaves the other lots |
| Commands.ResizeDownSingle | matching/python/engine.py:105-113 | shrinking a one-lot order sets the lot to the target, or empties it when the target is at most 0 |
| Commands.ModifyUp | matching/python/engine.py:155-167 | Modify up: the total becomes the target, and the new lot sorts behind every other lot at its price |
| Commands.ModifyDownSingle | matching/python/engine.py:155-167 | Modify down of a one-lot order: the lot becomes the target; a target of 0 takes the order off the book |
| Commands.ModifyDownTwoLots | matching/python/engine.py:105-113 | the walk is handed the target total: lots [5, 5] modified to 8 become [11, 8] |
| Matching.Prioritized | matching/python/engine.py:202-203 | the result is a permutation of the orders, sorted by price |
| Matching.Engine.constructor | matching/python/engine.py:181-187 | empty books, empty log, counter 0, invariant holds |
| Matching.Engine.StripEmptyOrders | matching/python/engine.py:189-194 | the books become their compaction; log and counter unchanged |
| Matching.Engine.StripSide | matching/python/engine.py:191-194 | the side keeps exactly its orders that have lots, each unchanged |
| Matching.Engine.CounterNeeds | matching/python/engine.py:196-200 | returns the snapshot of the opposite side: every lot once, ascending by (price, arrival) |
| Matching.Engine.FillNeed | matching/python/engine.py:77-82 | the fill and the new lots and orders are those of `FillAt` |
| Matching.Engine.TryFillAgainstCounters | matching/python/engine.py:68-74 | returns False; the opposite side, the incoming order and the log are those of `Sweep` over the snapshot |
| Matching.Engine.SweepCounters | matching/python/engine.py:70-73 | after the loop over a snapshot, the opposite side, the incoming order, its lot and the log are those of `Sweep`; the order's own side is untouched |
| Matching.Engine.TryFillOne | matching/python/engine.py:71-73 | one pass of the loop is one `Step`: a fill when `should_fill` holds for the lot as it is now, no change otherwise |
| Matching.Engine.AddToBook | matching/python/engine.py:205-206 | files the order under its id on its own side |
| Matching.Engine.ProcessNew | matching/python/engine.py:130-139 | the new state is `NewResult` and the order returned is the incoming order after its sweep |
| Matching.Engine.RemoveMatching | matching/python/engine.py:235-237 | the books become `Commands.RemoveMatching` of the old books |
| Matching.Engine.Matching | matching/python/engine.py:239-240 | returns `Commands.Matching` of the books |
| Matching.Engine.ProcessModify | matching/python/engine.py:155-167 | the new state and outcome are those of `ModifyResult` |
| Matching.Engine.Submit | matching/python/engine.py:208-221 | bumps the counter, runs the command; the new state and result are `Apply` and `Outcome`; the invariant holds |
| Matching.Engine.DirOrders | matching/python/engine.py:229-230 | lists exactly the orders of a side, with no order twice and as many entries as the side has ids |
| Matching.Engine.SideValues | matching/python/engine.py:229-230 | the loop over a side's keys lists each value once, as many as there are keys |
| Matching.Engine.Buys | matching/python/engine.py:223-224 | exactly the BUY orders, none twice, sorted by price |
| Matching.Engine.Sells | matching/python/engine.py:226-227 | exactly the SELL orders, none twice, sorted by price |
| Ocr.Glyph | ocr/python/ocr.py:5-56 | the table glyph of each digit: three rows of three characters, read back as that digit |
| Ocr.DigitsTable | ocr/python/ocr.py:5-56 | the table maps ten distinct 3x3 glyphs one to one onto the digits '0'..'9' |
| Ocr.Slugs | ocr/python/ocr.py:70-74 | nine glyphs; with lines of 27 characters or more, glyph p holds characters 3p..3p+2 of every line |
| Ocr.SlugsToDigits | ocr/python/ocr.py:99-100 | one character per glyph: the table digit, or '?' exactly when the glyph is unknown |
| Ocr.RenderRoundTrip | ocr/python/ocr.py:70-74 | drawing nine digits with the table and slicing and reading them back gives the digits |
| Ocr.ChecksumTotal | ocr/python/ocr.py:76-77 | definition: the sum of x times the digit x places from the right, x from 1 to 9; pinned by `ChecksumTotalUpdate` |
| Ocr.Checksum | ocr/python/ocr.py:79-80 | the checksum lies in 0..10 |
| Ocr.ChecksumTotalUpdate | ocr/python/ocr.py:76-77 | the digit x places from the right has weight x: changing it by d moves the total by x*d |
| Ocr.ChecksumDetectsOneDigit | ocr/python/ocr.py:76-80 | changing one of the last nine digits always changes the checksum |
| Ocr.Illegible | ocr/python/ocr.py:82-83 | definition: the account holds a '?' |
| Ocr.BadChecksum | ocr/python/ocr.py:85-86 | definition: checking is on and the checksum is not 0 |
| Ocr.AccountString | ocr/python/ocr.py:82-97 | ILL exactly when the account holds '?'; otherwise ERR exactly when checking is on and the checksum is not 0; otherwise the account itself |
| Ocr.AccountStringPasses | ocr/python/ocr.py:82-97 | a nine-character account prints as nine characters exactly when it is legible and passes |
| Ocr.AlternateSlugs | ocr/python/ocr.py:125-138 | the nested loops collect the kept candidates of all 27 (row, column, character) edits |
| Ocr.AlternatesMeaning | ocr/python/ocr.py:125-138 | a glyph is returned exactly when it differs from the input in exactly one of the 9 cells, holds an underscore, a bar or a space there, and reads differently from the input's digit |
| Ocr.RepairsDistinct | ocr/python/ocr.py:107-115 | two different valid repairs never give the same account, so the list of repairs has no duplicates |
| Ocr.AccountOutput | ocr/python/ocr.py:102-123 | the printed line is `AccountOutputSpec`: the annotated account when it reads and passes; otherwise the only repair, the annotated account when there is no repair, or account AMB and the sorted repairs |
| Ocr.RepairsAt | ocr/python/ocr.py:107-115 | after glyph `index`, the list holds every repair at that glyph or before, each once |
| Ocr.TryAlternate | ocr/python/ocr.py:109-115 | appends the rewritten account exactly when it prints as nine characters |
| Ocr.OutputFromList | ocr/python/ocr.py:116-121 | deciding on the length of the list is deciding on the number of repairs |
| Ocr.RepairsMeaning | ocr/python/ocr.py:107-115 | every repair prints as nine characters and differs from the account read in exactly one digit |
| Ocr.SingleRepairOutput | ocr/python/ocr.py:116-117 | with exactly one repair, the printed account passes and is one digit away from the account read |
| Ocr.SortedListMeaning | ocr/python/ocr.py:120-121 | the AMB list names every repair once, in ascending string order |
| Ocr.LexLeOrder | ocr/python/ocr.py:121 | Python's string order is total and transitive, and it never ties two different strings |
| Ocr.ListRepr | ocr/python/ocr.py:121 | definition: Python's `repr` of a list of quote-free strings, each quoted and separated by a comma and a space, inside brackets |
| Ocr.RenderedOutput | ocr/python/ocr.py:102-123 | nine digits that pass (or are not checked), drawn as glyphs, are printed as they are |

## Left out

- Command parsing in `Engine.order` and `Modify.__init__` (engine.py:150-153, 208-215) is not modelled. Commands are a typed datatype, and the arrival increment of `Engine.order` is kept.
- A New command with a negative quantity is not modelled: the quantity is a natural number. The source itself accepts one, since `Engine.order` (engine.py:215) passes the result of `int()` to `Order` unchecked, and `int("-5")` is -5. The model assumes quantities arrive validated as non-negative. Modify targets are any integer.
- Prices are integers (ticks), not floats. The engine only compares and copies prices, so float rounding is not modelled.
- `__repr__`/`__str__` are not modelled. The only part kept is the buyer/seller orientation of `Fill.__repr__` (`Fill.Buyer`, `Fill.Seller`).
- `Order.__eq__` and `Need.__eq__` are not modelled. They use a float tolerance and serve the tests only.
- `Order.fills` is not modelled because nothing writes it. `Engine.all_orders` and `Engine.add`/`add_order_s` are not modelled separately; `Submit` covers the last two.
- Orders and lots are values, not shared objects. The source's Need holds a back pointer to its order, and a fill mutates the lot inside the order in the book. The model replaces the order in its book with the updated value. The incoming order lives outside the books until it is filed.
- Matching.Engine.Buys, Matching.Engine.Sells: these state sortedness by price only. The order among equal prices follows dictionary insertion order in the source and is not specified.
- The engine's snapshot is taken in one fixed but unspecified dictionary order. It is then sorted, and `CounterSweep.SnapshotUnique` shows the result does not depend on that order.
- The `while True` loop of `Order.process` runs its body once, because `try_fill_against_counters` always returns False. `Matching.Engine.ProcessNew` keeps the loop and proves it stops after one pass.
- Modify-down of an order with several lots is modelled as written: `decrement_needs_backward` is handed the target total rather than the amount to remove. `Commands.ModifyDownTwoLots` gives a concrete instance where the total grows. Only the one-lot case has a closed-form lemma.
- Modify of an unknown id raises `AttributeError` in the source. The model returns `Failure(UnknownOrder(id))`, and the arrival counter has already moved.
- Orders.The: returns `None` for a list without exactly one element, where `the` (engine.py:7-10) raises. Only the tests call `the`, and only on one-element lists.
- Commands.Outcome: `Cancel.process` and `Modify.process` (engine.py:147, 167) return the command object itself; the model returns no value for them, since the command carries nothing the engine changed.
- `is_ambiguous` (ocr.py:88-89) is not modelled because nothing calls it.
- `process_accounts_file`, `process_test`, `dbg`, `dict_print`, `slout` and the module-level call (ocr.py:58-68, 141-173) are not modelled. They are file I/O, printing and mutation of the global flag.
- Ocr.AccountOutput: this requires the first three lines to have 27 characters or more. With shorter lines, or fewer than three, the source raises `IndexError` in `alternate_slugs` (every such input reaches it), so that is not modelled.
- Ocr.ChecksumTotal: the checksum is defined for ASCII digits only. `int()` of other Unicode digits is not modelled; decoded accounts only ever hold '0'..'9' and '?'.
- Ocr.ListRepr: this covers `repr` of lists of strings without quotes or backslashes, which is all the AMB line prints. It does not cover Python's general string escaping.
- Iteration over the set that `alternate_slugs` returns has no fixed order. The model picks elements in an arbitrary order, and the output does not depend on it.
