# What the memory ledger and the tools around it guarantee

The benchmarks of a circuit-board router start many memory-hungry programs on one machine. They share a
*memory ledger*: a list of reservations and waiting requests that every program reads and rewrites under one
exclusive lock. The rules that decide who may start (the capacity, a floor of available memory, no passing of the
first waiter, a drain for a waiter that starves) promise safety and fairness, but only over whole runs. This project
models those rules and proves what they promise, and does the same for the algorithms beside them: the grouping of
graphics, the matching of findings, the scanners of board files, a calendar date, the estimates the requests are made
from, and the documents that are merged night by night.

The ledger is modelled twice. `MemoryLedger.Ledger` is the object whose methods change the list in place, each
method one update under the lock. `Runs.Next` is the same update as a function of the list and of what the update
reads from the machine (the processes, the clock, the capacity, MemAvailable), so that lemmas can speak of runs. The
contracts of the methods that are steps of a run (a try, a withdrawal, a move, a release) equate the new state with
`Next`; `DropDead`, the first half of every update, and the unconditional `Reserve` state theirs outright.

| file | what it holds |
|---|---|
| `Reservations.dfy`, `Admission.dfy` | the entries, the sums over groups of them, the rules of one request |
| `Order.dfy`, `Runs.dfy`, `Ledger.dfy` | one request's order and drain; updates, runs and safety; the ledger's object |
| `Passing.dfy`, `Overtaking.dfy` | no passing, progress and bounded overtaking, over whole runs |
| `Draining.dfy`, `Starving.dfy` | the drain and its exceptions; what a starved first waiter is sure of |
| `Attribution.dfy` | a process tree charged to the ledger's holders |
| `UnionFind.dfy`, `Clusters.dfy` | union-find with path halving; graphics grouped by it over a grid |
| `Scanning.dfy`, `Expressions.dfy` | the two scanners of nested expressions, and the parser |
| `Findings.dfy`, `Judging.dfy` | whether two findings are at one place; which are new |
| `CivilDate.dfy` | seconds since the epoch to a date of the calendar |
| `Ranks.dfy`, `SignTest.dfy`, `Quantiles.dfy` | tie-averaged ranks, the sign test's threshold, nearest rank and the size model |
| `Newest.dfy`, `Estimates.dfy`, `Truncation.dfy` | the newest few of a set; the sidecar of estimates; sidecars cut to their newest rows |
| `NightTable.dfy`, `Markers.dfy`, `Sections.dfy` | the documents merged night by night, the headings and markers in them |
| `Options.dfy`, `Texts.dfy`, `Sequences.dfy`, `Arithmetic.dfy` | values that may be missing; texts, sequences and sums |

## Where the code does not do what it is for

Each of these is a lemma about the code as it is, with the condition under which the promise holds.

- A reservation handed to the process that holds it already, as that process's first entry, is removed: `move` takes
  it for the binary's own. The process then holds what was granted if and only if another of its entries does; in every
  other case it does (`Runs.MoveKeepsGrant`).
- The ledger never drains for a waiter larger than the capacity (`Draining.TooLargeIsNotDrained`), though by the rule of
  admission it would start once nothing is held: it drains for a live waiter past its `drain_after` if and only if that
  would be admitted with every newer and short reservation gone, and not for being alone only
  (`Draining.DrainsWhileItCouldStart`).
- A strict drain can lose the room a waiter has gained. A request sees its own process's reservations as still to grow
  by all their megabytes, and so less room than there is; a small one then goes as if a large run held the waiter back
  (`Starving.OwnReservationTakesRoom` is such a step). That exception can fire if and only if a large lasting run holds
  memory and the process uses more in its own reservations than the room has to spare with the small runs gone
  (`Draining.ExceptionFiresExactly`): once the room is covered, never for a process that holds nothing. Where it does
  not, the room is kept (`Draining.StrictDrainKeepsRoom`, `Starving.StarvedKeepsRoom`).
- Requests that arrive later can come before a waiting one: those whose wait began later exactly when they are the
  nightly's and it is not (`Overtaking.OnlyNightlyComesBefore`), those whose wait began at the same time with a lower
  pid, and those whose earlier wait had lost its entry. The number of waiters ahead grows by such arrivals and when a
  move gives a waiting entry another pid, and by nothing else (`Overtaking.OvertakingIsBounded`); without them it never
  grows (`Overtaking.QuietRunNeverGrows`).
- What the holders' trees exceed their reservations by depends on the order of the entries: the whole tree is set
  against a process's first one. It is the same in every order if and only if it is the same for each of a holder's
  entries (`Attribution.OverOfOrderExactly`).
- A box that is inside out by more than the gap can have no cell of the grid, and then no close pair with it is found:
  the index brings two close boxes together if and only if both have a cell (`Clusters.CloseBoxesShareCell`). A
  negative stroke width makes such a box. A graphic without any cell is in a group by itself, whatever lies close
  (`Clusters.NoCellIsAlone`; `Clusters.ClosePairIsLost` is a pair), and the groups are those of the gap alone if and
  only if every two close graphics are connected through boxes with cells, as they are where every box has one, which a
  caller can see from the boxes (`HasCell`, `AllHaveCells`).
- With a string that stays open the two scanners can differ: they find the same end if and only if the tokens find none
  or meet no such string before it (`Scanning.ScannersAgreeExactly`, for texts without a backslash before a line break).
- The greedy match of positions can miss a pairing within the tolerance (`Findings.MatchMissesPairing`). It finds one
  if and only if there is one where no item of ours is near two of theirs (`Findings.MatchIsExact`).
- A finding that does not say where it is (one without items, a single zone at the origin or without a position,
  another single item without a position that lacks a uuid or a text, several items of which one has no uuid and one
  no position) is not at its own place (`Findings.AtItsOwnPlace`, exact). Judged against itself it is new, unless it is of one footprint or a
  mask bridge of a track or a zone with an opening that has a uuid or a position (`Judging.JudgedAlone`, exact; `Judging.JudgedAmongThemselves` for many).
- A source measured again under its old name can make a truncated sidecar lose a row. `Truncation.MeasuredAgainExactly`
  says when for one log, case by case: the source's kept row is taken out and not replaced, or falls behind a row
  that was left out, or its own row, left out at a spot of another kind, moves before a kept one.

## Model

| member | source | states |
|---|---|---|
| `Reservations.OldestWaiterBesideHolder` | benchmarks/harness_common.py:577-582 | an entry that waits for nothing does not change who the first waiter is |
| `Order.DrainedForIsEarliest` | benchmarks/harness_common.py:618-640 | the waiter a request is held to a drain for is the earliest, by rank, wait, pid and position, of those ahead of it that the ledger drains for, and there is none exactly when it drains for none of them |
| `Order.OrderKeepsRoom` | benchmarks/harness_common.py:585-615 | in either branch a request let go behind the first waiter leaves, beside the lasting reservations begun since that wait, the capacity room for what the first waiter wants |
| `Order.OrderExactly` | benchmarks/harness_common.py:585-615 | behind a first waiter that would be admitted beside the lasting reservations, and is not waiting on its floor, a request passes the order if and only if the ledger has room for both beside these; else if and only if it has beside those begun since that wait |
| `Order.TooLargeHoldsAllBack` | benchmarks/harness_common.py:585-615 | no request is let go behind a first waiter that wants more than the capacity |
| `Order.NobodyAheadNoDrain` | benchmarks/harness_common.py:585-640 | a request that no waiter comes before passes the order whatever its size, and is held to no drain |
| `Order.ShortPassesExactly` | benchmarks/harness_common.py:825-866 | a request that the order or a drain holds back goes, and its entry counts as short, if and only if it says so and wants at most 4300.8 MB |
| `Order.FloorHoldsAlone` | benchmarks/harness_common.py:504-533 | where something is held a request has room if and only if both clauses hold; where nothing is, always, or by the floor where being alone is not enough |
| `Order.SeesAllButItsOwn` | benchmarks/harness_common.py:781-825 | a request sees every living entry but, among the waiting ones, the one that has the key of the one it left |
| `Order.RefusalHasOlderWaiter` | benchmarks/harness_common.py:840-844 | a request that fits and is refused has an older waiter for the refusal's text to name |
| `Runs.CapacitySafety` | benchmarks/harness_common.py:422-492 | over every run of tries, withdrawals, moves, releases and deaths with one capacity, the reserved megabytes stay within the capacity or at most one reservation holds any |
| `Runs.NextSafe` | benchmarks/harness_common.py:422-533 | each single update keeps that |
| `Runs.MoveHoldsAtMost` | benchmarks/harness_common.py:456-484 | a move, merging or not, adds neither megabytes nor holders |
| `Runs.MoveKeepsGrant` | benchmarks/harness_common.py:456-484 | after a move the process holds at least what was granted if and only if the reservation was not its first entry already, or another of its entries holds as much; a first entry is lost |
| `Runs.MovedLivesWithProcess` | benchmarks/harness_common.py:456-484 | a reservation handed to a process without one keeps what it holds, goes under the new pid, and is kept by any later update exactly while that process runs and is the same |
| `Runs.MergedKeepsLarger` | benchmarks/harness_common.py:456-484 | one merged into an entry leaves it with the larger of the two and of the grants, so that the sum falls by the smaller; the entry is found and lives as before, and no other changes |
| `Runs.EntryLivesWith` | benchmarks/harness_common.py:372-440 | an entry with the start of its process is kept by any later update exactly while that process runs, is no zombie and has that start |
| `Reservations.KeptOfConcat` | benchmarks/harness_common.py:422-440 | an update keeps or drops each entry by itself, in the order of the list |
| `Reservations.KeptOfOne` | benchmarks/harness_common.py:422-440 | and an entry alone exactly as it passes the test |
| `Runs.NextAddsNothing` | benchmarks/harness_common.py:781-873 | an update that admits no lasting request and merges nothing adds nothing to any group of lasting reservations |
| `Passing.NoPassing` | benchmarks/harness_common.py:585-615 | over every run in which a waiter stays first, the lasting reservations begun since the last step that went ahead of it (the nightly's, an earlier waiter's, a merge) are none or leave the capacity room for it |
| `Passing.FirstWaiterIsOrdered` | benchmarks/harness_common.py:781-830 | the first waiter's own next try is admitted exactly when it fits: neither order nor drain holds it back |
| `Passing.NoHolderAdmitsFirst` | benchmarks/harness_common.py:504-533 | beside no holder the first waiter's next try is admitted, whatever its size, floor or drain |
| `Passing.FirstWaiterGetsIn` | benchmarks/harness_common.py:585-615 | once the holders from before such a run, the short ones and those that went ahead have ended, the first waiter passes the ledger's clause or nothing holds, and with its floor it is admitted |
| `Passing.TooLargeWaiterDrains` | benchmarks/harness_common.py:585-615 | while a first waiter larger than the capacity waits and nothing goes ahead of it, the lasting megabytes never grow |
| `Overtaking.NextAhead` | benchmarks/harness_common.py:548-551 | in one update the waiters ahead of a place grow only by an arrival there, and an admission ahead uses one of them up |
| `Overtaking.OvertakingIsBounded` | benchmarks/harness_common.py:548-551 | over every run, the admissions ahead of a place and the waiters still ahead at the end are at most those ahead at the start and the arrivals |
| `Overtaking.OnlyNightlyComesBefore` | benchmarks/harness_common.py:544-551 | a request whose wait began later comes before a waiter if and only if it is the nightly's and the waiter is not; one whose wait began earlier, but where the waiter alone is; of one time and urgency the lower pid |
| `Overtaking.QuietRunNeverGrows` | benchmarks/harness_common.py:548-551 | over a run whose requests began later and are no more urgent, or try again from their entries, nobody arrives ahead, the waiters ahead never grow in number, and those admitted ahead have gone from there |
| `Overtaking.LeavingLowersAhead` | benchmarks/harness_common.py:781-873 | the waiters ahead fall in number when one of them withdraws or is admitted |
| `Draining.DrainsWhileItCouldStart` | benchmarks/harness_common.py:646-678 | the ledger drains for a live waiter that has waited its `drain_after` if and only if it would be admitted, with the floor it is taken to need, once every short reservation and every one begun since its wait had ended, and not for being alone only; strictly if and only if it has waited past its bound too |
| `Draining.DrainStateNames` | benchmarks/harness_common.py:646-678 | when a waiter is not due or not live, how old the entry is, and for one that cannot start the lesser of its two rooms, which is short of what it wants |
| `Draining.TooLargeIsNotDrained` | benchmarks/harness_common.py:646-678 | a waiter larger than the capacity is never drained for, though with nothing held it would be admitted |
| `Draining.SeenIsLevel` | benchmarks/harness_common.py:495-501 | what a request sees is the memory available less the growth still expected, less what its own process's reservations use already; the level itself when the process holds nothing |
| `Draining.StrictDrainLeavesRoom` | benchmarks/harness_common.py:697-760 | under a strict drain, once the waiter's room as the request sees it covers what it wants, whatever goes leaves it covered, and the exception for small requests cannot fire |
| `Draining.ExceptionFiresExactly` | benchmarks/harness_common.py:697-760 | where the capacity covers what the waiter wants, the exception for small requests can fire if and only if a large lasting run holds memory and the request's own process uses more than the room has to spare with the small runs gone |
| `Draining.StrictDrainKeepsRoom` | benchmarks/harness_common.py:697-760 | over every run whose lasting requests are held to a strict drain and do not go by the exception, the waiter's gained room is never lost, in the capacity and in the available memory |
| `Starving.SeesRoomExactly` | benchmarks/harness_common.py:495-501 | a request sees the waiter's room covered if and only if its own process's reservations use no more than the room has to spare |
| `Starving.StarvedStepIsStrict` | benchmarks/harness_common.py:618-760 | while its room is covered, every lasting request behind a first waiter that is live and past its bound is held to its strict drain and goes by its room, when its process holds nothing itself or sees the room |
| `Starving.StarvedKeepsRoom` | benchmarks/harness_common.py:618-760 | over every run in which such a waiter stays first, once its room covers what it wants, it goes on covering it |
| `Starving.StarvedGetsIn` | benchmarks/harness_common.py:781-830 | then, with the short requests ended, the waiter's next try passes the ledger's clause and is admitted with its floor; and its floor holds when it is no larger than the entry's and its process holds nothing |
| `Starving.OwnReservationTakesRoom` | benchmarks/harness_common.py:697-760 | a step by which a process with a large reservation of its own takes the covered room |
| `Starving.SomeStarveBesideLarge` | benchmarks/harness_common.py:826-865 | the entries of the ledger before that step |
| `Draining.BlockedHasNoRoom` | benchmarks/harness_common.py:745-760 | a waiter blocked by large runs has no room in any later state that still has those runs, whatever became of the small ones |
| `Draining.BlockedExactly` | benchmarks/harness_common.py:745-760 | with the large runs alone left, and the small ones' megabytes back in full, the waiter has room if and only if it was not blocked |
| `Draining.DrainAllowsExactly` | benchmarks/harness_common.py:697-726 | a drain lets a request go if and only if room is left for the waiter, or it is small and a large run holds the waiter back, or, but for the nightly's, it ends no later than any lasting run that holds, each of which declares an end |
| `Draining.PassesOnEndOnly` | benchmarks/harness_common.py:697-866 | a request held to a drain without room left, and not let go as small, is admitted if and only if it fits and either is short or passes the order, the drain is neither strict nor the nightly's, and it ends no later than the lasting runs |
| `Draining.PassersNeverOutlast` | benchmarks/harness_common.py:697-866 | over every run whose lasting admissions are held to a drain without room left and do not go as small, one that was admitted declares to end no later than any older one that still holds |
| `Draining.PassersAreGone` | benchmarks/harness_common.py:697-726 | so if runs end when they declared, none of those that passed holds anything when the first of the older ones ends |
| `MemoryLedger.TryLeavesEntry` | benchmarks/harness_common.py:826-866 | a try leaves every entry that the request sees and ends with its reservation behind them, or with a waiting entry from which every rule reads what the request asked for (place, megabytes, floor, drain, whether its floor alone holds it back); either lives as long as the process |
| `MemoryLedger.Decide` | benchmarks/harness_common.py:803-845 | the decision of one try, and the older waiter that a refusal names |
| `MemoryLedger.Ledger.constructor` | benchmarks/harness_common.py:413-416 | a new ledger is empty, and safe for any capacity |
| `MemoryLedger.Ledger.DropDead` | benchmarks/harness_common.py:422-440 | every update first drops exactly the reservations of processes that are gone |
| `MemoryLedger.Ledger.Reserve` | benchmarks/harness_common.py:445-454 | a reservation without asking adds its megabytes at the end, lives as long as its process, and keeps the living ones |
| `MemoryLedger.Ledger.TryAdmit` | benchmarks/harness_common.py:781-866 | the ledger after a try is the step of the run; a safe ledger stays safe; the key is that of an entry with the megabytes asked for |
| `MemoryLedger.Ledger.WithdrawEntry` | benchmarks/harness_common.py:869-873 | no waiting entry of the request is left |
| `MemoryLedger.Ledger.MoveTo` | benchmarks/harness_common.py:456-484 | the ledger after a move is the step of the run; there is a new key exactly when the reservation was there and the process had none |
| `MemoryLedger.Ledger.ReleaseKey` | benchmarks/harness_common.py:487-492 | no entry with the key is left; without a key nothing changes |
| `Attribution.BelongsToOne` | benchmarks/harness_common.py:1096-1111 | a process belongs to one holder at most: the first on its chain of parents |
| `Attribution.EntryHolds` | benchmarks/harness_common.py:1096-1098 | an entry makes its process a holder exactly when it holds memory and the process is in the table |
| `Attribution.ResidentAddsUp` | benchmarks/harness_common.py:1104-1111 | a process of the table adds its resident memory to a tree, any other nothing |
| `Attribution.Walk` | benchmarks/harness_common.py:1105-1111 | the walk down from a holder ends and counts exactly the processes that belong to it, each once |
| `Attribution.Sample` | benchmarks/harness_common.py:1079-1113 | for any process table the trees add up to the resident memory of exactly the processes at or below some holder |
| `Attribution.OrderOfReservations` | benchmarks/harness_common.py:1098-1112 | the holders, and with them the trees' sum, do not depend on the order of the reservations |
| `Attribution.OverOfOrderExactly` | benchmarks/harness_common.py:1101-1113 | what the trees exceed their reservations by is the same in every order of the entries if and only if it is the same for each of a holder's entries |
| `Attribution.OverOfOrder` | benchmarks/harness_common.py:1101-1113 | so the order does not matter when no holder has two entries |
| `Attribution.TwoEntriesOfOne` | benchmarks/harness_common.py:1101-1113 | of a holder's two entries the tree is set against the first alone, so their order matters exactly when they differ and the tree is larger than one of them |
| `UnionFind.HalvingKeepsRoot` | benchmarks/agent-tasks/run.py:420-424 | halving a path changes no node's root |
| `UnionFind.Find` | benchmarks/agent-tasks/run.py:420-424 | `find` ends, returns the root, and changes no node's root while it halves the path |
| `Clusters.CloseBoxesShareCell` | benchmarks/agent-tasks/run.py:425-435 | two boxes within the gap share a cell of the grid if and only if each has a cell |
| `Clusters.LosesNothingExactly` | benchmarks/agent-tasks/run.py:425-444 | graphics are joined through boxes with cells exactly as by the gap alone if and only if every two close graphics are so joined, as they are where every box has a cell |
| `Clusters.NoCellIsAlone` | benchmarks/agent-tasks/run.py:425-439 | a graphic none of whose boxes has a cell is in a group by itself |
| `Clusters.InsideOutBoxes` | benchmarks/agent-tasks/run.py:425-435 | a box without a cell is inside out by more than the gap, but not each box that is has none |
| `Clusters.ClosePairIsLost` | benchmarks/agent-tasks/run.py:415-439 | two close graphics, one inside out, that are in two groups |
| `Clusters.RootsAreComponents` | benchmarks/agent-tasks/run.py:415-435 | when all boxes are read, two graphics have one root exactly when a chain of boxes joins them |
| `Clusters.Join` | benchmarks/agent-tasks/run.py:415-435 | reading all boxes leaves exactly those roots |
| `Clusters.Cluster` | benchmarks/agent-tasks/run.py:415-439 | the groups partition the graphics, in the order of their first ones; two graphics share a group if and only if a chain of boxes with cells joins them, each within the gap of the next on one layer; by the gap alone, if and only if every two close graphics are so joined |
| `Scanning.BlockEnd` | benchmarks/agent-tasks/run.py:129-146 | the character scanner finds the end where the tokens close the expression, when no string stays open before it, and else fails |
| `Scanning.TopLevel` | benchmarks/agent-tasks/run.py:213-226 | one span for every parenthesis that opens directly inside the root and closes, in their order |
| `Scanning.StringEndExactly` | benchmarks/agent-tasks/run.py:195 | a string ends at the first quote that no backslash takes; a backslash takes any character but a line break |
| `Scanning.SpansAreDisjoint` | benchmarks/agent-tasks/run.py:213-226 | on any text the spans increase and do not overlap |
| `Scanning.ScannersAgree` | benchmarks/agent-tasks/run.py:129-226 | where every string closes, scanning by characters from a span's start ends at the span's end, and fails exactly where the tokens never close it |
| `Scanning.ScanFindsClosed` | benchmarks/agent-tasks/run.py:129-226 | from any place the character scanner finds the tokens' end when every string they meet before it closes, and else none |
| `Scanning.ScannersAgreeExactly` | benchmarks/agent-tasks/run.py:129-226 | from each child's start the two agree if and only if the tokens find no end or meet no string before it that stays open |
| `Scanning.OpenQuoteDisagrees` | benchmarks/agent-tasks/run.py:129-226 | a text in which they differ |
| `Expressions.Sexp` | benchmarks/agent-tasks/run.py:199-210 | what the parser returns flattens to a prefix of the text's tokens |
| `Expressions.ParsedIsPrefix` | benchmarks/agent-tasks/run.py:199-210 | and to all of them when it read the text to its end |
| `Expressions.FlattenParsesBack` | benchmarks/agent-tasks/run.py:199-210 | the tokens of any tree parse back to the tree |
| `Expressions.TokenExactly` | benchmarks/agent-tasks/run.py:195 | an atom can be printed if and only if it is a closed string or has no blank, parenthesis or quote |
| `Expressions.PrintedParsesBack` | benchmarks/agent-tasks/run.py:195-210 | so does the printed text of any tree |
| `Findings.SameDistanceMeans` | benchmarks/agent-tasks/run.py:761-768 | the comparison of distances the model makes on squares is that of the distances |
| `Findings.MovedTogetherExactly` | benchmarks/agent-tasks/run.py:757-770 | items with distinct uuids have moved together if and only if the others have the same uuids and the distance of any two that know their places is the same within the tolerance |
| `Findings.SeveralAtOnePlace` | benchmarks/agent-tasks/run.py:757-783 | several items with distinct uuids are at the place of others if and only if these are as many and moved together or are matched by position |
| `Findings.SingleAtOnePlace` | benchmarks/agent-tasks/run.py:747-756 | a single item is at the place of another if and only if both are somewhere, not a zone's origin, within the tolerance, or are one item, not a zone, with the same text |
| `Findings.SamePlaceByItems` | benchmarks/agent-tasks/run.py:738-746 | two findings are at one place if and only if they are of one type and their items are, without the pieces of the outline where both have others at the board edge |
| `Findings.NoOutlineOfConcat` | benchmarks/agent-tasks/run.py:718-746 | each item is kept or left out by itself, in the finding's order |
| `Findings.NoOutlineOfOne` | benchmarks/agent-tasks/run.py:718-721 | an item is left out exactly as a piece of the outline |
| `Findings.NearGivesMatching` | benchmarks/agent-tasks/run.py:771-783 | a positional match pairs every item with one of theirs within the tolerance, no two with the same |
| `Findings.MatchIsExact` | benchmarks/agent-tasks/run.py:771-783 | where no item of ours is near two of theirs, it is found if and only if there is such a pairing |
| `Findings.MatchMissesPairing` | benchmarks/agent-tasks/run.py:771-783 | two items near two others, in a pairing that the loop misses |
| `Findings.MatchPositions` | benchmarks/agent-tasks/run.py:771-783 | the marking loop decides exactly that match |
| `Findings.AtItsOwnPlace` | benchmarks/agent-tasks/run.py:724-783 | a finding is at its own place if and only if its deciding items say where they are |
| `Findings.MovedStaysInPlace` | benchmarks/agent-tasks/run.py:738-770 | a finding of whose deciding items there are several, all with a uuid, stays at its place when its items move together |
| `Findings.MovedAloneStays` | benchmarks/agent-tasks/run.py:738-755 | where one item decides, it stays if and only if the item names itself, or both places say where it is and lie within the tolerance |
| `Findings.PlacelessIsNowhere` | benchmarks/agent-tasks/run.py:724-783 | a finding that does not say where it is is at the place of no finding, but of one between pieces of the outline only |
| `Judging.NothingIsLost` | benchmarks/agent-tasks/run.py:790-832 | of each type the new, the preexisting and the mask openings add up to all findings |
| `Judging.AnswersOnce` | benchmarks/agent-tasks/run.py:812-822 | a reference finding answers for at most one of ours, of its own type and at its place: within the tolerance or one item by uuid and text, or with all distances kept, or paired by position |
| `Judging.FootprintOwnExactly` | benchmarks/agent-tasks/run.py:695-709 | a finding is of one footprint if and only if it has several items and one footprint owns each |
| `Judging.PrebridgedExactly` | benchmarks/agent-tasks/run.py:655-688 | a finding is excused as a bridge if and only if it is a mask bridge of two items, a track or a zone and a mask opening, and a mask bridge of the reference or the designer has that opening, by uuid or within the tolerance |
| `Judging.BridgesAmongOwn` | benchmarks/agent-tasks/run.py:655-688 | judged among findings it is one of, a mask bridge of a track or a zone with an opening that has a uuid or a position is excused, whatever the designer's, and no other finding is |
| `Judging.JudgedAgainstThemselves` | benchmarks/agent-tasks/run.py:790-832 | findings that say where they are, judged against themselves, give no new one |
| `Judging.JudgedAlone` | benchmarks/agent-tasks/run.py:790-832 | a finding alone is new against itself, whatever the designer's, if and only if it is of no single footprint, does not say where it is, and is no mask bridge of a track or a zone with an opening that has a uuid or a position |
| `Judging.JudgedAmongThemselves` | benchmarks/agent-tasks/run.py:790-832 | of findings judged against themselves each is preexisting if and only if it is of one footprint or says where it is, and new if and only if neither and it is no such bridge of a type below the report's cap |
| `Judging.OutlineAnswers` | benchmarks/agent-tasks/run.py:724-783 | a clearance between pieces of the outline only at whose place another is that does not say where it is |
| `Judging.JudgeOne` | benchmarks/agent-tasks/run.py:814-831 | one finding's verdict, marking in place the reference finding that answers for it |
| `Judging.StrictFindings` | benchmarks/agent-tasks/run.py:790-832 | the returned split has the verdicts' counts, and the counts of a type together are the number of its findings |
| `CivilDate.DateIsRight` | build.rs:25-41 | for every number of seconds in 64 bits, without overflow, the date is one of the Gregorian calendar, and counting days to it gives the seconds' whole days |
| `CivilDate.DaysFollowTheCalendar` | build.rs:25-41 | a day later gives the calendar's next date |
| `CivilDate.OneDateForOneDay` | build.rs:25-41 | two times have one date exactly when they are of one day |
| `CivilDate.BuildDateNamesTheDay` | build.rs:25-41 | the formatted text reads back as the date, and two times have one text exactly when they are of one day |
| `Ranks.Ranks` | benchmarks/agent-tasks/placer_ab.py:298-309 | the loops give each value the number of smaller ones and the middle of its equals, and the ranks sum to n(n-1)/2 |
| `Ranks.RanksCompareAsValues` | benchmarks/agent-tasks/placer_ab.py:298-309 | ranks compare as the values do, for every pair |
| `SignTest.CombIsQuotient` | benchmarks/agent-tasks/placer_ab.py:364-366 | the coefficients by Pascal's rule are the quotients of factorials |
| `SignTest.TailsComplement` | benchmarks/agent-tasks/placer_ab.py:364-366 | the tail from k and the tail from n-k+1 add up to 1 |
| `SignTest.TailFalls` | benchmarks/agent-tasks/placer_ab.py:364-366 | the tail strictly falls, between 0 and 1 |
| `SignTest.SignThreshold` | benchmarks/agent-tasks/placer_ab.py:509-510 | the threshold is the least number of better boards whose tail is at most alpha, and reaching it is exactly being that unlikely |
| `Quantiles.NearestRankIsLeast` | benchmarks/harness_common.py:982-989 | the nearest rank is the least number with at least the given share of the values at or below it |
| `Quantiles.NearestRankIsMember` | benchmarks/harness_common.py:982-989 | and it is one of the values |
| `Quantiles.NearestRankOutside` | benchmarks/harness_common.py:982-989 | without values there is none, a quantile above 1 is out of range, and one not above 0 gives the least value |
| `Quantiles.FitCoversQuantile` | benchmarks/agent-tasks/tier_estimates.py:235-249 | at least the given share of the points lie at or below the fitted line, and no lower line of its slope has as many |
| `Quantiles.SlopeIsLeastSquares` | benchmarks/agent-tasks/tier_estimates.py:235-249 | no line that does not fall has a smaller squared error than the one of the fitted slope through the means |
| `Newest.LeftOutIsOld` | benchmarks/agent-tasks/tier_estimates.py:315-319 | a source left out of the newest few has as many newer ones among them |
| `Newest.WindowDescends` | benchmarks/agent-tasks/tier_estimates.py:315-319 | the newest few are as many as there may be, each newer than the next and than any left out |
| `Newest.BeforeExactly` | benchmarks/agent-tasks/tier_estimates.py:315-319 | strings are ordered by the first character in which they differ, a beginning before the whole |
| `Newest.OldNamesDoNotMatter` | benchmarks/agent-tasks/tier_estimates.py:315-319 | leaving out names that enough newer ones stand before does not change the newest few |
| `Newest.ComesBackExactly` | benchmarks/agent-tasks/tier_estimates.py:315-319 | when one name is re-dated, taken out or put in, the newest few are among the old newest few, moved alike, if and only if it has not fallen behind a name left out or risen before one kept |
| `Estimates.Refresh` | benchmarks/agent-tasks/tier_estimates.py:256-338 | for any window, the loops leave per board and kind the rows of the newest sources, with their dates, and fail exactly where a row's source has none |
| `Estimates.KeptAreLatest` | benchmarks/agent-tasks/tier_estimates.py:315-319 | the kept rows are of the sources with the latest dates, the latest first, by name among those of one date |
| `Estimates.BaseDatesAreLatest` | benchmarks/agent-tasks/tier_estimates.py:270-283 | a source's date among the sidecars is the latest that any of them has for it |
| `Estimates.RefreshedAgain` | benchmarks/agent-tasks/tier_estimates.py:256-338 | refreshing what was written changes nothing |
| `Truncation.TruncationLosesNothing` | benchmarks/agent-tasks/tier_estimates.py:256-338 | refreshing from truncated sidecars that agree, with logs of new sources, writes what refreshing from the whole ones does |
| `Truncation.SameUnlessBroughtBack` | benchmarks/agent-tasks/tier_estimates.py:256-338 | where the bases hold what the truncated sidecars do, with the same dates (as when they agree, or there is one), refreshing from the truncated ones and any logs writes what refreshing from the whole ones does if and only if no row that truncation left out is among the newest with the logs |
| `Truncation.MeasuredAgainExactly` | benchmarks/agent-tasks/tier_estimates.py:290-319 | for one sidecar and one log of any source, the two are the same if and only if at no spot the source's kept row is taken out without a new one while a row was left out, or falls behind a row left out, or its row, left out at a spot of another kind, moves before a kept one |
| `Truncation.MeasuredAgainLosesRow` | benchmarks/agent-tasks/tier_estimates.py:290-298 | in the first of these cases the truncated sidecar gives fewer rows |
| `Truncation.RefreshSucceeds` | benchmarks/agent-tasks/tier_estimates.py:256-338 | sidecars that date each of their rows, as written ones do, can be refreshed with any logs |
| `Truncation.WrittenIsWellWritten` | benchmarks/agent-tasks/tier_estimates.py:332-338 | a sidecar that was written dates each of its rows |
| `NightTable.MergeTable` | scripts/nightly-report.py:451-467 | the loop's table is the newest rows, newest first, between the unchanged head and tail; without markers or a night it fails |
| `NightTable.NewestFirstDescends` | scripts/nightly-report.py:451-467 | the rows of the table are of the newest nights, as many as are kept, the newest first |
| `NightTable.TableHasHeader` | scripts/nightly-report.py:464-467 | the table has its header and the separator before the rows |
| `NightTable.NightOfExactly` | scripts/nightly-report.py:458-460 | a line is of a night if and only if it has the night between a bar at its start and the next, but for blanks |
| `NightTable.NightNamesDay` | scripts/nightly-report.py:79 | a night's name is one that starts with year, month and day in digits |
| `NightTable.TableReadsBack` | scripts/nightly-report.py:459-467 | the written table reads back as the rows it kept, header and separator as none |
| `NightTable.MergesLeaveNewest` | scripts/nightly-report.py:451-467 | merging rows one by one leaves the newest of all of them and of what the document held |
| `NightTable.OrderDoesNotMatter` | scripts/nightly-report.py:451-467 | rows of different nights give the same document in any order |
| `NightTable.MergedAgain` | scripts/nightly-report.py:451-467 | merging a row once more changes nothing |
| `Sections.SweepSections` | scripts/nightly-report.py:872-881 | the loop lists the sweeps' sections, each with the night of the first marker before the next heading |
| `Markers.NumberOfHeading` | scripts/nightly-report.py:504 | a line heads a sweep if and only if it is the title with a numeral and something in parentheses; that numeral is its number |
| `Markers.MarkerExactly` | scripts/nightly-report.py:505 | a marker is one with three words; its first is the night |
| `Markers.FirstInLine` | scripts/nightly-report.py:872-881 | a line's marker is the first that stands in it |
| `Markers.FirstInLines` | scripts/nightly-report.py:872-881 | a section's marker is that of its first line with one |
| `Sections.OwnSweepIsFirst` | scripts/nightly-report.py:872-900 | the search finds the first section of the night, and none only when there is none |
| `Sections.MergeSection` | scripts/nightly-report.py:1372-1388 | the section goes in place of the night's own, else behind the newest sweep, else at the end |
| `Sections.GoesWhereItBelongs` | scripts/nightly-report.py:1372-1388 | on the sections alone: the night's goes in place of its own, the first with its marker; without one right behind the first with the highest number; without any sweep behind all. Its number is its own, one more than the highest, or 1 |
| `Sections.MergedAgain` | scripts/nightly-report.py:1372-1388 | merging a night's section again changes nothing, and the night then has the number of the section's heading |
| `Sections.OthersStay` | scripts/nightly-report.py:1372-1388 | every other section and the text before them stay as they were, up to line breaks at their ends, and the section stands where it belongs |

## How the model reads the source

- Amounts of memory, times and coordinates are real numbers. A distance is compared by its square
  (`Findings.SameDistanceMeans`). The date's numbers are 64-bit, as in the source.
- A field that a dictionary may leave out is an `Option`. Python's `None` results and exceptions are `Option` or
  datatype results. The ledger's `label` is `name` here.
- An event carries what one update reads: the processes (with their start ticks, resident sizes and whether they are
  zombies), the clock, the capacity and MemAvailable. A death is a process that an event's table no longer has.
- A finding's item carries as fields what regular expressions read off its description: the footprint it is of, and
  whether it is a pad or on a mask layer.
- A sidecar that is missing is an empty one.
- A text merged by sections is the sequence of its lines as cut at line breaks; a document with a table is its head,
  the lines between the markers, and its tail. Digits are the ASCII ones.

## Left out

- Locks, files, `/proc`, JSON and signals: an update is one atomic step, and what it reads is an input.
- The ledger's rules in Rust (crates/pcb-kicad) and the binaries' own reservations that grow while they run.
- Runs.CapacitySafety: leaves out the unconditional `reserve`, which asks for no room; `MemoryLedger.Ledger.Reserve` says what it adds.
- Passing.NoPassing: counts from the last step that went ahead of the waiter, because the nightly's requests, earlier waiters and merging moves are allowed to take its room.
- Draining.StrictDrainKeepsRoom: takes it that each lasting admission is held to the strict drain and does not go by the exception for small requests, which `Starving.StarvedStepIsStrict` derives for a first waiter; merging moves are left out, which can turn a short reservation's megabytes into a lasting one's.
- Starving.StarvedKeepsRoom: takes processes that hold nothing themselves or see the room covered; for others `Starving.OwnReservationTakesRoom` shows a step that loses it. Merging moves are left out too.
- Draining.PassersAreGone: takes it that runs end when they declared, as the drain does.
- Scanning.ScannersAgreeExactly: leaves out texts with a backslash directly before a line break, where the tokens end a string that the characters go on with and the two can agree by chance.
- Findings.MovedTogetherExactly: takes items with distinct uuids; of two items with one uuid the last one's position counts for both.
- Judging.JudgedAmongThemselves: leaves out lists with both a clearance to the board edge between pieces of the outline only and one that does not say where it is, for which the first can answer (`Judging.OutlineAnswers`).
- Truncation.TruncationLosesNothing: takes sidecars that agree on a source's date and rows, and logs of new names; for any logs `Truncation.SameUnlessBroughtBack` is exact for sidecars that agree, and for one alone.
- Estimates.Refresh: takes a window of at least one source; with none the source fails at the first board that has rows.
- Quantiles.FitCoversQuantile: speaks of the base and the slope before they are rounded.
- The waiting loop of `admit` with its sleeping and its end for a request that is too large; the capacity from the headroom samples; the other fields of a memory sample.
- `MemoryGate`, the client that keeps a board's key: its lock, threads and environment.
- The estimates' overshoot, sizes, margins and models per family.
- The other thresholds of the comparison of placers, its correlation and its simulations.
- The geometry of graphics and texts that clusters are made of; labels, zones and outlines of boards.
- The wording of the nightly report and of the write-up; merges into the README and the other documents.
