# Verification of the network client's core

A Dafny model of the parts of the client where state is changed step by step and a promise spans several
functions, with proofs of those promises for all inputs, all topologies and all runs.

**Paths.** A node that wants to pay another one searches its topology for paths of at most six trust lines, level
by level, and uses up what each path carries before it searches on. `Network.dfy` holds topologies, walks, routes
and bottlenecks. `Search.dfy` specifies the recursive search and proves it sound and complete. `Levels.dfy` and
`Builds.dfy` specify the level loops, the gateway-first second level and whole builds and rebuilds, prove that
they leave no open route (a blocking flow), and that the rebuild, which goes back to its first line after every
success, does what the build does on the topology without the inaccessible nodes. `ShortestFirst.dfy`,
`Gateways.dfy` and `RebuildPaths.dfy` are about the order and the shape of recorded paths, `Conservation.dfy` about the
flow they make up. `Paths.dfy` has the objects of the program, line objects with used amounts changed in place, a shared
stack of passed nodes and a collection that is appended to; `Outcomes.dfy` matches their loops with the
specification.

**Trust lines.** `TrustLines.dfy` models payments on one end with 256-bit arithmetic as the program has it: amounts
are checked, balances wrap around, and the product in the sign test is truncated. `Ledger.dfy` puts two mirrored
ends together.

**Signatures.** `Lamport.dfy`: Lamport one-time signatures over an uninterpreted 32-byte hash.

**Text.** `Csv.dfy` and `CString.dfy`: the shell's CSV writer and reader, and its C-string printer, in-place
escape resolver and in-place tokeniser.

**History.** `History.dfy`: queries that read a table in portions of a thousand rows.

**Cycles.** `Cycles.dfy` specifies the queues of cycles as a state machine with a history; `CyclesManagers.dfy` is
the object.

**Contractors and codecs.** `Multiprecision.dfy`: amounts and balances as bytes. `Addresses.dfy` and
`ContractorBytes.dfy`: addresses as text, contractors as bytes. `Contractors.dfy`: the identifiers, and the
agreement of what is in memory with the tables.

`Amounts.dfy`, `ByteStrings.dfy` and `Wrappers.dfy` hold what several of them share.

Where the program changes state in place the model does: each such method is proved equal to a function of the
state before, and the theorems are about those functions.

## What turned out not to hold

- A rebuild is said to find no direct path, because it starts from two lines. It does find one:
  `RebuildPaths.RebuildRecordsDirect` says exactly when, `RebuildPaths.RebuildDirectly` gives a topology.
- The available amount does not always decide on a payment. `TrustLines.AvailableOutgoingDecides` and
  `AvailableIncomingDecides` say for every line and amount exactly when it does. It fails in three ways, in both
  directions: the new debt wraps around before it is tested (`TrustLines.PayBeyondAvailable`), the sum of limit and
  balance wraps around before it is shown (`TrustLines.AvailableWrapsAround`), and over the limits the product of
  the balances truncates (`TrustLines.RefusedTowardsZero`). Over the limits not even a payment of nothing passes.
- Over the limits a payment towards zero is refused when the low 256 bits of the product of the balances are zero
  (`TrustLines.AcceptsExactly`).
- A receipt total that overflows throws after the balance has moved (`Ledger.StepConserves`), as in
  `Ledger.OverflowMovesBalance`.
- The bounded query on the additional table counts rows of the main table (`History.AdditionalQueryExactly`). None
  of them is of that kind, so it never returns anything (`History.AdditionalQueryIsEmpty`).
- A column separator from 128 to 254 is written but not recognised, and with 255 the import does not end
  (`Csv.SeparatorsThatServe`, `Csv.ImportEnds`).
- The comment in front of `resolve_backslashes` lists `\s` for a blank; the code leaves the letter
  (`CString.ResolvesAsListed`), and so does the model.
- A contractor with 256 addresses or more, or with a text of 65536 bytes or more, is not read back
  (`ContractorBytes.ContractorReadsBack`, `ContractorBytes.DoNotReadBack`).

## Model

| member | source | states |
|---|---|---|
| Levels.RetryBlocks | src/core/paths/PathsManager.cpp:65-89 | Blocking flow: when a level with limit k is over, no walk of at most k lines from the current node to the contractor (repeated nodes allowed) has something free on every line |
| Builds.BuildBlocks | src/core/paths/PathsManager.cpp:51-57 | After the sixth level, before the reset, no walk of at most six lines has something free on every line, whatever the gateways |
| Builds.SecondLevelBlocks | src/core/paths/PathsManager.cpp:92-139 | The second level is a blocking flow too, although every gateway gets a single search and no retry |
| Builds.RebuildBlocks | src/core/paths/PathsManager.cpp:229-231 | After a rebuild no walk of at most six lines that keeps off the inaccessible nodes has something free on every line |
| Search.Sound | src/core/paths/PathsManager.cpp:144-198 | Whatever the recursive search finds is a tail of a route: lines joined up, none to an inaccessible, the current or a passed node, loaded with the least of the incoming flow and the free amounts |
| Search.Complete | src/core/paths/PathsManager.cpp:144-198 | If any such tail within the remaining levels is open, the search succeeds |
| Levels.AttemptSound | src/core/paths/PathsManager.cpp:78-82 | A successful search along a line of the current node yields a route whose amount is the least free amount on it |
| Levels.AttemptComplete | src/core/paths/PathsManager.cpp:78-87 | The search along a line succeeds if a route over that line without repeated nodes is open |
| Levels.AttemptMonotone | src/core/paths/PathsManager.cpp:83-87 | A search that failed stays failed as free amounts shrink |
| Levels.AttemptOnUsedUp | src/core/paths/PathsManager.cpp:74-77 | Passing over a line with nothing free is the same as searching along it |
| Levels.AfterLowers | src/core/paths/PathsManager.cpp:83-87 | A success lowers the free amount of its first line and raises no other: the reason why the level loops end |
| Levels.RetryExhausts | src/core/paths/PathsManager.cpp:70-88 | When the retrying loop is over, the search along every line it tried would fail |
| Levels.Shortcut | src/core/paths/PathsManager.cpp:171-176 | Every open walk contains an open walk between the same ends without repeated nodes and no longer |
| Builds.RestartIsRetry | src/core/paths/PathsManager.cpp:240-271 | Going back to the first line after every success records the same paths and leaves the same amounts as retrying in place |
| Builds.RebuildIsBuildWithoutInaccessible | src/core/paths/PathsManager.cpp:240-271 | For every topology and set of inaccessible nodes the rebuild's level loop records the same paths with the same amounts, and leaves the same free amounts, as the build's loop on the topology without the lines into those nodes |
| Search.FromNodeRestricted | src/core/paths/PathsManager.cpp:277-336 | The rebuild's search that skips inaccessible nodes is the build's search on the topology without the lines to them |
| Builds.OneTryIsEnough | src/core/paths/PathsManager.cpp:92-122 | With at most two lines a successful search leaves nothing for a second one along the same line |
| Builds.BuildLevelIsRun | src/core/paths/PathsManager.cpp:65-139 | Every level of a build is a run: each path is a route with a positive bottleneck amount in what the ones before it left free |
| Builds.BuildIsRun | src/core/paths/PathsManager.cpp:33-61 | So is a whole build, over routes of at most six lines |
| Builds.RebuildIsRun | src/core/paths/PathsManager.cpp:203-235 | So is a whole rebuild, over routes that keep off inaccessible nodes |
| Builds.RebuildLevelIsRetry | src/core/paths/PathsManager.cpp:240-271 | A rebuild level is the retrying loop over the same lines |
| Builds.RebuildIsBuild | src/core/paths/PathsManager.cpp:228-231 | Over whole runs too: the rebuild's levels are the build's levels, asking no gateways first, on the topology without the inaccessible nodes |
| Builds.NothingToBuild | src/core/paths/PathsManager.cpp:44-49 | Without own lines the early return records what the level loops would: nothing |
| Builds.NothingToRebuild | src/core/paths/PathsManager.cpp:221-226 | The same for a rebuild |
| ShortestFirst.BuildIsShortestFirst | src/core/paths/PathsManager.cpp:51-57 | A build records its paths in the order of their lengths, and none with a repeated node, self-loop lines included |
| ShortestFirst.BuildLevelStep | src/core/paths/PathsManager.cpp:51-57 | After the levels below, level k records only routes of exactly k lines without repeated nodes |
| ShortestFirst.RebuildIsShortestFirst | src/core/paths/PathsManager.cpp:229-231 | The same for a rebuild once nothing of two lines is open |
| Gateways.GatewaysComeFirst | src/core/paths/PathsManager.cpp:92-139 | In every build, among the routes over one node between the ends, those over gateways come before all others, in the order in which the gateways are given, and none is used twice |
| Gateways.GatewayPathsComeFirst | src/core/paths/PathsManager.cpp:51-57 | The same for the recorded paths |
| Gateways.GatewaysPassOnToGateways | src/core/topology/manager/TopologyTrustLinesManager.cpp:277-296 | With the lines of the gateways closed, every recorded route goes on from a gateway only to another gateway or to the contractor |
| Gateways.RecordedNodes | src/core/paths/PathsManager.cpp:149-157 | A recorded path is what its route has between its ends |
| RebuildPaths.RebuildRecordsDirect | src/core/paths/PathsManager.cpp:228-231 | A rebuild records a direct path if and only if the direct line is accessible and more is free on it than a line of the current node to itself, if listed before it, uses first |
| RebuildPaths.RebuildWithoutSelfLine | src/core/paths/PathsManager.cpp:228-231 | Without such a line, as in every topology of reported lines: a direct path is recorded if and only if something is free on the accessible direct line, and no rebuilt route has a repeated node |
| RebuildPaths.RebuildDirectly | src/core/paths/PathsManager.cpp:228-231 | A topology for which a rebuild records a direct path |
| RebuildPaths.RebuildPassesCurrentNode | src/core/paths/PathsManager.cpp:299-303 | Rebuilt paths keep off the current node itself unless the topology has an open line from that node to itself before an open direct line; if it has, and only then, one goes through it |
| RebuildPaths.RebuiltPathsAreDistinct | src/core/paths/PathsManager.cpp:16-30 | In every topology the intermediate nodes of a rebuilt path are pairwise distinct, and fewer than six |
| RebuildPaths.RebuiltPathsKeepOff | src/core/paths/PathsManager.cpp:277-336 | No rebuilt path has an inaccessible node or the contractor among its nodes |
| RebuildPaths.RebuildFitsExactly | src/core/paths/PathsManager.cpp:240-271 | Whether a rebuild throws, by the lengths of its routes alone: if those of one and two lines, or those of some greater length, carry more than an amount can hold together |
| Conservation.UsedIsLoad | src/core/paths/PathsManager.cpp:162-197 | Flow decomposition: over any run the used amount of each line grows by exactly the sum of the amounts of the recorded paths containing it |
| Conservation.LoadWithinFree | src/core/topology/TopologyTrustLine.cpp:35-46 | So that sum stays within what was free, and free amounts never underflow |
| Conservation.Conservation | src/core/paths/PathsManager.cpp:144-198 | Over any run what a node takes in it passes on, except that the current node sends and the contractor keeps the total of the recorded amounts |
| Conservation.CutBound | src/core/paths/PathsManager.cpp:51-57 | For any set of nodes around the current node without the contractor, the recorded amounts add up to at most the initial free amount of the lines leaving the set |
| Conservation.RecordedPaths | src/core/paths/PathsManager.cpp:149-157 | Each recorded path carries exactly the least free amount on its route at the moment it is recorded |
| Conservation.PathValidity | src/core/paths/PathsManager.cpp:16-30 | The intermediate nodes of a route exclude the contractor and inaccessible nodes and are at most limit - 1; they are pairwise distinct and exclude the current node if and only if the route has no line from a node to itself |
| Paths.IsPathValid | src/core/paths/PathsManager.cpp:16-30 | The validity test accepts exactly the paths with pairwise distinct nodes; it has no result on a path without nodes |
| Paths.TopologyTrustLine.constructor | src/core/topology/TopologyTrustLine.cpp:3-18 | A new line has nothing used |
| Paths.TopologyTrustLine.AddUsedAmount | src/core/topology/TopologyTrustLine.cpp:42-46 | Adds to the used amount, or throws and changes nothing if the sum exceeds 256 bits |
| Paths.TopologyTrustLine.SetUsedAmount | src/core/topology/TopologyTrustLine.cpp:48-52 | Replaces the used amount |
| Paths.TopologyTrustLinesManager.constructor | src/core/topology/manager/TopologyTrustLinesManager.cpp:3-17 | Starts without lines, and with the current node as a gateway if it is one |
| Paths.TopologyTrustLinesManager.AddTrustLine | src/core/topology/manager/TopologyTrustLinesManager.cpp:19-104 | A reported line is added, changes the amount of the one between the same nodes, or with amount zero takes it out; there is never more than one, and the topology stays valid unless more is used than the new amount |
| Paths.TopologyTrustLinesManager.AddUsedAmount | src/core/topology/manager/TopologyTrustLinesManager.cpp:131-146 | Uses more of the one line between two nodes and of no other; within what is free it keeps the free amounts in step |
| Paths.TopologyTrustLinesManager.ResetAllUsedAmounts | src/core/topology/manager/TopologyTrustLinesManager.cpp:119-129 | Afterwards no line has anything used |
| Paths.TopologyTrustLinesManager.MakeFullyUsedFromGateways | src/core/topology/manager/TopologyTrustLinesManager.cpp:277-296 | Exactly the lines from gateways to nodes other than gateways and the contractor have nothing free afterwards; all others are as they were |
| Paths.PathsManager.CalculateOneNode | src/core/paths/PathsManager.cpp:144-198 | The recursive search over line objects returns, records and uses exactly what the specified search finds, and restores the stack of passed nodes; with inaccessible nodes it is the rebuild's search (lines 277-336) |
| Paths.PathsManager.BuildPathsOnOneLevel | src/core/paths/PathsManager.cpp:65-89 | The level loop leaves the amounts and records the paths of the retrying loop that the blocking-flow theorem is about |
| Paths.PathsManager.BuildPathsOnSecondLevel | src/core/paths/PathsManager.cpp:92-139 | The second level's two loops leave and record what the gateway-first specification says |
| Paths.PathsManager.ReBuildPathsOnOneLevel | src/core/paths/PathsManager.cpp:240-271 | The rebuild's level loop leaves and records what the retrying loop does and returns the total of the amounts leaving the current node; it throws exactly if that total exceeds 256 bits |
| Paths.PathsManager.BuildPaths | src/core/paths/PathsManager.cpp:33-61 | Records the paths of the six levels on the topology with the gateways' lines closed, in order, those over a single gateway before those over any other single node, and ends with nothing used |
| Paths.PathsManager.ReBuildPaths | src/core/paths/PathsManager.cpp:203-235 | Records the paths of the five levels, keeping off every node ever declared inaccessible, and ends with nothing used unless a sum overflowed |
| TrustLines.AvailableOutgoingDecides | src/core/trust_lines/TrustLine.cpp:141-148 | Limit exactness, on every line: a positive payment is refused exactly beyond the available amount, if and only if the product truncates exactly when the new debt wraps around or, where limit and balance together wrap around, exactly beyond what is left of them; a payment of nothing, if and only if the line is within its limits |
| TrustLines.AvailableIncomingDecides | src/core/trust_lines/TrustLine.cpp:153-160 | The same for incoming payments |
| TrustLines.AvailableDecidesWithinLimits | src/core/trust_lines/TrustLine.cpp:141-160 | Within the limits the product does not matter: the available amount decides, in both directions, if and only if neither the sum of limit and balance nor the new debt leaves the range to any effect |
| TrustLines.PayIsExact | src/core/trust_lines/TrustLine.cpp:289-315 | On every line a positive payment is refused if and only if the new debt is in range and exceeds the limit, or the product truncates |
| TrustLines.AcceptPaymentIsExact | src/core/trust_lines/TrustLine.cpp:324-350 | The same for incoming payments |
| TrustLines.PayMoves | src/core/trust_lines/TrustLine.cpp:289-315 | On every line: a refused payment changes nothing; any other moves the balance to the exact difference, or 2^256 above it if that is out of range, adds the amount to the outgoing total or throws if that overflows, and changes nothing else |
| TrustLines.AcceptPaymentMoves | src/core/trust_lines/TrustLine.cpp:324-350 | The same for incoming payments, with the sum and the incoming total |
| TrustLines.PayBeyondAvailable | src/core/trust_lines/TrustLine.cpp:289-350 | Lines with nothing available on which a payment succeeds, in either direction, because the unchecked sum wraps around |
| TrustLines.AvailableWrapsAround | src/core/trust_lines/TrustLine.cpp:141-160 | Lines that show nothing available although the largest payment succeeds, in either direction |
| TrustLines.ProductTestIsRedundant | src/core/trust_lines/TrustLine.cpp:292-303 | Within the limits the sign test on the truncated 512-bit product never changes the outcome |
| TrustLines.NoPaymentMovesFurtherOut | src/core/trust_lines/TrustLine.cpp:289-350 | On any line, also over its limits, a payment that moves the balance moves it within the limits or nearer to zero on the same side |
| TrustLines.AcceptsExactly | src/core/trust_lines/TrustLine.cpp:292-311 | A new balance is accepted if and only if it is within the limits, or nearer to zero on the same side with a product that does not truncate to zero |
| TrustLines.RefusedTowardsZero | src/core/trust_lines/TrustLine.cpp:292-350 | Lines over their limits on which an available payment towards zero is refused, in either direction |
| TrustLines.TrustLine.Pay | src/core/trust_lines/TrustLine.cpp:289-315 | Pays or throws as specified: when it is done the balance is lower and the outgoing total higher by exactly the amount, within the range of balances; when it is refused nothing has changed |
| TrustLines.TrustLine.AcceptPayment | src/core/trust_lines/TrustLine.cpp:324-350 | Accepts or throws as specified: when it is done balance and incoming total are higher by exactly the amount, within the range of balances; when it is refused nothing has changed |
| TrustLines.TrustLine.SetIncomingTrustAmount | src/core/trust_lines/TrustLine.cpp:47-59 | Rejects the largest amount only |
| TrustLines.TrustLine.SetOutgoingTrustAmount | src/core/trust_lines/TrustLine.cpp:68-80 | Rejects the largest amount only |
| Ledger.RunMirrors | src/core/crypto/keychain.cpp:654-669 | Two mirrored ends stay mirrored over any payments in both directions, and each payment ends the same way on both: one side's payment throws exactly if the other's acceptance does |
| Ledger.RunKeepsLimits | src/core/trust_lines/TrustLine.cpp:289-350 | A line within its limits stays within them over any payments |
| Ledger.StepConserves | src/core/trust_lines/TrustLine.cpp:289-350 | A payment leaves balance minus received plus sent unchanged if and only if it is not accepted, or its total does not overflow and the balance does not wrap around, or its total overflows and the balance stays where it is |
| Ledger.OverflowMovesBalance | src/core/trust_lines/TrustLine.cpp:313-314 | A payment that throws after it has moved the balance |
| Ledger.UndistortedRunConserves | src/core/trust_lines/TrustLine.cpp:289-350 | Over any run in which no payment does otherwise, balance minus received plus sent is constant |
| Ledger.RunConserves | src/core/trust_lines/TrustLine.cpp:289-350 | On any line, over its limits or not, balance minus received plus sent is constant over payments that together with the balance and with each total stay within 256 bits, and none of them throws on a total |
| Ledger.RunMoves | src/core/trust_lines/TrustLine.cpp:289-350 | Over any payments on any line each total grows by exactly the amounts that were done in its direction, and the limits stay |
| Ledger.RunMovesModulo | src/core/trust_lines/TrustLine.cpp:289-350 | The balance at the end less the one at the start is what was received less what was sent, refused payments aside, up to multiples of 2^256 |
| Ledger.RunMovesBalance | src/core/trust_lines/TrustLine.cpp:289-350 | It is exactly that if no payment takes the balance out of its range |
| Ledger.VolumeDoesNotWrap | src/core/trust_lines/TrustLine.cpp:289-350 | None does on any line if the volume of the payments fits together with the balance |
| Ledger.WithinLimitsDoesNotWrap | src/core/trust_lines/TrustLine.cpp:289-350 | And none does on a line within its limits, however many payments there are, if each of them fits together with both limits |
| Csv.Writer.OutputCsv | src/libs/sqlite3/shell.c:865-894 | Writes a field plain or in quotes with every quote doubled, as its text and the separator demand |
| Csv.Writer.OutputRow | src/libs/sqlite3/shell.c:1211-1227 | Writes the cells of a row, null ones as the text for null, with separators between them and a row separator after them, and nothing for a row without cells; before the first row the names of the columns, if asked for |
| Csv.CellsAreFields | src/libs/sqlite3/shell.c:1220-1225 | For rows without nulls that is the text that is read back |
| Csv.NullReadsBack | src/libs/sqlite3/shell.c:865-868 | A null cell is read back as the text for null, not as null |
| Csv.RowWithNullsReadsBack | src/libs/sqlite3/shell.c:1220-1225 | A written row with nulls is read back cell for cell, with the text for null in their places, if that text needs no quotes |
| Csv.Reader.ReadOneField | src/libs/sqlite3/shell.c:2699-2759 | The reader's loops return the field, its terminator and the rest of the input as specified |
| Csv.Reader.ReadRow | src/libs/sqlite3/shell.c:4050-4073 | The column loop fills missing cells with nulls and stops before a row at the end of the file |
| Csv.Reader.ReadExtra | src/libs/sqlite3/shell.c:4074-4081 | Fields beyond the last column are read over |
| Csv.Reader.Import | src/libs/sqlite3/shell.c:4050-4091 | The row loop returns all rows of the file |
| Csv.FieldReadsBack | src/libs/sqlite3/shell.c:2699-2759 | A written field is read back, whatever quotes, separators, CR or LF are in it |
| Csv.RowReadsBack | src/libs/sqlite3/shell.c:4050-4073 | A written row is read back cell for cell |
| Csv.TableReadsBack | src/libs/sqlite3/shell.c:4050-4091 | The CSV round trip (section 2 of RFC 4180): every table written with a one-byte separator (not quote, CR or LF) and LF or CRLF rows is read back field for field |
| Csv.RaggedTableReadsBack | src/libs/sqlite3/shell.c:4050-4091 | A written table is read back whatever the lengths of its rows and the number of columns: cells beyond the last column are dropped and missing ones are null |
| Csv.UnendedTableReadsBack | src/libs/sqlite3/shell.c:4050-4091 | Nothing is lost of a last row without its row separator |
| Csv.PlainExactly | src/libs/sqlite3/shell.c:865-894 | A field is written as it is if and only if it is not empty and has only printable characters other than blanks, quotes of both kinds and the separator |
| Csv.QuotesDoubled | src/libs/sqlite3/shell.c:881-889 | Any other field is written between quotes, with each quote in it doubled and everything else as it is |
| Csv.ImportEnds | src/libs/sqlite3/shell.c:4044-4091 | The import ends, on whatever file, if and only if the separator is not the end-of-file value |
| Csv.SeparatorsThatServe | src/libs/sqlite3/shell.c:2699-2759 | With the separator kept as a signed character, a separator serves for all tables if and only if it is below 128 |
| Csv.HighSeparatorIsRead | src/libs/sqlite3/shell.c:2736-2744 | A separator from 128 to 254 is read as part of the field |
| CString.OutputCString | src/libs/sqlite3/shell.c:773-799 | Prints a C string in quotes with its escapes |
| CString.PrintedResolves | src/libs/sqlite3/shell.c:2470-2512 | The escapes that are printed resolve to the characters they were printed for, whatever follows |
| CString.EscapesPrinted | src/libs/sqlite3/shell.c:777-793 | Tabs, line feeds and carriage returns are printed with their letters, double quotes and backslashes after a backslash, other characters that are not printable as a backslash and the three octal digits of their code |
| CString.PrintedIsPrintable | src/libs/sqlite3/shell.c:773-799 | Only printable characters are printed |
| CString.PrintedAsItIs | src/libs/sqlite3/shell.c:773-799 | A text is printed as it is if and only if it has only printable characters, no double quote and no backslash |
| CString.ResolveOne | src/libs/sqlite3/shell.c:2474-2508 | One turn of the loop decodes one escape, an octal one of up to three digits included |
| CString.ResolvesAsListed | src/libs/sqlite3/shell.c:2457-2468 | An escape listed in the comment resolves as listed if and only if it is not the one for a blank |
| CString.OctalResolves | src/libs/sqlite3/shell.c:2498-2508 | One to three octal digits after a backslash resolve to their number modulo 256 |
| CString.OtherEscapes | src/libs/sqlite3/shell.c:2474-2512 | Before any other character a backslash is dropped, and at the end of the text it stays |
| CString.ResolveBackslashes | src/libs/sqlite3/shell.c:2470-2512 | Resolves a string in place: nothing outside it changes and the result is terminated within it, so the write index never passes the read index |
| CString.ResolvedShrinks | src/libs/sqlite3/shell.c:2470-2512 | Resolving never makes a text longer |
| CString.Tokenise | src/libs/sqlite3/shell.c:3536-3556 | The in-place tokeniser leaves at most fifty C strings in the buffer that show exactly the specified tokens, although later tokens are rewritten after earlier ones |
| CString.TakeToken | src/libs/sqlite3/shell.c:3539-3555 | Taking a token changes nothing before it and nothing after the rest's first character |
| CString.LineReadsBack | src/libs/sqlite3/shell.c:3536-3556 | Printed strings separated by blanks tokenise to those strings, to as many of them as there is room for |
| CString.ItemsReadBack | src/libs/sqlite3/shell.c:3536-3556 | Words without backslashes, texts between single quotes and printed strings, in any mixture and with any blanks around them, tokenise to exactly those texts, as many of them as there is room for |
| CString.UnclosedQuotes | src/libs/sqlite3/shell.c:3539-3549 | A quote that is not closed reaches to the end of the line |
| CString.CommandLineReadsBack | src/libs/sqlite3/shell.c:3536-3556 | The C-string round trip: at most fifty NUL-free strings, printed into any terminated buffer, are what the tokeniser leaves in it |
| CString.MixedLineReadsBack | src/libs/sqlite3/shell.c:3536-3556 | The same for words, singly quoted texts and printed strings in any mixture |
| Lamport.CollectSignature | src/core/crypto/lamportscheme.cpp:116-140 | For every bit of the hash, the lowest of each byte first, the 32 bytes of the signature are the first half of the 64 bytes of the key for that bit if it is set, and the second half if it is clear; all copies stay inside the 16 KB key and the 8 KB signature |
| Lamport.PrivateKey.DerivePublicKey | src/core/crypto/lamportkeys.cpp:41-63 | The public key holds the hash of every number of the private key |
| Lamport.PrivateKey.Sign | src/core/crypto/lamportscheme.cpp:8-39 | A key signs once; the signature holds, bit by bit, the half that the hash of the message selects from the private key |
| Lamport.Check | src/core/crypto/lamportscheme.cpp:71-114 | True if and only if the message is not empty and the hash of the 32 bytes for every bit is the half that the hash of the message selects from the public key |
| Lamport.BitIsDigit | src/core/crypto/lamportscheme.cpp:125-131 | The bits that are tested are the binary digits of a byte |
| Lamport.Completeness | src/core/crypto/lamportscheme.cpp:71-140 | For every key, message and 32-byte hash, what the private key signs the derived public key verifies, if and only if the message is not empty |
| Lamport.SignThenCheck | src/core/crypto/lamportscheme.cpp:8-114 | The same for the methods: deriving, signing and checking returns true exactly for messages that are not empty |
| Lamport.Binding | src/core/crypto/lamportscheme.cpp:71-140 | Under a public key whose pairs differ one signature is good for two messages only if their hashes are equal |
| Lamport.GoodForBoth | src/core/crypto/lamportscheme.cpp:71-140 | A signature good for one message is good for another non-empty one if and only if their hashes are equal |
| Lamport.SameNumbers | src/core/crypto/lamportscheme.cpp:109-113 | Comparing whole buffers compares all their numbers |
| History.Scan | src/core/io/storage/HistoryStorage.cpp:749-786 | Reading portion after portion with running counters returns the page of the filtered rows that were covered; portions are invisible |
| History.HistoryStorage.PaymentRecords | src/core/io/storage/HistoryStorage.cpp:726-846 | The bounded payment queries, of one and of all equivalents, return take(recordsCount, drop(fromRecord, filter(all rows))) |
| History.HistoryStorage.RecordsWithContractor | src/core/io/storage/HistoryStorage.cpp:1042-1090 | The query by contractor addresses returns the page of the filtered rows |
| History.HistoryStorage.PaymentAdditionalRecords | src/core/io/storage/HistoryStorage.cpp:848-909 | The query on the additional table returns the page of the filtered rows that the main table's count lets it see; with bounds, in tables that were saved to, nothing |
| History.AdditionalQueryExactly | src/core/io/storage/HistoryStorage.cpp:871-909 | That query agrees with the filtered rows on all pages if and only if no row within the bounds lies beyond the portions that the count covers |
| History.AdditionalQueryMisses | src/core/io/storage/HistoryStorage.cpp:678-679 | A table for which it misses a row |
| History.AdditionalQueryIsEmpty | src/core/io/storage/HistoryStorage.cpp:872-877 | The bounded query on additional records sees nothing of any table when no additional record is in the main table |
| History.HistoryStorage.SaveRecord | src/core/io/storage/HistoryStorage.cpp:178-264 | Trust lines and payments go to the main table, and nothing else does |
| History.HistoryStorage.SavePaymentAdditionalRecord | src/core/io/storage/HistoryStorage.cpp:396-402 | Additional records go to the other table |
| History.PagesCoverAll | src/core/io/storage/HistoryStorage.cpp:749-786 | Asking for page after page shows the rows of a query in order, each of them once, and all of them in the end |
| History.PageIs | src/core/io/storage/HistoryStorage.cpp:772-784 | A page has the rows from its first one on, as many as were asked for or as there are |
| History.PaymentsWanted | src/core/io/storage/HistoryStorage.cpp:726-846 | The payment queries keep exactly the payments in the equivalent asked for whose times and amounts lie within the bounds, the bounds included, each as often as it is in the table |
| History.ContractorRowsWanted | src/core/io/storage/HistoryStorage.cpp:1042-1090 | The contractor query keeps exactly the rows of the equivalent that have every given address |
| History.AdditionalRowsWanted | src/core/io/storage/HistoryStorage.cpp:848-870 | The unbounded query on the additional table keeps exactly the additional records of the equivalent within the times |
| Cycles.Runs | src/core/cycles/CyclesManager.cpp:68-139 | Over any run: after a step that hands over a cycle, another one does so only after, or by, a call of `closeOneCycle(true)`; every accepted cycle is exactly one of queued, handed over or removed; each class is first in, first out; and a cycle is removed only if a closed line was reported whose source stands in it right before its destination, or an offline node that it has |
| Cycles.Waits | src/core/cycles/CyclesManager.cpp:98-139 | While a cycle is in process, no sequence of calls without `closeOneCycle(true)` hands over another one |
| Cycles.ClosedIsGone | src/core/cycles/CyclesManager.cpp:352-403 | After each call no queued cycle has the source of the earliest waiting closed line right before its destination, or the earliest waiting offline node, and nothing new is queued |
| Cycles.ContainsExactly | src/core/paths/lib/Path.cpp:35-45 | A path has a trust line if and only if it is something, then source and destination, then something |
| Cycles.HandsOverExactly | src/core/cycles/CyclesManager.cpp:98-139 | After an enabled call a cycle is in process if and only if one was and has not been dealt with, or some queued cycle has neither the earliest closed line nor the earliest offline node; calls that are not enabled change nothing |
| Cycles.ReportIsKept | src/core/cycles/CyclesManager.cpp:298-316 | A report is kept beside the earlier ones unless there is one for the same time |
| Cycles.ClosedLineTakesEffect | src/core/cycles/CyclesManager.cpp:352-403 | A reported closed line has taken effect after as many calls as there are reports up to it: no cycle queued before is still queued if it has the line |
| Cycles.OfflineNodeTakesEffect | src/core/cycles/CyclesManager.cpp:352-403 | The same for an offline node |
| Cycles.StepKeeps | src/core/cycles/CyclesManager.cpp:68-139 | Every step keeps the invariant behind it |
| Cycles.RunLogs | src/core/cycles/CyclesManager.cpp:68-96 | The log of a class holds exactly the accepted cycles of its length, in order |
| Cycles.ScanFinds | src/core/cycles/CyclesManager.cpp:115-139 | Four class steps find a waiting cycle if there is one, and hand over exactly one |
| Cycles.ScanTakesFirst | src/core/cycles/CyclesManager.cpp:115-139 | It is the first cycle of the first class that is not empty, going around from the current class, and that class is the current one then |
| Cycles.Drains | src/core/cycles/CyclesManager.cpp:98-139 | With nothing closed or offline, as many reports as there are waiting cycles drain all four queues |
| CyclesManagers.CyclesManager.constructor | src/core/cycles/CyclesManager.cpp:3-66 | Starts with empty queues and no cycle in process |
| CyclesManagers.CyclesManager.AddCycle | src/core/cycles/CyclesManager.cpp:68-96 | Queues a cycle by its length; throws on other lengths |
| CyclesManagers.CyclesManager.CloseOneCycle | src/core/cycles/CyclesManager.cpp:98-139 | Hands over the next cycle unless one is in process or cycles are disabled, as the state machine does; afterwards one is in process exactly if one was and has not been dealt with, or something waited |
| CyclesManagers.CyclesManager.HandOverNext | src/core/cycles/CyclesManager.cpp:115-139 | The loop around the classes is the scan of four steps |
| CyclesManagers.CyclesManager.IncrementCurrentCycleClosingState | src/core/cycles/CyclesManager.cpp:158-174 | Steps to the next class, cyclically |
| CyclesManagers.CyclesManager.ClearClosedCycles | src/core/cycles/CyclesManager.cpp:352-403 | Takes the earliest closed line and the earliest offline node into account in all classes |
| CyclesManagers.RemoveFrom | src/core/cycles/CyclesManager.cpp:318-350 | Erasing while iterating removes exactly the cycles with the line or node, order kept |
| CyclesManagers.CyclesManager.AddClosedTrustLine | src/core/cycles/CyclesManager.cpp:298-307 | Remembers a closed line unless one is remembered for that time |
| CyclesManagers.CyclesManager.AddOfflineNode | src/core/cycles/CyclesManager.cpp:309-316 | The same for a node |
| Multiprecision.AmountToBytes | src/core/common/multiprecision/MultiprecisionUtils.h:23-50 | Writes an amount as the only thirty-two bytes from which it is read |
| Multiprecision.BytesToAmount | src/core/common/multiprecision/MultiprecisionUtils.h:86-105 | Reads an amount back from its bytes |
| Multiprecision.FirstByte | src/core/common/multiprecision/MultiprecisionUtils.h:86-105 | The first byte is the most significant one |
| Multiprecision.BalanceToBytes | src/core/common/multiprecision/MultiprecisionUtils.h:52-84 | Writes a balance in canonical form, one for negative and zero for other balances and then the thirty-two bytes of its magnitude, from which it is read back |
| Multiprecision.BytesToBalance | src/core/common/multiprecision/MultiprecisionUtils.h:107-137 | Reads the magnitude of the last thirty-two bytes, negative unless the first byte is zero; zero has no sign |
| Multiprecision.ReadAndWrite | src/core/common/multiprecision/MultiprecisionUtils.h:52-137 | Thirty-three bytes are written back unchanged if and only if the sign byte is zero, or one with a non-zero magnitude |
| Multiprecision.ValueInjective | src/core/common/multiprecision/MultiprecisionUtils.h:86-105 | As many bytes hold a number in one way only: every 32-byte string is the written form of its amount |
| Multiprecision.CanonicalIsUnique | src/core/common/multiprecision/MultiprecisionUtils.h:107-137 | Of all byte strings of a balance exactly one is canonical |
| Addresses.ParseIPv4 | src/core/contractors/addresses/IPv4WithPortAddress.cpp:3-36 | The constructor's loop over the dots parses what the specification does, prefixes of numbers and wrap-around included |
| Addresses.IPv4Parses | src/core/contractors/addresses/IPv4WithPortAddress.cpp:3-36 | Four texts with dots between them, a colon and a fifth text are parsed to the numbers of the first four modulo 256 and that of the fifth modulo 65536, whatever follows the fourth one after a dot, and to nothing if one of them has no number |
| Addresses.ParsesPrefix | src/core/contractors/addresses/IPv4WithPortAddress.cpp:22-30 | The number of a text is that of its digits after blanks and a sign; what follows them is ignored, a minus sign wraps around, and there is none without digits or beyond 64 bits |
| Addresses.IPv4ReadsBack | src/core/contractors/addresses/IPv4WithPortAddress.cpp:86-92 | Parsing after printing is the identity on IPv4 addresses |
| Addresses.AddressTexts | src/core/contractors/addresses/IPv4WithPortAddress.cpp:86-92 | How addresses look as text |
| Addresses.GNSReadsBack | src/core/contractors/addresses/GNSAddress.cpp:3-42 | A name at a provider is parsed back from its text if and only if the text has no colon and the name no separator |
| Addresses.GNSParses | src/core/contractors/addresses/GNSAddress.cpp:3-42 | A port behind a name at a provider must be a number |
| Addresses.SameIPv4 | src/core/contractors/addresses/BaseAddress.cpp:3-11 | Comparing IPv4 addresses by text compares the addresses |
| ContractorBytes.ContractorReadsBack | src/core/contractors/Contractor.cpp:29-48 | The contractor round trip: whatever bytes follow, a contractor is read back equal to itself if and only if it has fewer than 256 addresses and every text fewer than 65536 bytes |
| ContractorBytes.DoNotReadBack | src/core/contractors/Contractor.cpp:139-144 | Contractors that are not read back: with 256 addresses, and with a name of 65536 bytes |
| ContractorBytes.ShortReadsBack | src/core/contractors/addresses/GNSAddress.cpp:96-121 | An address whose text is short enough is read back as an equal one that takes up as many bytes |
| ContractorBytes.LongDoesNotReadBack | src/core/contractors/addresses/GNSAddress.cpp:108-119 | One that is longer is not |
| ContractorBytes.SerializeIPv4 | src/core/contractors/addresses/IPv4WithPortAddress.cpp:99-126 | Fills a buffer with the kind 12, the four bytes in order and the port, its low byte first |
| ContractorBytes.SerializeGNS | src/core/contractors/addresses/GNSAddress.cpp:96-121 | Fills a buffer with the kind 41, the length modulo 65536, its low byte first, and that much of the text; the rest stays zero |
| ContractorBytes.IPv4FromBytes | src/core/contractors/addresses/IPv4WithPortAddress.cpp:53-72 | Reads the four bytes in order and the port, its low byte first |
| ContractorBytes.GNSFromBytes | src/core/contractors/addresses/GNSAddress.cpp:44-72 | Reads the name and the provider around the first separator of as much text as the two bytes of length say, low byte first; fails exactly on no length, too few bytes or no separator |
| ContractorBytes.DeserializeAddress | src/core/common/multiprecision/MultiprecisionUtils.h:139-158 | Reads an address by its kind, and none of another kind |
| ContractorBytes.Contractor.SerializeToBytes | src/core/contractors/Contractor.cpp:134-155 | Fills exactly the serialised size with the count and the addresses one after another |
| ContractorBytes.Contractor.SerializedSizeOf | src/core/contractors/Contractor.cpp:157-164 | The serialised size is the number of bytes written |
| ContractorBytes.Contractor.Load | src/core/contractors/Contractor.cpp:29-48 | Reads as many addresses as the first byte says, or fails |
| Contractors.NextFreeID | src/core/contractors/ContractorsManager.cpp:274-293 | The least identifier absent from the table; zero if none is absent |
| Contractors.ContractorsManager.constructor | src/core/contractors/ContractorsManager.cpp:58-69 | After a start memory holds the stored contractors with their stored addresses, and agrees with storage if and only if no addresses are stored for others |
| Contractors.ContractorsManager.CreateContractor | src/core/contractors/ContractorsManager.cpp:94-134 | Takes in a contractor under the least free identifier, appends it and its addresses to the tables, refuses exactly if some contractor (but the one with the last identifier) has no addresses but the given ones, and keeps memory and tables in agreement |
| Contractors.ContractorsManager.UpdateContractorAddresses | src/core/contractors/ContractorsManager.cpp:336-351 | Replaces the addresses in memory and storage, or nothing if the contractor is absent; agreement kept |
| Contractors.ContractorsManager.RemoveContractor | src/core/contractors/ContractorsManager.cpp:353-366 | Removes a contractor from memory and storage, or nothing if trust lines or no row exist; agreement kept |
| Contractors.AgreementIsUnique | src/core/contractors/ContractorsManager.cpp:58-69 | The tables determine what is in memory, so starting again from them loses nothing |

## Left out

- Paths.PathsManager.CalculateOneNode: one method with a set of inaccessible nodes stands for the source's two copies, `calculateOneNode` (empty set) and `calculateOneNodeForRebuildingPaths`.
- Paths.TopologyTrustLinesManager.AddUsedAmount: used amounts beyond the amount of a line, on which the next subtraction throws, are outside what the other methods require.
- Paths.IsPathValid: on a path without nodes the source steps back from the end of an empty vector; the model returns no result.
- Paths.PathsManager.BuildPaths: the order in which a node's unordered set of lines is walked is fixed for the duration of a call; every order is covered.
- Paths.PathsManager.ReBuildPaths: addresses are already mapped to node numbers.
- Paths.TopologyTrustLinesManager.AddTrustLine: the times of lines and the deletion of old ones; a set of lines is a sequence without repetitions to which new ones are appended. Lines into the current node, which reported lines never make, are allowed.
- Amounts of paths are only logged by the source; the model keeps them in the specification (`Network.Flow`).
- The transactions that call the path manager and reserve the recorded paths on other nodes.
- Ledger.RunConserves: requires that the volume of the payments fits 256 bits together with the balance and with each total; `Ledger.UndistortedRunConserves` does without.
- TrustLines.TrustLine.Pay: states, keys, audit numbers and the other setters of the class are plain assignments.
- Lamport.Check: buffers that could not be allocated, the destructor and the secure memory segment; sizes of buffers that come from outside are required.
- Lamport.PrivateKey.Sign: the program exits on a second use; the model returns false. Random key generation is a parameter.
- History.HistoryStorage.SaveRecord: the kinds of payments, and which of the rows with equal times comes first.
- History.HistoryStorage.PaymentRecords: tables are sequences in query order and do not change during a query; SQL and the decoding of rows are foreign.
- Csv.Writer.OutputCsv: one-byte separators only; texts are sequences of bytes, so a NUL, which ends a text in the source, is an ordinary byte.
- Csv.Reader.ReadOneField: warnings, line counts and the interrupt flag; growth of the buffer is that of a sequence.
- Csv.Reader.Import: a separator that is taken for the end of the file is required not to be used, because the import does not end on it (`Csv.ImportEnds`).
- CString.Tokenise: starts at any position of the line, the source after the leading dot; the dot commands themselves are not modelled.
- CString.OutputCString: printable characters are those of the C locale.
- CyclesManagers.CyclesManager.CloseOneCycle: the receiver of the signal is not modelled, so it does not call back before the cycle is marked as in process; nor are the timers, the clock and the timed expiry of closed lines and offline nodes.
- Multiprecision.BytesToAmount: the import and export of magnitude digits are the library's, specified as the fewest big-endian digits.
- Addresses.GNSReadsBack: host and port of a name, which are not serialised, are left out.
- ContractorBytes.Contractor.Load: a buffer that is too short, an unknown kind of address and an exception are one failure, also for an address on its own; the source reads on or dereferences null for the first two.
- Contractors.ContractorsManager.CreateContractor: the two loops that look for known addresses are a quantifier; keys, confirmation and the identifier on the other side are left out.
- Contractors.ContractorsManager.RemoveContractor: whether there are trust lines is a parameter; storage errors other than a full table are left out, as are commit and rollback.
- Keychains, encryption, observing, providing, networking and settings: foreign calls and plumbing.
