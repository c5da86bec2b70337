# Verification model of the QorTroller daemon and its integrity chains

This project models, in Dafny, the parts of the repository that its integrity claims rest on, and
proves what they promise for all inputs, all runs and all interleavings:

- three hash chains: the grind-integrity chain (GIC) with the bridge that stamps it, the bridge's
  verifier and the replay tool, the companion app's PoAC record chain, and the daemon's AGENT-COMMIT
  chain;
- the tool-call text format of the daemon: the printer for native calls and the parser;
- the rate limiter with its windows, backoff and pruning;
- the diff oracle, the artifact checks built on it, and the gate that lets a review say READY,
  over whole sessions of the message loop;
- message delivery: the agent bus, and the daemon's history store with the CLI's cursor;
- the lock-file protocol of the wiki engine.

| file | contents |
|---|---|
| `Bytes.dfy` | octets, big-endian integers, hexadecimal text, the hash function |
| `Text.dfy` | Python's `strip`, `find`, `splitlines`, `upper`, `"\n".join` |
| `GicReplay.dfy`, `GicWriter.dfy`, `PoacChain.dfy`, `CommitChain.dfy` | the three chains |
| `ToolCalls.dfy` | tool-call printer and parser |
| `RateLimit.dfy`, `RateReference.dfy` | the limiter, and a limiter that answers from the past alone |
| `DiffOracle.dfy`, `Artifacts.dfy`, `ExtractReport.dfy`, `OutputChecks.dfy` | reconstruction, checks, the tools' reports |
| `ReadyGate.dfy`, `SessionHistory.dfy` | sessions, and sessions told from their calls |
| `ReaderList.dfy`, `AgentBus.dfy`, `BusPosts.dfy`, `History.dfy` | the stored list of readers, delivery |
| `LockFile.dfy` | the lock protocol |

How the source is carried over:

- Methods that update fields, tables or loop variables are methods of classes or methods with loops;
  each is proved equal to a specification function, and the theorems are about those functions.
- SHA-256 (section 6.2 of FIPS 180-4) is an arbitrary function into 32 octets, never assumed
  injective. A commitment theorem concludes "equal, or these two named inputs, the i-th octets
  hashed on either side, collide".
- SQLite tables are sequences or maps with auto-increment keys; the clock, the network, the
  language model, `json`, `ast` and the database's choice among ties are parameters.
- Exceptions are `None`, an error constructor, or a fault chosen by a parameter, and each is
  followed to where the source catches it.

Where code and documentation disagree the model follows the code:

- `README.md:458` of the repository hashes the 164-octet body of the previous PoAC record; the
  companion app hashes all 228 octets (`app/vapi-dualshock-companion.py:236-238`). The commitment
  theorem takes the width as a parameter and covers both.
- The comment at `qortroller_daemon.py:1553-1557` says a new AGENT-COMMIT chain starts when the
  identity becomes canonical; the code appends to the same table, so the chain simply goes on
  (`CommitChain.JunctionContinuesChain`).
- `reconstruct_from_removal_diff` is described as returning exactly the removed lines. A removed
  line that starts with `--` is taken for a heading and lost, one that holds a form feed or another
  break of `splitlines` is cut, and any other line that starts with `-` is kept as if it were removed:
  the signature line of `git format-patch` adds a line to every module rebuilt from such a patch
  (`DiffOracle.SignatureIsKept`). `DiffOracle.ReconstructsExactly` gives the exact condition for
  every diff.
- The automatic check looks for an honest extraction where the report is read to name it. That is
  the emitted file exactly when the target path holds no white space and neither class name nor diff
  path names another file first (`ExtractReport.NamesTheArtifactExactly`); when another file is named
  that is not there, the session is flagged (`ReadyGate.ExtractionReachesReadyExactly`).
- Paths are tested by `startswith` on the text of the root, without a separator, so a path into the
  tree of a sibling directory passes (`Artifacts.SiblingPassesTheTest`); a path that passes is inside
  the repository exactly when it is the root or a slash follows (`Artifacts.PrefixMeansInsideExactly`).
- The tool-call parser counts braces inside strings, so a call comes back exactly when its line's
  braces balance at the end only and it holds no closing tag (`ToolCalls.ListParsedExactlyWhenClean`).
- The bus tests a raw agent id against the JSON text of the readers, where everything but printable
  ASCII is escaped. Other ids are handed the same message again and again
  (`AgentBus.AtMostOnceExactly`). An id that occurs in another one, in either case of its letters,
  loses what the other one read (`AgentBus.ViewsAreExactExactly`).
- A poll from cursor 0 and a send can pass over messages that are then never shown;
  `History.ShownExactlyUnlessPassedOver` says which.
- The bridge stamps an unknown host state as DISCONNECTED and a commitment as it stands; the replay
  reads an unknown host as UNKNOWN and fills a short commitment up with zeros, so it reports broken
  links where nothing was changed (`GicWriter.ReplayAgreesExactly`). The bridge's own verifier hashes
  no octets for a missing commitment, where 32 zeros were stamped (`GicWriter.BridgeVerifiesExactly`).
- The replay's query names a column `commitment_hash` of the validation log; the bridge's schema keeps
  it with the rulings (`bridge/vapi_bridge/store/_core.py:1031-1043`,
  `bridge/vapi_bridge/store/agents.py:1313-1324`). The model takes each row with the commitment of its
  ruling. On a database without that column the query raises and the tool returns its error text.
- A GIC row whose hash is erased is not replayed. Erasing the last one goes unnoticed
  (`GicReplay.ErasedLastHashIsUnnoticed`); erasing an earlier one is found
  (`GicReplay.ErasedHashFlagsSuffix`).
- Once retries can run out, "at most one process holds the lock" is safe for at most two processes
  only (`LockFile.ExclusionExactlyForTwo`), and already with two of them one that gave up can write
  into the middle of the holder's entry (`LockFile.EntriesStayWholeExactly`); while retries do not run
  out, both hold for any number.

## Model

| member | source | states |
|---|---|---|
| GicReplay.GenesisInjective | qortroller_daemon.py:1951-1954 | tag, session id and 8-octet timestamp can be read back from the genesis text, for session ids of any length |
| GicReplay.PayloadInjective | qortroller_daemon.py:1956-1964 | previous digest, commitment of any length, verdict, host and timestamp can be read back from the link text |
| GicReplay.HeadCommitsToHistory | qortroller_daemon.py:1951-2007 | two chains of any lengths with equal heads have the same session id and the same encoded fields in every row, or two named preimages at aligned positions collide, or (for different lengths) a running digest of the longer chain begins with the genesis tag |
| GicReplay.HeadCommitsToEqualLengthHistory | qortroller_daemon.py:1951-2007 | for equally many rows: the histories are identical or two named preimages collide |
| GicReplay.FirstBroken | qortroller_daemon.py:2000-2003 | the result is the least 1-based index of a row whose stored hash is not the recomputed one, and none exactly when there is no such row |
| GicReplay.IndexOf | qortroller_daemon.py:2003 | the position of the first equal row, as `rows.index(row)` finds it |
| GicReplay.FullPass | qortroller_daemon.py:1989-2007 | the first loop computes the running digests, the head, the intact flag and the least broken index, and fails exactly when some row cannot be encoded |
| GicReplay.ForwardTo | qortroller_daemon.py:2012-2018 | the second loop arrives at the digest the full pass had at the first displayed row |
| GicReplay.WindowPass | qortroller_daemon.py:2020-2044 | the third loop marks the displayed rows as the full pass does and changes neither the intact flag nor the first broken index |
| GicReplay.WindowAt | qortroller_daemon.py:2020-2044 | each displayed line carries its 1-based index in the whole chain and is OK exactly when the full pass finds no mismatch there |
| GicReplay.SliceBound | qortroller_daemon.py:1985 | a slice bound is clamped into the list for every integer n, so the two slices at it split the rows |
| GicReplay.SelectedKeepsOrder | qortroller_daemon.py:1920-1927 | the query takes exactly the session's rows that carry a hash, in id order |
| GicReplay.Replay | qortroller_daemon.py:1920-2076 | the tool's report for every table, n and head hash: rows without a hash are not selected; no rows; failure when a selected row cannot be encoded; otherwise first broken row, head, head match and window of the chain |
| GicReplay.RunningIsDigestAt | qortroller_daemon.py:1989-2007 | the digests the loop chains forward are the nested hashes of the frozen formula |
| GicReplay.FlaggedExactly | qortroller_daemon.py:1996-2003 | a row is BROKEN exactly when its stored text is not the hex of the formula's digest there |
| GicReplay.UnencodableRaises | qortroller_daemon.py:1956-1964 | bad hex or a timestamp outside 8 octets anywhere stops the whole replay |
| GicReplay.StoredHashTamperIsLocal | qortroller_daemon.py:1920-2050 | in an intact chain, changing only row k's stored hash to any other hash flags row k and no other, and every report names k + 1 and the unchanged head |
| GicReplay.FieldTamperFlagsSuffix | qortroller_daemon.py:1956-2007 | changing row k's encoded fields and keeping the stored hashes flags every row from k on and none before, or two named preimages collide |
| GicReplay.FieldTamperIsReported | qortroller_daemon.py:1989-2070 | after such a change every report says broken at k + 1 and shows a head other than the stored one, or two named preimages collide |
| GicReplay.ErasedRowIsDropped | qortroller_daemon.py:1920-1927 | a row of an intact chain whose hash is erased is selected away, and only it |
| GicReplay.ErasedLastHashIsUnnoticed | qortroller_daemon.py:1920-2070 | erasing the last row's hash leaves an intact chain: every report says intact and shows the previous row's stored hash as head |
| GicReplay.ErasedHashFlagsSuffix | qortroller_daemon.py:1920-2070 | erasing an earlier row's hash flags every replayed row from that place on and none before, and every report names the place; or two preimages at aligned places collide, or the first digest begins with the genesis tag |
| GicReplay.ReportWindowExactly | qortroller_daemon.py:1984-2044 | for every n the window of a report is the slice `rows[-n:]`, each line with its number in the chain and OK exactly when its row is not flagged |
| GicWriter.ValidationLog.Adjudicate | bridge/vapi_bridge/session_adjudicator_validator.py:338-442 | one ruling appends one row, stamped with the digest over the session's latest stamp, or unstamped when it is not eligible or stamping raises |
| GicWriter.StampsExactly | bridge/vapi_bridge/session_adjudicator_validator.py:411-441 | after any history a ruling is stamped if and only if it is eligible, its commitment is missing or hexadecimal, and the stamp's time fits 8 octets |
| GicWriter.StampTimeExactly | bridge/vapi_bridge/session_adjudicator_validator.py:420-425 | the stamp's time is the clock's when that is later than every earlier stamp, and otherwise one more than the latest stamp of any session |
| GicWriter.RowsCarryTheRulings | bridge/vapi_bridge/session_adjudicator_validator.py:338-437 | row i carries ruling i's commitment, host and verdict under id i + 1, and its session when it is stamped |
| GicWriter.SessionIsStamped | bridge/vapi_bridge/session_adjudicator_validator.py:413-437 | over every history of rulings in any sessions, the stored hashes of a session are those of one chain: the genesis of its id and first timestamp, then each row's fields, whatever stamps of other sessions come between |
| GicWriter.SessionRowsAreOrderly | bridge/vapi_bridge/session_adjudicator_validator.py:420-437 | a session's stamped rows stand in one order by id and by strictly growing timestamp |
| GicWriter.EncodedAlikeExactly | bridge/vapi_bridge/grind_chain.py:20-86 | the replay encodes what was stamped, code tables and layout included, if and only if the host text is empty or known and the commitment is empty or at least 64 characters long |
| GicWriter.CodesAgree | bridge/vapi_bridge/grind_chain.py:22-37 | both code tables agree on every verdict, and on a host exactly when its text is empty or known; an unknown one is UNKNOWN on one side and DISCONNECTED on the other |
| GicWriter.ReplayAgreesExactly | qortroller_daemon.py:1931-2070 | for every history of rulings and every session: every report says intact with the last stamped hash as head if no row is misread; otherwise the replay fails, or exactly the rows from the first misread one on are flagged and every report names it, or two texts hashed at one place collide |
| GicWriter.GetGrindChainStatus | bridge/vapi_bridge/store/agents.py:1307-1391 | the bridge's loop chains the stored hashes, stops at the first that is not its own, and raises where the formula does |
| GicWriter.BridgeVerifiesExactly | bridge/vapi_bridge/store/agents.py:1338-1391 | for every history of rulings the bridge calls a session intact if every row has a commitment, and broken if one has none, or two named texts collide |
| PoacChain.FromBytes | app/vapi-dualshock-companion.py:165-210 | the offset walk returns each field at its wire offset, and fails exactly on a wrong length |
| PoacChain.U32Codec | app/vapi-dualshock-companion.py:185-189 | reading and writing a big-endian unsigned 32-bit field are inverse both ways |
| PoacChain.I64Decoded | app/vapi-dualshock-companion.py:186 | writing a read two's-complement 64-bit field gives its octets back |
| PoacChain.I64Encoded | app/vapi-dualshock-companion.py:186 | reading a written two's-complement 64-bit field gives its value back |
| PoacChain.ParseThenEncode | app/vapi-dualshock-companion.py:164-210 | every 228-octet string parses; the parsed fields encode to the 164-octet body, and body with signature is the input |
| PoacChain.EncodeThenParse | app/vapi-dualshock-companion.py:164-210 | encoding any record and parsing returns that record |
| PoacChain.ExportThenImport | app/vapi-dualshock-companion.py:1143-1145 | cutting the binary export of any chain every 228 octets and parsing gives the chain back |
| PoacChain.ImportThenExport | app/vapi-dualshock-companion.py:1143-1145 | a file can be cut and parsed exactly when its length is a multiple of 228, and then it is the export of what was read |
| PoacChain.BreaksExactly | app/vapi-dualshock-companion.py:1120-1122 | the break indices are exactly the records that do not link to their predecessor, ascending |
| PoacChain.BreakListIndices | app/vapi-dualshock-companion.py:1120-1130 | the verifier's entries carry exactly the break indices, with counter, expected and actual previous hash |
| PoacChain.ValidExactly | app/vapi-dualshock-companion.py:1132-1136 | the list of breaks is empty exactly when every record links to its predecessor |
| PoacChain.OnlineAgreesWithBatch | app/vapi-dualshock-companion.py:435-464 | after any notifications, malformed ones included, the handler has warned at exactly the indices the batch verifier reports; total = clean + cheat = chain length; the chain holds the well-formed notifications in order |
| PoacChain.ControllerManager.OnPoacNotify | app/vapi-dualshock-companion.py:435-464 | one notification changes chain, statistics and warnings as specified; a malformed one changes nothing |
| PoacChain.ControllerManager.VerifyChain | app/vapi-dualshock-companion.py:1113-1136 | length, list of breaks, and valid exactly when no record is unlinked |
| PoacChain.MonitorFromOctets | app/vapi-dualshock-companion.py:435-464 | over every notification sequence, octet by octet: the battery is octet 131 of the last well-formed one, the cheats are those whose octet 128 is 0x22 or more, and the verifier has one entry, in order, for each record whose first 32 octets are not the hash of its predecessor |
| PoacChain.EntriesFromOctets | app/vapi-dualshock-companion.py:1120-1130 | each entry carries the place, the counter in octets 132 to 135 big-endian, the hash of the predecessor as expected and the first 32 octets as actual |
| PoacChain.LastRecordCommitsToChain | app/vapi-dualshock-companion.py:234-239 | two fully linked chains of any lengths that end in the same record agree, counted from the end, on every octet the link hash covers, or two named preimages collide; for every covered width |
| PoacChain.CompanionChainsAreIdentical | app/vapi-dualshock-companion.py:234-239 | with the companion's 228-octet rule, chains of one length ending alike are identical or collide |
| PoacChain.WrittenRuleFixesBodies | README.md:458 | with the 164-octet rule the bodies agree or collide |
| PoacChain.UncoveredOctetsAreFree | README.md:458 | a chain that agrees with a fully linked one on the octets the link hash covers is fully linked too, whatever the rest; under the 164-octet rule the rest is the signatures |
| PoacChain.ForgedSignatureStaysLinked | README.md:458 | under the 164-octet rule the first record of any longer chain can be given any signature and the chain stays fully linked |
| PoacChain.NoBreaksIsFullyLinked | app/vapi-dualshock-companion.py:1120-1136 | the verifier reports no break exactly when the raw records are fully linked under the 228-octet rule |
| PoacChain.FlashFirmware | app/vapi-dualshock-companion.py:395-412 | the frames written are those of consecutive chunks; all ceil(len/240) of them on success, and otherwise the loop stopped at a refused write or an offset that no longer fits 32 bits |
| PoacChain.FramesTile | app/vapi-dualshock-companion.py:397-408 | a receiver that insists on contiguous offsets and on the announced lengths reassembles the written prefix, and the whole firmware from all frames |
| PoacChain.FrameParts | app/vapi-dualshock-companion.py:402-404 | a frame carries its offset, a length between 1 and 240 and that many octets of the firmware from that offset |
| CommitChain.CommitTextInjective | bridge/vapi_bridge/agent_commit.py:127-170 | the five arguments can be read back from the 144 hashed octets |
| CommitChain.DaemonCommitChain.GetLastCommitment | _daemon_tools_schema.py:794-806 | the last stored commitment, or 32 zero octets |
| CommitChain.DaemonCommitChain.RecordCommitment | _daemon_tools_schema.py:808-823 | appends one row, or refuses a commitment already stored and keeps the table |
| CommitChain.PositionNamesTheLink | qortroller_daemon.py:1642-1646 | the chain length shown in a review after storing is the place of its link in the chain, then and after any later calls |
| CommitChain.DaemonCommitChain.FinalizeCommit | qortroller_daemon.py:1558-1662 | the commit block changes table and link as specified, whatever step raises, a public key that is not hex included, and reports the new chain length |
| CommitChain.StoresExactly | qortroller_daemon.py:1569-1612 | behind any chain a call stores a link if and only if its public key is hex, its agent id has 32 octets, its time fits 8 octets, nothing fails before the row and its commitment is new; the link and the row are then those of the call, the hash of the 144 octets spelled out |
| CommitChain.EveryStorableCallIsStored | qortroller_daemon.py:1558-1612 | over every history the links and rows are those of the calls that bring what it takes, one each and in order, or at a named call its text collides with a stored link's or the head is all zeros |
| CommitChain.AllStorableAllStored | qortroller_daemon.py:1558-1612 | in particular there are as many links as calls when every call brings what it takes |
| CommitChain.ChainContinuity | qortroller_daemon.py:1558-1612 | after any sequence of finalize_plan calls the stored commitments are those of a chain whose links are each computed from their predecessor, the first from zeros, all distinct |
| CommitChain.CommitExtends | qortroller_daemon.py:1558-1612 | one call adds nothing or one link on the head and keeps what was stored |
| CommitChain.FailedStepKeepsTable | qortroller_daemon.py:1659-1662 | a call that fails before recording leaves the table alone; one that fails afterwards has stored as if it had not failed |
| CommitChain.ChainOnlyGrows | _daemon_tools_schema.py:808-823 | what is stored after n calls is a prefix of what is stored later |
| CommitChain.JunctionContinuesChain | _daemon_tools_schema.py:1474-1490 | at any point, the identity switch included, the earlier links stay and their head is the predecessor of the next link |
| CommitChain.LinkIdentity | _daemon_tools_schema.py:1474-1490 | a provisional link carries the hash of the public key, a canonical one the configured 32-octet id |
| CommitChain.HeadCommitsToLinks | qortroller_daemon.py:1584-1590 | two continuous chains of any lengths with equal heads have equal inputs link by link, or the texts of two aligned links collide, or (for different lengths) the longer chain holds an all-zero commitment |
| CommitChain.UniqueRefusesOnlyCollisions | _daemon_tools_schema.py:777-792 | the UNIQUE column refuses a well-formed new link only when a hash collision or a zero digest occurs |
| ToolCalls.ScanBraces | qortroller_daemon.py:680-690 | the brace loop returns the end of the block, or -1 |
| ToolCalls.BraceEndIsShortestBalanced | qortroller_daemon.py:680-690 | that end closes the shortest balanced prefix; -1 only when the braces never close |
| ToolCalls.FindSpan | qortroller_daemon.py:656-672 | the tag search returns the specified region |
| ToolCalls.ReadCall | qortroller_daemon.py:671-702 | a region's content yields the decoded call with a non-empty name, or none |
| ToolCalls.ParseToolCalls | qortroller_daemon.py:646-703 | the loop returns the calls of the regions in order and terminates |
| ToolCalls.NextSpanIsFirst | qortroller_daemon.py:656-672 | the region found starts at the first start tag and ends before whichever closing tag comes first; none is missed |
| ToolCalls.SpansAreComplete | qortroller_daemon.py:652-703 | on any text the regions considered are disjoint, in order and leave none over |
| ToolCalls.BlockIsShortestBalanced | qortroller_daemon.py:671-694 | the decoded text is the shortest brace-balanced text from the first brace of the stripped region, and is missing only when no brace closes |
| ToolCalls.ParseReadsTheSpans | qortroller_daemon.py:646-703 | the parser's result is what the regions yield, one after the other |
| ToolCalls.PrintNativeCalls | qortroller_daemon.py:612-629 | the content is replaced, only when it is blank and there are native calls, by one block per call in order |
| ToolCalls.PrintedBlock | qortroller_daemon.py:619-628 | the block of a native call, letter by letter: its name and the dumped value of its decoded arguments, the empty object only when its text does not decode |
| ToolCalls.NativeRoundTrip | qortroller_daemon.py:609-703 | with blank content, from the model's native calls to the parser's result: one call per native call, in order, with its name and decoded arguments, if and only if every line is clean; with other content the native calls are dropped |
| ToolCalls.RoundTrip | qortroller_daemon.py:612-703 | parsing the printed form of any list of calls with non-empty names and clean lines returns that list in order |
| ToolCalls.FirstBlockIsLineExactlyWhenClean | qortroller_daemon.py:612-703 | the parser cuts the printed line out again exactly when its braces first balance at its end and it holds no closing tag |
| ToolCalls.CallHasBlock | qortroller_daemon.py:656-700 | every call the parser returns for any text was decoded from a part of it between two braces past a start tag |
| ToolCalls.ParsedExactlyWhenClean | qortroller_daemon.py:612-703 | parsing a call's printed block returns exactly that call if and only if its line is clean, provided only that the line decodes to the call and no proper part of it does; otherwise the call is not among the results |
| ToolCalls.ListParsedExactlyWhenClean | qortroller_daemon.py:612-703 | parsing the printed blocks of any list of calls returns that list if and only if every line is clean, provided only that each line decodes to its call and no proper part of a line to any call of the list |
| ToolCalls.BalancedPartsAreClean | qortroller_daemon.py:619-627 | a call whose name and argument text have balanced braces and no `<` prints a clean line |
| ToolCalls.UnopenedBraceIsLost | qortroller_daemon.py:680-702 | a call whose arguments close a brace they have not opened is not among the parser's results |
| ToolCalls.BraceInStringIsLost | qortroller_daemon.py:680-702 | the smallest instance: a call whose argument is the JSON text of a lone closing brace is not among the parser's results |
| RateLimit.RateLimiter.Check | _daemon_tools_schema.py:445-482 | the answer of `can_call`: backoff, then per-tool windows, then global windows |
| RateLimit.RateLimiter.Record | _daemon_tools_schema.py:484-504 | one row for the tool, one for the global key, backoff reset |
| RateLimit.RateLimiter.RecordFailure | _daemon_tools_schema.py:506-525 | the error count and backoff of the tool, other tools unchanged |
| RateLimit.RateLimiter.PruneOldRecords | _daemon_tools_schema.py:527-535 | exactly the rows before the cutoff go, order kept |
| RateLimit.RateLimiter.ExecuteTool | qortroller_daemon.py:729-784 | refused calls change nothing; a returned text is recorded unless it starts with one of the three refusal prefixes; raised errors are recorded, the hard stop is not |
| RateLimit.RateBound | _daemon_tools_schema.py:438-504 | over every run with a clock that never goes back, every half-open window of 60 s, 3600 s or 86400 s anywhere in time holds at most 10, 100, 1000 recorded calls per tool and 30, 500, 5000 overall, however long calls take and wherever prunings happen |
| RateLimit.PruningIsInvisible | _daemon_tools_schema.py:527-535 | pruning at least one day back at any point changes no later record and no later answer |
| RateLimit.ShorterPruningIsVisible | _daemon_tools_schema.py:527-535 | with zero or negative days the limiter of a run that has used up a minute's budget forgets it |
| RateReference.LimiterAnswersFromThePast | _daemon_tools_schema.py:445-535 | over every clocked run and prunings of a day or more, every question is answered, reason included, as a limiter without tables answers it from all calls and errors of the past |
| RateReference.SameCallsAreRecorded | _daemon_tools_schema.py:484-525 | and the same calls are recorded; a success after errors ends their count |
| RateLimit.GlobalLedgerConserves | _daemon_tools_schema.py:484-504 | after any run over tools not named like the global key, each timestamp stands under the global key exactly as often as under the tools |
| RateLimit.BackoffHolds | _daemon_tools_schema.py:450-457 | while a tool is on backoff, whatever else runs, its attempts are refused and its backoff stays |
| RateLimit.ErrorsEscalate | _daemon_tools_schema.py:506-525 | n errors in a row leave the n-th backoff: 1 min, 10 min, 1 h, then 24 h |
| DiffOracle.ReconstructFromRemovalDiff | _daemon_tools_schema.py:1181-1193 | the loops return the kept lines of the split diff without their blank ends |
| DiffOracle.TrimIsTheMiddle | _daemon_tools_schema.py:1189-1192 | popping blank ends leaves exactly the middle between the blank lines |
| DiffOracle.KeptOfRender | _daemon_tools_schema.py:1184-1188 | for every diff the kept lines are what each line contributes on its own, in order |
| DiffOracle.PlainLinesContributeNothing | _daemon_tools_schema.py:1184-1188 | headings, hunk marks, context and added lines without further breaks contribute nothing, and neither does any other such line that does not start with `-` |
| DiffOracle.ReconstructsExactly | _daemon_tools_schema.py:1181-1193 | for every diff, whatever its lines are and hold, reconstruction gives the removed lines in order without blank ends if and only if no removed line starts with `--`, none that is left after trimming holds a break, the other lines contribute blank lines at most, and none of those stands between two non-blank removed lines |
| DiffOracle.SignatureIsKept | _daemon_tools_schema.py:1184-1188 | a diff that holds the signature line of `git format-patch` anywhere is never reconstructed right: the line contributes `- ` |
| DiffOracle.InnerBreakCutsTheLine | _daemon_tools_schema.py:1184 | a removed line that holds one of the other breaks `splitlines` knows is cut there |
| DiffOracle.ReconstructedAreLines | _daemon_tools_schema.py:1181-1193 | no reconstructed line holds a line break |
| Artifacts.MixinLineByLine | _daemon_tools_schema.py:1243-1266 | a mixin is its header (docstring for the class, future import) and then, line by line, the import lines its methods need, the line of that very class with its docstring, and the removed lines and nothing else |
| Artifacts.EmittedLineByLine | qortroller_daemon.py:3300-3325 | so is what an extraction emits, for the class asked for and the lines of its diff |
| Artifacts.BuildFixesTheLines | _daemon_tools_schema.py:1243-1266 | two rebuilt modules for one class and source are equal only for one list of lines, injected imports included |
| Artifacts.AcceptsExactlyTheRebuild | _daemon_tools_schema.py:1400-1431 | a mixin is accepted exactly when its diff removes something, it parses, and its text is the rebuild for its own first class, or those two texts have one digest |
| Artifacts.AcceptanceFixesTheLines | _daemon_tools_schema.py:1400-1431 | one artifact is not accepted against diffs that remove different lines, unless a rebuild collides with it |
| Artifacts.ExtractedIsAccepted | qortroller_daemon.py:3300-3346 | what `extract_with_diff` emits passes the check against its own diff when the parser's first class is the one asked for |
| Artifacts.ReportNamesTheArtifact | _daemon_tools_schema.py:1288-1321 | the pattern search finds the path a report names after its first tag |
| ExtractReport.ReportIsReadExactly | qortroller_daemon.py:3336-3347 | whatever class name, paths and method names hold, the search reads the tool's report part by part: it finds what it finds in the first of class name, diff path, artifact line, artifact path, target and method names that holds anything for it |
| ExtractReport.NamesTheArtifactExactly | _daemon_tools_schema.py:1295-1304 | what the check takes for the artifact is the emitted file if and only if the target holds no white space and the search finds nothing, or that very path, in class name and diff path |
| ExtractReport.PostCheckPassesExactly | _daemon_tools_schema.py:1347-1372 | after an honest extraction the check is the check of what the report names, and it passes the emitted artifact if and only if that is what the report names |
| ExtractReport.SpacedTarget | _daemon_tools_schema.py:1295-1302 | an instance of a target with white space in which the search finds nothing: a b.py |
| ExtractReport.ImitatingDiff | _daemon_tools_schema.py:1298 | an instance of a diff path that names a file of its own: `artifact:` and a word |
| OutputChecks.AcceptedExactly | _daemon_tools_schema.py:1379-1463 | the adversarial check accepts an artifact if and only if it exists and: a mixin proposal with its diff is the rebuild for its own first class (or collides with it), another diff starts like one, anything else is not blank |
| OutputChecks.RebuiltFor | _daemon_tools_schema.py:1410-1424 | the rebuild is made for the first class of the artifact, else the class asked for, else ExtractedMixin, with the store's core module as source |
| OutputChecks.EmitsExactly | qortroller_daemon.py:3296-3333 | an extraction emits a mixin if and only if its three arguments are there, the diff exists under the root's prefix and removes something, and the mixin parses; and under which path and with which text |
| OutputChecks.NotChecked | _daemon_tools_schema.py:1273-1285 | the automatic check does not run for other tools or on the texts that say a tool failed |
| OutputChecks.WrittenFileIsChecked | _daemon_tools_schema.py:1312-1344 | a written file is checked under its path with forward slashes: a Python file must parse, any other one must not be empty |
| OutputChecks.ProposedEditIsChecked | qortroller_daemon.py:1387-1397 | the report of an edit is read for its diff, which must exist under the root's prefix and hold ten octets |
| OutputChecks.ProposedFileIsChecked | qortroller_daemon.py:1126-1136 | the report of a proposed file is read for the proposal, which is judged by the kind of its target |
| Artifacts.EmittedIsVerified | _daemon_tools_schema.py:1347-1372 | an emitted artifact, left alone, passes the shape check expected of it |
| Artifacts.ExtractionPassesAdversarialCheck | _daemon_tools_schema.py:1379-1463 | and the adversarial check at any later moment at which its three files are as they were |
| Artifacts.PassedCheckMeans | _daemon_tools_schema.py:1347-1372 | a passed automatic check means a non-empty path whose resolved text starts with the root's, whose file exists and, tool by tool, parses, has five lines and the class, or has the least size |
| Artifacts.PrefixMeansInsideExactly | _daemon_tools_schema.py:1363-1364 | a resolved path is the root or below it if and only if it passes the `startswith` test and is the root itself or continues with a slash |
| Artifacts.SiblingPassesTheTest | _daemon_tools_schema.py:1363-1364 | a path below a sibling directory whose name extends the root's by a dash and any text passes the test and is not inside |
| Artifacts.AcceptedIsNotBlank | _daemon_tools_schema.py:1379-1463 | whatever the adversarial check accepts exists and is not blank, or collides with its rebuild |
| ReadyGate.Brain.GateVerdict | qortroller_daemon.py:1411-1452 | the loop over recorded artifacts decides the verdict as specified |
| ReadyGate.Brain.ExecuteToolInner | qortroller_daemon.py:1400-1672 | finalize_plan writes its review and stops, and a fault before or after the write becomes a text |
| ReadyGate.Brain.ExecuteTool | qortroller_daemon.py:729-784 | what one tool call does to flag, artifacts and reviews, and how it ends |
| ReadyGate.Brain.MakeCalls | qortroller_daemon.py:3535-3563 | one reply's calls run in order up to the first that does not return |
| ReadyGate.Brain.ProcessMessage | qortroller_daemon.py:3486-3617 | a message's turns, at most 80, a model call that raises included, its conversation entries and how it ends |
| ReadyGate.ReadyStandsExactly | qortroller_daemon.py:1411-1452 | the verdict that stands reads READY exactly when READY was asked for, no check has failed and every recorded artifact whose resolved path starts with the root's text passes now |
| ReadyGate.EveryReviewIsSound | qortroller_daemon.py:749-781 | over any tool calls of a session, a review that reads READY had every recorded artifact pass the test on the root's text and the adversarial check on the files of that moment |
| ReadyGate.FlagMeansFailedCheck | qortroller_daemon.py:749-776 | the fabrication flag is up exactly when some automatic check of the session failed |
| ReadyGate.NoReadyAfterFabrication | qortroller_daemon.py:1411-1418 | after a failed check no later review of the session reads READY |
| ReadyGate.HardStopOnlyFromFinalize | qortroller_daemon.py:1670-1672 | a call ends in the hard stop exactly when it is an admitted finalize_plan without fault, and then its review is written |
| ReadyGate.NoToolAfterHardStop | qortroller_daemon.py:3535-3606 | in a message every call but the last returned, and the message halts exactly when its last call is the hard stop |
| ReadyGate.ChatIsARun | qortroller_daemon.py:3486-3617 | the gate's state after any messages is that of the calls they made, one after the other |
| ReadyGate.ChatsAreSafe | qortroller_daemon.py:3486-3617 | over any messages: every READY review is backed by passing artifacts, and none is written after a failed check, in the same message or a later one |
| SessionHistory.GateIsItsHistory | qortroller_daemon.py:729-784 | over any calls of a session: the flag is up exactly when the check after some call failed, the recorded artifacts are those that were checked, in order, and there is one review for each call that writes one |
| SessionHistory.VerdictExactly | qortroller_daemon.py:1405-1452 | the verdict of every review of a session: as asked unless READY was asked; then BLOCKED_FABRICATION exactly when the check after an earlier call failed, BLOCKED_ADVERSARIAL exactly when none failed and a recorded artifact the gate does not skip fails on the files of that moment, and otherwise as asked |
| SessionHistory.MessageIsShown | qortroller_daemon.py:3486-3617 | the conversation after a message: the question; for every call that came back, in order, its reply, the tool's name, arguments and result; then the final reply or the notice that 80 turns were not enough; and which reply ended the message, how |
| SessionHistory.TurnsAreShown | qortroller_daemon.py:3500-3606 | the same after any number of turns, before the next reply is asked for |
| ReadyGate.ExtractionReachesReadyExactly | qortroller_daemon.py:749-781 | a session that extracts a class to any target and then asks for READY, files untouched, stops with a review that reads READY, as asked, if and only if the automatic check raised, or passed what the report names and the adversarial check passes it too; it is READY when the report names the emitted artifact, and flagged when it names another file that is missing |
| ReaderList.ListedIsHidden | vapi_managed_agents.py:340-357 | a reader in the stored list is recognised by the LIKE test when its id holds only printable ASCII without quotes and backslashes |
| ReaderList.ListedIsHiddenExactly | vapi_managed_agents.py:340-357 | among ids without quotes, backslashes and NUL a listed reader is recognised if and only if its id is printable ASCII |
| ReaderList.UnprintableIsNeverHidden | vapi_managed_agents.py:340-357 | an id that holds anything but printable ASCII is never recognised, whatever the list |
| ReaderList.AccentIsNeverHidden | vapi_managed_agents.py:340-357 | the smallest instance: the id of one accented letter, listed, is not recognised |
| ReaderList.InnerQuoteIsNeverHidden | vapi_managed_agents.py:340-357 | an instance of an id with a quote inside that is not recognised although listed |
| ReaderList.HiddenExactly | vapi_managed_agents.py:340-357 | a plain id counts as a reader if and only if it occurs, ignoring case, in the stored text of some entry |
| ReaderList.HidesIsMembership | vapi_managed_agents.py:340-357 | among substring-free plain ids the LIKE test is membership |
| ReaderList.SubstringIsHidden | vapi_managed_agents.py:340-357 | an id that occurs in any listed id, ignoring case, counts as a reader |
| AgentBus.AgentBusTable.BusPublish | vapi_managed_agents.py:287-326 | refuses unknown channels and raw fields, otherwise stores one row under the next key with a 24-hour expiry |
| AgentBus.AgentBusTable.BusRead | vapi_managed_agents.py:328-359 | purges, returns the answered rows as they were, and marks exactly those |
| AgentBus.AgentBusTable.MarkAsRead | vapi_managed_agents.py:347-357 | the update loop adds the reader once to each answered row and changes nothing else |
| AgentBus.DeliverySafety | vapi_managed_agents.py:287-359 | over every run of publishes and reads, with any purges and ties, a message never reaches an agent after expiry nor a non-addressee, and reaches an agent whose id is stored as it is at most once |
| AgentBus.MarksDoNothing | vapi_managed_agents.py:340-357 | for an id that holds anything but printable ASCII no read, its own included, changes what it sees |
| AgentBus.AtMostOnceExactly | vapi_managed_agents.py:328-359 | an agent whose id holds no quote, backslash or NUL is handed each message at most once in every run if and only if its id is printable ASCII |
| AgentBus.AtMostOnceAloneExactly | vapi_managed_agents.py:328-359 | for every id without NUL: an agent that is the only reader is handed each message at most once in every run if and only if its id is recognised in the list that holds nothing else |
| AgentBus.ViewsAreExactExactly | vapi_managed_agents.py:328-359 | for any set of plain ids: after every run by readers of the set each stored row is visible to each of them exactly as `VisibleExactly` says, if and only if no id of the set occurs in another one, ignoring case |
| AgentBus.VisibleExactly | vapi_managed_agents.py:328-359 | after every run by readers with substring-free ids a stored row is visible to an agent if and only if channel, addressee and expiry match and none of its own reads was handed it |
| AgentBus.ReadIsInvisibleToOthers | vapi_managed_agents.py:328-359 | among substring-free ids a read changes nothing any other agent can see |
| AgentBus.ReadRemovesPicked | vapi_managed_agents.py:328-359 | afterwards the reader no longer sees what it was given, and still sees the rest |
| AgentBus.ReadsDrain | vapi_managed_agents.py:328-359 | without new publishes each of an agent's reads of a channel with limit at least 1 lowers its number of unread messages there by the limit, whatever other agents and channels are read in between |
| AgentBus.CeilReadsDrainAll | vapi_managed_agents.py:328-359 | so ceil(k / limit) own reads drain k unread messages |
| AgentBus.EveryRunDrains | vapi_managed_agents.py:287-359 | and they do so after every run of publishes and reads by readers with substring-free ids |
| AgentBus.DrainLosesNothing | vapi_managed_agents.py:328-359 | each message visible at the start is handed to the agent by an own read, still visible or expired |
| AgentBus.ManagedAgentsAreSubstringFree | vapi_managed_agents.py:160-172 | the deployed agent ids satisfy the condition |
| BusPosts.PublishedExactly | vapi_managed_agents.py:298-309 | a message is taken exactly when its channel is one of the ten and none of its fields is one of the seven raw biometric ones |
| BusPosts.PostVisibleExactly | vapi_managed_agents.py:287-359 | from the publishing call on, over every run by readers with substring-free ids: a message taken at time t is visible to an agent on a channel if and only if no read purged it, the channel is the post's, the post is addressed to nobody or to that agent, it is earlier than t + 86400, and no read of the agent's own was handed it |
| BusPosts.DeliveredAsPosted | vapi_managed_agents.py:311-359 | whoever is handed a message is handed its sender, addressee, channel and payload, within 86400 seconds and addressed to it |
| BusPosts.EveryRowWasPosted | vapi_managed_agents.py:287-326 | every row and every delivery is that of a publishing call, numbered from 1 in order |
| BusPosts.ReadHandsTheNewest | vapi_managed_agents.py:338-345 | a read hands out waiting messages only, later ones first; when one stays behind the limit is used up and nothing handed out is older |
| History.MemoryStore.AddMessage | qortroller_daemon.py:474-491 | appends under the next id |
| History.MemoryStore.GetMessages | qortroller_daemon.py:493-504 | the scan returns the ids above the cursor in order, at most the limit |
| History.CliAgent.PollHistory | qortroller_cli_agent.py:586-609 | cursor and shown messages after one poll |
| History.CliAgent.Send | qortroller_cli_agent.py:358-415 | cursor and shown messages after one send, and a second send meanwhile is refused |
| History.CliAgent.constructor | qortroller_cli_agent.py:630-654 | the start-up cursor is the largest loaded id |
| History.StartIsConnected | qortroller_cli_agent.py:648-652 | that is the last stored id, so every client starts as the run theorems require |
| History.PollShowsInterval | qortroller_cli_agent.py:586-609 | a poll shows exactly the assistant messages of one interval of ids, which from a positive cursor begins at the cursor, and moves the cursor to its end |
| History.NoDuplicates | qortroller_cli_agent.py:358-609 | over every run of polls, sends and other parties' messages no stored assistant message is shown twice and the cursor never goes back |
| History.PollsDeliverInOrder | qortroller_cli_agent.py:586-609 | without sends and from a positive cursor, at every moment exactly the assistant messages between start-up and current cursor have been shown, in id order |
| History.PollsReachTheEnd | qortroller_daemon.py:3791-3815 | the 200-row page loses nothing: k polls cover 200 k later messages |
| History.ShownExactlyUnlessPassedOver | qortroller_cli_agent.py:358-609 | over every run of polls, sends and other parties' messages an assistant message after the start-up cursor and not beyond the current one has been shown if and only if no step passed over it: a send stored its reply beyond it, or a poll from cursor 0 began after it |
| History.StoreIsItsArrivals | qortroller_daemon.py:474-491 | after any run the store is the start store and every message added, in order, with its role and content under the next id |
| History.ShownWasAdded | qortroller_cli_agent.py:358-609 | whatever the client shows of messages that arrived in the run was added as a non-empty text of the assistant |
| History.PollShowsTheArrivals | qortroller_cli_agent.py:586-609 | a poll shows, in order, exactly such texts of its interval of at most 200 ids |
| History.SendSkips | qortroller_cli_agent.py:400-403 | a send moves the cursor past earlier messages it has not shown, and they are never shown afterwards |
| History.ZeroCursorSkips | qortroller_daemon.py:3811-3815 | from cursor 0 on a longer store a poll shows the latest page only and passes over the rest |
| LockFile.Acquire | vapi_wiki_engine.py:254-263 | the retry loop takes the lock at the first free attempt, or goes on without it after eight busy ones |
| LockFile.RunKeepsInv | vapi_wiki_engine.py:245-270 | the protocol invariant holds after any interleaving in which nobody gave up |
| LockFile.MutualExclusion | vapi_wiki_engine.py:245-270 | at most one of any number of processes is between create and unlink, and the lock file exists exactly when one is |
| LockFile.EntriesAreContiguous | vapi_wiki_engine.py:264-265 | the file is always a concatenation of whole entries and the growing part of the last one |
| LockFile.AllEntriesExactlyOnce | vapi_wiki_engine.py:245-270 | when all have finished the file holds every entry exactly once |
| LockFile.ExclusionExactlyForTwo | vapi_wiki_engine.py:245-270 | over all runs, give-ups included, at most one process ever holds the lock if and only if there are at most two processes |
| LockFile.ThreeCanMeet | vapi_wiki_engine.py:245-270 | for three processes or more, a run from the start in which two hold the lock |
| LockFile.EntriesStayWholeExactly | vapi_wiki_engine.py:245-270 | over all runs, give-ups included, nobody ever writes into the middle of another's entry if and only if no process with an entry of two characters or more runs beside one with anything to write |
| LockFile.UncutRunIsContiguous | vapi_wiki_engine.py:264-265 | in a run without such a write, whoever gave up, the file is whole entries of distinct processes and a first part of one more |
| LockFile.GiveUpBreaksExclusion | vapi_wiki_engine.py:261-270 | a process that gave up removes another's lock, and a third then enters beside it |
| LockFile.EightFailuresGiveUp | vapi_wiki_engine.py:254-263 | eight failed attempts against a held lock reach such a state |

## Left out

- HTTP, RPC, BLE, WebSocket, model, subprocess and git calls, report tools, dashboards, terminal rendering and persona snapshots: no local invariant.
- SHA-256, ECDSA and Ed25519 themselves; whether a commitment was signed does not affect the chain.
- Path classification, shell allow-list, threshold clamps, lint score, alert diffs and the methodology registry: single-branch facts.
- `json`, `ast`, `difflib` and the import detection are parameters; the round trip uses only that decoding a printed call gives it back, the artifact theorems only what the parser reports for one text.
- GicWriter.ValidationLog.Adjudicate: whether a ruling is eligible is a parameter (mode, capture state, divergence, gameplay, broken-chain flag), and so are the clock and the octets of its commitment; two stampings at once are not modelled.
- The GIC session id is its UTF-8 octets, and NULL and the empty value of a column are one value, as the source's `x or default` treats them; non-integer timestamps and a display time outside the platform's range, which end the replay in the same error text, are not modelled.
- IEEE 754 doubles in PoAC records are opaque 8-octet fields; the JSON form of the export is not modelled.
- Text timestamps on the bus are integers with a 24-hour expiry. The purge may remove any rows in the safety theorems and only expired ones in the drain theorems. `json_extract` is taken to return the stored list without white space between its items and with its escapes; agent ids with NUL, which ends an SQL text, are excluded.
- AgentBus.CeilReadsDrainAll: the agent's reads of the channel all have one limit; reads by others and of other channels are free.
- File contents are decoded text, so undecodable octets, line-end translation and read errors of existing files do not occur; an import detection or a parser that raises is a parser outcome.
- Arguments of tools are texts; a call with other values ends in an error text before anything recorded here.
- ReadyGate.Brain.ExecuteTool: the list of failure texts in the automatic check's note is not modelled; only its heading and verdict are.
- ReadyGate.Brain.ExecuteToolInner: the review's summary, plan table and proposal list are not modelled, only its verdict; a text that imitates a verdict heading inside the summary is not excluded.
- LockFile.MutualExclusion: runs without give-ups; what remains with them is `LockFile.ExclusionExactlyForTwo` and `LockFile.EntriesStayWholeExactly`.
- AgentBus.AtMostOnceExactly: ids with quotes or backslashes are covered for a single reader only (`AgentBus.AtMostOnceAloneExactly`); among several readers, what stands around such an id in the list can decide.
- AgentBus.ViewsAreExactExactly: ids that are not plain (wildcards, quotes, backslashes, commas, brackets, other than printable ASCII) are outside its set.
- History.NoDuplicates: the blocking command-line client; the poller of the Textual client can interleave with a pending send.
- One source function is sometimes several methods (the three loops of the replay, the parser's tag search and block reading, the bus's update loop), each proved against its own specification.
