# Verified models of the hub's hardest small algorithms

Dafny models of the repository's self-contained algorithms and protocols, with proofs of what
their documentation and tests promise. `dafny verify dfyconfig.toml` checks everything.

- **Citation relocation** (`scripts/hermes_restamp.py`): where the lines a review cited sit in a
  changed file. `Lines`, `Alignment` (`_region`), `WindowScan` (`_scan`), `Similarity` (the ratio of
  `difflib` it compares with), `Places` (`_spots`, `_choose`), `Ties` (when an answer has no unseen
  tie), `Citation` (`classify` and what it calls), `NothingGuessed` and `NoCopy` (the claims of its
  docstring, with an exact copy in the file and without), `Vouchers` (`_distinct`, `_vouched`),
  `GitLines` (`_git_lines`, `_overlaps`).
- **Blob framing and the review merge** of the same script: `Framing` (`_cat`), `ReviewMerge` (`stamp`).
- **The hand-over of the data root** between the runtime coordinator and a staged restore
  (`scripts/coordinator.py`, `agents/core/backup.py`): `HandOver`.
- **The respawn loop** (`scripts/runtime_supervisor.py`): `Supervisor`.
- **Component locks** (`lock.py`): `ComponentLocks`.
- **The manifest's canonical JSON** (`scripts/check_nerva_program_manifest.py`): `Json` (a reader by
  sections 2 and 7 of RFC 8259), `ManifestJson` (the printer undone by that reader), `ManifestLayout`.
- **The rate limiter and the chat stream** (`agents/web.py`): `RateLimit`, `ChatStream`.
- **Parity credit** (`scripts/hermes_status.py`): `Credit`.
- **Imported memory** (`scripts/nerva_import.py`): `PendingMemory`.
- **Smaller ones**: `Worklist` (`scripts/nerva_trusted_verifier.py`), `Percentile`
  (`scripts/export_partner_feedback.py`), `Versions` (`scripts/check_thirdparty_drift.py`).
- **Shared**: `Wrappers` (Option, Result), `Sorting` (the stable `sorted` of four of the modules),
  `Decimal`.

A loop of the source is a method proved against a specification function; an object it updates in
place is a class; the theorems are lemmas about those functions. Two concurrent processes or tasks
are atomic steps taken in any order. Floats are reals. Digests, `int()`, the kernel's verdicts and
clock readings are parameters, constrained only as stated. So is the ratio of `difflib` in the
theorems about the scan, which hold for every ratio its two quick ones bound; `Similarity` models
difflib's own and proves that bound.

Where the words of the code promise more than it does, the model follows the code, and lemmas give
the exact condition and an input that fails outside it:

- "ambiguous when another place scores within TIE of it": windows under CUTOFF are never scored, so
  an answer can have an unseen tie. The best window stands alone exactly when `_choose` sees no rival
  and no window under CUTOFF comes within TIE of it (`StandsAloneIff`); a place that scores CUTOFF +
  TIE or more rules the unseen ones out (`StrongMatchHidesNothing`). The cited line `abcdefgh`
  against `abcdexyz` and `abcdeuvwx` fails (`SomeLines`, `CutoffHidesATie`).
- "exceeds the per-minute limit": the caller passes the wall clock, and the table is cleared when it
  is full. At a given limit, all runs of at most n addresses under clocks that run back by at most
  some slack keep it exactly when the limit or n is zero, or n is at most 4096 and the slack is zero
  or the limit one (`LimitHoldsIff`). Every limit from two up has a run of one address that breaks it
  under a clock that runs back by however little (`ClockJumpExceedsTheLimit`), and every limit from
  one up a run of 4097 addresses under a clock that stands still (`ClearExceedsTheLimit`).
- "no exit status can make this loop spin" holds exactly for a positive starting delay
  (`SpinsOnlyWithoutDelay`).
- "cancellation-safe": while the client stays, a stream whose runner is over comes to wait for ever
  exactly when the runner queued neither an end nor an error (`HangsIff`), and that has one cause: a
  CancelledError that reaches the turn from elsewhere than the generator and is passed on before it
  queued one (`HangHasOneCause`, `CancelledTurnHangs`).
- `is_behind` is an order on versions that parse; on others two tags can each be behind the other
  (`BothBehindIff`, `FallbackIsNoOrder`).

## Model

| member | source | states |
|---|---|---|
| Lines.Agreement | scripts/hermes_restamp.py:377-392 | at most two neighbours agree, and two do exactly when the pinned neighbours are the window's |
| Alignment.AlignedMatches | scripts/hermes_restamp.py:453-456 | ordered equal blocks fill `kept` with a strictly monotone matching of equal lines |
| Alignment.RegionBounds | scripts/hermes_restamp.py:457-461 | the region's bounds never cross and lie in the file; a kept line sits inside it exactly when it was cited; each bound is the file's edge or next to a kept line outside the citation; anchored exactly when one exists |
| Alignment.FindRegion | scripts/hermes_restamp.py:450-461 | the loop computes that region, with lo <= hi inside the file |
| WindowScan.Try | scripts/hermes_restamp.py:487-498 | the two cheap upper bounds of the ratio change neither which windows are scored nor the floor |
| WindowScan.ScanRow | scripts/hermes_restamp.py:486-498 | one row of windows does its part of the pass, the floor carried over from the row before |
| WindowScan.Scan | scripts/hermes_restamp.py:464-499 | the nested loops with the rising floor compute the one pass over all windows, in order |
| Places.WindowsAreTried | scripts/hermes_restamp.py:485-487 | the windows tried are exactly those inside the stretch of one of the three lengths, or the whole stretch when it is shorter than one |
| Places.PassFinds | scripts/hermes_restamp.py:488-496 | without the rising floor a window is scored exactly when it is admitted and reaches CUTOFF |
| Places.PassAtLeast | scripts/hermes_restamp.py:469-470 | the rising floor drops no window within TIE of the best |
| Places.PrunedScanIsExact | scripts/hermes_restamp.py:464-520 | for every block, file, stretch and ratio `_choose` answers the same from the pruned scan as from the full one |
| Places.FindSpots | scripts/hermes_restamp.py:502-509 | the greedy loop over the sorted windows computes the places |
| Sorting.SortKeeps | scripts/hermes_restamp.py:506 | sorting loses and invents nothing |
| Sorting.SortIsStable | scripts/hermes_restamp.py:506 | among elements of equal keys the one that came first stays first: the result ascends in every finer order the input ascends in |
| Places.SortInOrder | scripts/hermes_restamp.py:506 | the order is best ratio, then the cited length, then the earlier window |
| Places.GreedyDominates | scripts/hermes_restamp.py:502-509 | the places are scored windows that never overlap, and every scored window overlaps or is a place of at least its ratio |
| Places.SpotsAtLeast | scripts/hermes_restamp.py:505-509 | the places at or above any ratio depend only on the windows at or above it |
| Places.ChooseTakesTheBest | scripts/hermes_restamp.py:512-515 | no scored window precedes the answer: none has a higher ratio, nor at that ratio a better length or an earlier start |
| Places.ChooseTakesTheLead | scripts/hermes_restamp.py:502-515 | at equal keys the answer is the shorter window, which the scan meets first: it leads every other in the whole order |
| Places.ChooseIsDecisive | scripts/hermes_restamp.py:512-520 | there is no rival exactly when every scored window away from the answer is more than TIE below it |
| Places.AnswerStandsOut | scripts/hermes_restamp.py:464-520 | of the pruned scan's answer, over all windows of the stretch: none scores higher, and it is alone exactly when all others that reach CUTOFF away from it are more than TIE below |
| Places.AnswerIsLead | scripts/hermes_restamp.py:464-515 | the pruned scan's answer is the one window that leads all that resemble the block, in terms of the input alone |
| Similarity.BestIsLongest | scripts/hermes_restamp.py:491-494 | the run difflib matches first is common to both texts, no common run is longer, and of the longest it is the earliest in the first text, then in the second |
| Similarity.QuickRatiosBound | scripts/hermes_restamp.py:492 | difflib's two quick ratios are never below its ratio, for texts and for lists of lines |
| Similarity.CommonBeginning | scripts/hermes_restamp.py:491-494 | a text that begins like another and goes on in characters of its own matches it in that beginning and nowhere else |
| Ties.StandsAloneIff | scripts/hermes_restamp.py:512-520 | for every search with an answer: the window that leads is the answer, and no window away from it is within TIE exactly when `_choose` sees no rival and no window under CUTOFF away from it is within TIE |
| Ties.StrongMatchHidesNothing | scripts/hermes_restamp.py:484-515 | when some window scores CUTOFF + TIE or more, an answer without rival stands alone |
| Ties.NearFarScores | scripts/hermes_restamp.py:482-494 | of a cited line and two others that begin with the same five characters: the exact ratios of the nearer, the farther and both joined (5/8, 10/17, 5/13) |
| Ties.SomeLines | scripts/hermes_restamp.py:482-494 | `abcdefgh`, `abcdexyz` and `abcdeuvwx` are such lines |
| Ties.CutoffHidesATie | scripts/hermes_restamp.py:484-520 | for all such lines the nearer is the answer without a rival although the farther is within TIE of it |
| Citation.HitsAreCopies | scripts/hermes_restamp.py:425 | the hits are the starts of all exact copies of the block, ascending |
| NothingGuessed.InPlaceFindsRivals | scripts/hermes_restamp.py:523-547 | rivals of a copy are found exactly when some place between the anchors (or anywhere, with both neighbours required) resembles the block and is flanked well enough, or the region is too wide to search |
| NothingGuessed.SingleAnswer | scripts/hermes_restamp.py:430-441 | a unique copy is placed exactly when both neighbours flank it or it has no rival; else the ambiguous list holds it |
| NothingGuessed.SoleFlanked | scripts/hermes_restamp.py:442-445 | of several copies one is left exactly when one only is flanked by both neighbours |
| NothingGuessed.PlacedIsExact | scripts/hermes_restamp.py:395-447 | "unchanged" and "moved" always name an exact copy that may be named, with the right word and the right `anchored` |
| NothingGuessed.PlaceableIsPlaced | scripts/hermes_restamp.py:395-447 | conversely a copy that may be named is named |
| NothingGuessed.CopiesAreNeverLost | scripts/hermes_restamp.py:400-417 | while a copy exists the answer is a copy or an ambiguous list holding every copy, never "edited" or "deleted" |
| NothingGuessed.RangesAreInside | scripts/hermes_restamp.py:384-592 | every range reported, placed or candidate, is non-empty and inside the current file |
| NothingGuessed.SortSpansAscends | scripts/hermes_restamp.py:440-589 | candidates are listed from the top of the file down |
| NoCopy.DecidePruned | scripts/hermes_restamp.py:573-592 | `_nearest` answers the same from the full scan |
| NoCopy.ChosenIs | scripts/hermes_restamp.py:512-520 | of a list of all places that fit: "edited" names the one that stands out, exactly when one does; otherwise the list holds the leading place, one for every place that ties, and no other |
| NoCopy.RewrittenLists | scripts/hermes_restamp.py:586-589 | a rewritten block's answer lists its stretch, one for every vouched place that ties, and no other |
| NoCopy.NearestMeans | scripts/hermes_restamp.py:568-592 | what `_nearest` answers, said without its scans, for every case |
| NoCopy.EditedIff | scripts/hermes_restamp.py:409-414 | "edited" exactly when no copy exists, the region is narrow enough to search, and one place stands out: of the region, or, when nothing there resembles the block and it was not rewritten there, of the whole file among the places two distinct unchanged lines vouch for; the answer is that place |
| NoCopy.DeletedIff | scripts/hermes_restamp.py:414-417 | "deleted" exactly when no copy exists, the region is narrow enough to search, nothing in it resembles the block, less than a third of its lines is left there, and no place elsewhere is vouched for |
| NoCopy.AmbiguousIff | scripts/hermes_restamp.py:414-417 | with no copy, "ambiguous" exactly when the region is too wide, no place of it stands out, the block was rewritten there, or no vouched place stands out; every place that ties is listed or overlaps a listed one that scores no less, and nothing else is listed but the region when it is too wide or rewritten |
| Vouchers.DistinctIsOneOfItsKind | scripts/hermes_restamp.py:550-553 | a line's text is distinct exactly when it is not blank and no other pinned line reads like it, whitespace aside |
| Vouchers.VouchedIff | scripts/hermes_restamp.py:556-582 | a place is vouched for exactly when two different pinned lines, each the only one of its text, vouch for it: a cited line found in it, or a neighbour that still flanks it |
| GitLines.TranslationKeepsLines | scripts/hermes_restamp.py:601-607 | a text has the same `splitlines()` with its newlines translated or not |
| GitLines.PiecesRebuild | scripts/hermes_restamp.py:610 | the pieces with their ends are the text again, one for each line |
| GitLines.PieceShape | scripts/hermes_restamp.py:610-612 | each piece starts with its line and holds a newline at its very end or not at all |
| GitLines.GitNumbers | scripts/hermes_restamp.py:601-612 | the loop gives each line the number of git's line on which it starts |
| GitLines.EveryCharacterIsThere | scripts/hermes_restamp.py:602-607 | every character of a line stands on the git line the loop gives it |
| GitLines.HunkIsKeptIff | scripts/hermes_restamp.py:595-598 | a hunk is kept exactly when it holds a git line on which a cited line stands; an insertion, exactly when it falls between two cited git lines |
| Framing.RecordAt | scripts/hermes_restamp.py:231-239 | at a record's start the first newline ends its header, the header splits into its words, the content is read by the stated size, and the next record follows |
| Framing.ReadRecord | scripts/hermes_restamp.py:230-239 | one turn of the loop notes the blob, if it is one, and moves to the next record |
| Framing.Cat | scripts/hermes_restamp.py:224-240 | from the concatenation of any found records (newlines in their bytes included) and missing ones the loop recovers exactly the blobs, and ends |
| Framing.BlobNames | scripts/hermes_restamp.py:234-239 | a name is found exactly when a record is a blob of that name |
| Framing.BlobContent | scripts/hermes_restamp.py:236-237 | with exactly the bytes of the last such record |
| ReviewMerge.LessIsTotal | scripts/hermes_restamp.py:897-900 | ids are compared by a total order |
| ReviewMerge.LessIsTransitive | scripts/hermes_restamp.py:897-900 | which is transitive |
| ReviewMerge.Merge | scripts/hermes_restamp.py:895-901 | the loop computes the merged list |
| ReviewMerge.UntouchedAreKept | scripts/hermes_restamp.py:890-919 | reviews not in the patch come out identical and in their order, sorted or not, so the check at the end cannot fire on the reviews |
| ReviewMerge.MergeAdds | scripts/hermes_restamp.py:895-901 | as a multiset the result is the list with patched rows replaced plus the reviews of unrecorded ids, once each |
| ReviewMerge.PatchIsStamped | scripts/hermes_restamp.py:896-901 | every patched review is in the result and no other review has its id |
| ReviewMerge.SortByIdInOrder | scripts/hermes_restamp.py:897 | the new reviews are put in by ascending id |
| ReviewMerge.OrderIsKept | scripts/hermes_restamp.py:893-901 | a list sorted by id stays sorted by id |
| HandOver.RestoreExcludesCoordinator | scripts/coordinator.py:176-225 | in no interleaving, kills and respawns included, is a restore past its look at the mark while a live coordinator has begun building |
| HandOver.LookThenMarkClashes | scripts/coordinator.py:184-199 | the order matters: a coordinator that looks before it marks can build under a restore |
| HandOver.DroppedMarkClashes | scripts/coordinator.py:190-195 | a built coordinator that clears its mark lets a restore begin under it |
| HandOver.LookThenJournalClashes | agents/core/backup.py:1538-1551 | a restore that looks before it journals can begin under a built coordinator |
| HandOver.OnlyTheSourceIsSafe | scripts/coordinator.py:176-225 | of the eight combinations of those three rules exactly the source's is safe |
| HandOver.RestoreIsNotStarved | agents/core/backup.py:1243-1254 | from any reachable state in which a restore is journaled, some schedule of at most two coordinator steps, none a kill, lets it get the root |
| HandOver.CoordinatorGivesWay | scripts/coordinator.py:197-222 | whatever one coordinator process then does: it takes at most six steps, and where it can go no further by itself it holds no live mark and the restore's look succeeds |
| HandOver.RespawnsGiveWay | scripts/coordinator.py:182-222 | the same with the supervisor's respawns: at most eight steps, and seven more for each kill and each exit because of open files, the only steps that can come again and again |
| HandOver.WaitingResumes | scripts/coordinator.py:207-216 | a waiting coordinator holds no mark; it cannot resume under a live journal, may go on waiting for a stage within its grace period, and with no live journal can resume and build in the same process |
| Supervisor.Supervise | scripts/runtime_supervisor.py:160-179 | the loop sleeps what the backoff sequence says, stops at a requested stop and fails at a negative delay |
| Supervisor.TakesTime | scripts/runtime_supervisor.py:58-64 | for a delay d > 0 and any exit codes and uptimes, i respawns take at least i * min(1, d) seconds |
| Supervisor.SpinsOnlyWithoutDelay | scripts/runtime_supervisor.py:58-64 | so the loop spins for some exits exactly when the starting delay is zero |
| Supervisor.BackoffDoubles | scripts/runtime_supervisor.py:167-176 | for 0 < d <= 60 the k-th crash in a row since the start, a yield or a long run sleeps exactly min(60, d * 2^k) |
| Supervisor.CeilingFromTheSecond | scripts/runtime_supervisor.py:174-176 | for d > 60 the first sleeps d and the later ones 60 |
| ComponentLocks.LockFile.constructor | lock.py:106-111 | no locks at first |
| ComponentLocks.LockFile.AutoReleaseStale | lock.py:64-74 | exactly the stale locks go, the others keep their order |
| ComponentLocks.LockFile.FindBlocker | lock.py:111-113 | the first lock of another entity whose path is a prefix of the path or has it as prefix |
| ComponentLocks.LockFile.AcquireComponent | lock.py:106-127 | result and whole new table of an acquire |
| ComponentLocks.LockFile.ReleaseComponent | lock.py:130-143 | result and whole new table of a release, forced or not |
| ComponentLocks.LockFile.CheckComponent | lock.py:146-153 | the lock named and the whole new table of a check |
| ComponentLocks.LockFile.ReleaseStaleLocks | lock.py:77-90 | the new table and how many component locks went |
| ComponentLocks.NoBlocker | lock.py:111-117 | a blocker is found exactly when some overlapping lock is another's |
| ComponentLocks.StepKeepsExclusion | lock.py:106-153 | each operation keeps one lock a path and no two entities on overlapping paths |
| ComponentLocks.ExclusionOverRuns | lock.py:106-153 | so does every sequence of operations at any clock readings |
| ComponentLocks.LockFate | lock.py:64-143 | an operation that reads the clock leaves no stale lock; an unexpired one goes only by its owner's or a forced release, and is rewritten only by its owner |
| ComponentLocks.AcquireIff | lock.py:106-127 | an acquire succeeds exactly when every unexpired overlapping lock is the entity's own |
| ComponentLocks.CheckAgreesWithAcquire | lock.py:146-153 | a check answers None exactly when anyone could acquire at that instant; the lock it names refuses everyone but its owner |
| ManifestJson.EscapeReads | scripts/check_nerva_program_manifest.py:819 | every escape sequence reads back as its character |
| ManifestJson.StringReads | scripts/check_nerva_program_manifest.py:819 | every quoted string reads back |
| ManifestJson.IntReads | scripts/check_nerva_program_manifest.py:832 | every integer reads back, before whatever may follow it |
| ManifestJson.DictIsKept | scripts/check_nerva_program_manifest.py:844 | an object with distinct keys is read with all its keys in order |
| ManifestJson.FormatRenders | scripts/check_nerva_program_manifest.py:810-832 | in every context the text of a value, in whichever layout, reads back as the value |
| ManifestJson.RoundTrip | scripts/check_nerva_program_manifest.py:810-832 | parsing what was printed gives the value, key order included, at every indent |
| ManifestJson.CollapseIsADict | scripts/check_nerva_program_manifest.py:844 | repeated keys collapse to distinct ones |
| ManifestJson.LoadedIsDict | scripts/check_nerva_program_manifest.py:844 | whatever is read has distinct keys in every object |
| ManifestJson.RewriteIsIdempotent | scripts/check_nerva_program_manifest.py:835-862 | the rewritten file reads as the document with its mirror refreshed, and rewriting it again changes no byte |
| ManifestLayout.OneLineIff | scripts/check_nerva_program_manifest.py:806-832 | a text has no line break exactly when the value is a scalar, empty, a list of scalars, or from the second level down an object of scalars of at most 220 characters |
| ManifestLayout.FormatIsABlock | scripts/check_nerva_program_manifest.py:813-831 | otherwise it is a block: every line between the brackets one level deeper, the closing bracket at its own level |
| ManifestLayout.FormatIsIndented | scripts/check_nerva_program_manifest.py:813-831 | no line is indented less than its value |
| RateLimit.RateHits.constructor | agents/web.py:372 | no hits at first |
| RateLimit.RateHits.RateLimited | agents/web.py:410-420 | the whole new table, and true exactly when the address's list exceeds the limit |
| RateLimit.TableIsCapped | agents/web.py:371-416 | in no run does the table hold more than 4096 addresses |
| RateLimit.TableIsHistory | agents/web.py:410-420 | after any calls the pruned list of every address is exactly its hits that no clear and no later cutoff dropped, in order |
| RateLimit.CountsIsRecent | agents/web.py:417-418 | under a clock that never runs back a hit counts exactly when it is at most 60 s old and no clear came since |
| RateLimit.WindowLetsLimitThrough | agents/web.py:410-420 | between clears no stretch of calls within one closed 60 s window lets more than the limit through |
| RateLimit.NoWindowExceedsTheLimit | agents/web.py:410-420 | so no closed 60 s of time does, with a clock that never runs back |
| RateLimit.NeverClearsIff | agents/web.py:413-416 | the table is never cleared exactly when at most 4096 addresses call |
| RateLimit.SmallLimitsAreKept | agents/web.py:417-420 | without a clear a limit of at most one is kept under every clock |
| RateLimit.ClockJumpExceedsTheLimit | agents/web.py:410-420 | for every limit from two up and every e > 0: a run of one address whose clock runs back by at most e lets one more than the limit through within one window |
| RateLimit.LimitNeedsARunningClock | agents/web.py:369-420 | at a given limit, of the clocks that run back by at most some slack all keep it while the table is not cleared exactly when the slack is zero or the limit at most one |
| RateLimit.ClearExceedsTheLimit | agents/web.py:413-416 | for every limit from one up: a run of 4097 addresses at one moment, the last of which clears the table, lets one more than the limit through |
| RateLimit.LimitHoldsIff | agents/web.py:369-420 | at a given limit, all runs of at most n addresses and at most some slack keep it exactly when the limit or n is zero, or n is at most 4096 and the slack is zero or the limit one |
| ChatStream.TokensInOrder | agents/web.py:1587-1720 | in every interleaving the tokens sent are an in-order prefix of those produced |
| ChatStream.EndIsLast | agents/web.py:1728-1738 | an end event is the last and only one and comes after everything queued before it |
| ChatStream.QuestionIsOnItsWay | agents/web.py:1599-1602 | while the client is served, a runner waiting for an acknowledgement has its question queued, in hand, or at the yield that gives it |
| ChatStream.LeavingEndsTheTurn | agents/web.py:1739-1750 | however the generator is left (after an end, by a disconnect, by an exception while an item is rendered), at most four steps remain in any order, and where none does it is closed and the runner over |
| ChatStream.ClosedMeansEnded | agents/web.py:1739-1750 | when the generator is closed the runner is over, and nothing but progress from other threads happens after |
| ChatStream.OnlyCancellingEndsTheTurn | agents/web.py:1571-1578 | of the ways to leave (cancel and wait; only wait; cancel after the loop, which a disconnect or an exception skips) exactly the first bounds every turn: with the others it can go on for as long as it likes |
| ChatStream.HangMeansNoEnd | agents/web.py:1717-1738 | the generator waits on an empty queue of a runner that is over only if that runner queued no end and no error |
| ChatStream.HangsIff | agents/web.py:1717-1738 | a served stream whose runner is over comes to wait so exactly when the runner queued neither |
| ChatStream.HangHasOneCause | agents/web.py:1689-1701 | a runner of a served stream ends so only by a CancelledError from elsewhere, before it queued an end or an error |
| ChatStream.CancelledTurnHangs | agents/web.py:1691-1692 | such a run: one token, the cancellation, and the client waits |
| ChatStream.EndIsDelivered | agents/web.py:1717-1738 | a queued end is delivered after all before it by the consumer's own steps |
| Credit.Assess | scripts/hermes_status.py:89-185 | accepted exactly when the reopenings and reviews keep the rules; each row is then the one its own records give |
| Credit.ReviewRows | scripts/hermes_status.py:150-185 | the same of the reviews' loop |
| Credit.RowOfReview | scripts/hermes_status.py:175-184 | a reviewed row is what its review and the files say |
| Credit.RowOfUnreviewed | scripts/hermes_status.py:108-149 | a row no review names keeps its baseline or reopened state |
| Credit.EquivalentIff | scripts/hermes_status.py:113-184 | a row is equivalent exactly when a current review says so and names nothing that remains, or nobody reviewed or reopened it and the audit kept it at parity or better |
| Credit.FewerMatchesLessCredit | scripts/hermes_status.py:167-184 | of two trees that both assess, the one with fewer matching files has a subset of the equivalent rows |
| Credit.FiguresAddUp | scripts/hermes_status.py:188-200 | the five counts add up to the total and the equivalent ones are the reviewed plus the inherited |
| PendingMemory.PendingStore.constructor | scripts/nerva_import.py:489-504 | no rows at first |
| PendingMemory.PendingStore.EnqueueFact | scripts/nerva_import.py:511-520 | queued exactly when the fingerprint is new; a known row is left as it is |
| PendingMemory.PendingStore.Transition | scripts/nerva_import.py:538-551 | done exactly when the row is there and pending and the new status is a decision; the whole new store |
| PendingMemory.PendingStore.PlanMemory | scripts/nerva_import.py:795-813 | the dry run: denied, already pending (never without a store) or would queue, the store unchanged |
| PendingMemory.PendingStore.Mediate | scripts/nerva_import.py:815-832 | the store and outcome of one fact: written only on a grant with a writer; on a grant without one or a queue verdict queued, or skipped when there is no pending store |
| PendingMemory.PendingStore.Memory | scripts/nerva_import.py:795-832 | the store after the import, each fact's outcome in the store as its turn finds it, and exactly which facts are written, in order |
| PendingMemory.MemoryFacts | scripts/nerva_import.py:696-708 | the facts of the readable files, each fingerprint at its first place |
| PendingMemory.AddFacts | scripts/nerva_import.py:704-707 | the same for one file's facts |
| PendingMemory.FreshIsOnePerFingerprint | scripts/nerva_import.py:698-707 | no fingerprint is read twice and none is missed |
| PendingMemory.RowsContinue | scripts/nerva_import.py:472-476 | over any operations no row is lost, no fact changes, and a decided row never changes |
| PendingMemory.ReimportChangesNothing | scripts/nerva_import.py:480-487 | importing the same facts again leaves the store as it is, whatever was queued, approved or rejected in between |
| PendingMemory.QueueOnlyProposesAll | scripts/nerva_import.py:568-574 | under queue-only every fact not refused is in the store, when there is one, after the import |
| PendingMemory.PlanComesTrueIff | scripts/nerva_import.py:795-832 | a fact's dry-run status comes true exactly when the contract refuses it or the import offers it to the pending store |
| Worklist.WithinBound | scripts/nerva_trusted_verifier.py:207-216 | the stack loop ends, and accepts exactly when no path of containers in the value is longer than 64 |
| Worklist.PathsAreShort | scripts/nerva_trusted_verifier.py:211-212 | no path is longer than the recursive height |
| Worklist.HeightIsReached | scripts/nerva_trusted_verifier.py:211-212 | some path is as long |
| Worklist.PopDecides | scripts/nerva_trusted_verifier.py:208-216 | replacing an entry by its children one level deeper keeps the verdict of the stack |
| Percentile.SortedSorts | scripts/export_partner_feedback.py:142 | the sorted copy is ascending and has the same values |
| Percentile.Lower | scripts/export_partner_feedback.py:143-144 | the lower index is the position's floor and inside the list |
| Percentile.BetweenNeighbours | scripts/export_partner_feedback.py:143-147 | the value lies between two adjacent order statistics |
| Percentile.IsAmongTheValues | scripts/export_partner_feedback.py:139-147 | two of the values hold it, and no value lies strictly between those two |
| Percentile.IsExactAt | scripts/export_partner_feedback.py:143-147 | at the position of a value the percentile is that value |
| Percentile.StepsAreEven | scripts/export_partner_feedback.py:143-147 | between two adjacent values equal steps of the percentile are equal steps of the result, both ends included |
| Percentile.PercentilesAreOrdered | scripts/export_partner_feedback.py:139-147 | a higher percentile is never lower, across integer positions too |
| Percentile.ArrivalOrderIsIrrelevant | scripts/export_partner_feedback.py:142 | values in any order give the same percentile |
| Percentile.EndsAreTheExtremes | scripts/export_partner_feedback.py:139-147 | percentile 0 is the least value and 100 the greatest |
| Versions.DottedJoins | scripts/check_thirdparty_drift.py:48-50 | splitting at dots gives back the parts that were joined |
| Versions.SuffixIsCut | scripts/check_thirdparty_drift.py:48 | whatever follows the first hyphen or plus is cut off |
| Versions.ParseReads | scripts/check_thirdparty_drift.py:45-52 | a tag of dotted parts, with any v's before it and any pre-release or build after it, reads as the numbers of its parts |
| Versions.PaddingIsIrrelevant | scripts/check_thirdparty_drift.py:61-64 | padding to any sufficient length compares by the first place where the numbers differ |
| Versions.BehindIsOlder | scripts/check_thirdparty_drift.py:55-64 | on tags that parse `is_behind` is that order |
| Versions.OlderIsTransitive | scripts/check_thirdparty_drift.py:61-64 | the order is transitive across lengths |
| Versions.NeitherIsOlder | scripts/check_thirdparty_drift.py:61-64 | neither is older exactly when the numbers agree at every place |
| Versions.SameNumbersAreSameTrimmed | scripts/check_thirdparty_drift.py:61-64 | that is, when the versions are the same without trailing zeros |
| Versions.StrictWeakOrder | scripts/check_thirdparty_drift.py:55-64 | on tags that parse: transitive, asymmetric, and level with each other exactly when equal up to trailing zeros |
| Versions.NeverBehindItself | scripts/check_thirdparty_drift.py:55-64 | no tag is behind itself, parseable or not |
| Versions.BothBehindIff | scripts/check_thirdparty_drift.py:58-60 | two tags are each behind the other exactly when one does not parse, both are given and they differ past their leading v's |
| Versions.FallbackIsNoOrder | scripts/check_thirdparty_drift.py:58-60 | two such tags |

## Left out

- difflib's floating point (its ratio is the exact quotient), the autojunk heuristic of the whole-file alignment (whose equal blocks are any ordered matching of equal lines), and the rounding of `similarity` to two places.
- `_place`, `_view`, `_hunks`' call of git and its parsing of the output, `drift`, `locate`, `whereabouts`: git and file access around the modelled logic.
- Framing.Cat: does not model output that breaks git's record format (a missing newline, a size that is no number), where the source raises.
- ReviewMerge.Merge: does not model malformed reviews (refused by the source), evidence pinning or the writing of the files; the frozen `scope_reopenings` are never assigned, so nothing is stated of them.
- HandOver.RestoreExcludesCoordinator: one coordinator and one restore process at a time (the supervisor and the apply lock see to that), pids never reused; both are state machines, not the coroutines. The hub's lock, the restore's own open files and the archive's checks only defer or fail a restore, and are the `Defer` step.
- Supervisor.Supervise: signals arrive between a child's exit and the check; a stop request during a sleep is seen at the next exit.
- The `.active` agent locks of `lock.py`, a corrupt state file, and interleavings inside one operation (load, change, save are one step).
- ComponentLocks.LockFile.ReleaseStaleLocks: counts component locks only, not agent locks.
- JSON numbers with a fraction or an exponent, lone surrogates, and keys that are not strings (the mirror of a contract without an id); the registry's reading and its digest come in as the mirror's value.
- The Markdown view, the exemptions of the rate limiter (localhost, valid tokens), and what the events of the chat stream carry.
- ChatStream.LeavingEndsTheTurn: a second cancellation, of the generator while it awaits the cancelled runner, is not a step; nor is a turn that swallows its CancelledError and goes on.
- Credit.Assess: the schema, inventory and timestamp fields of the header and the shape of names and hashes are not modelled; the text, path, code and test tests and whether a review's citations resolve are predicates of the files; ids are row numbers; percentages and reports are left out.
- `parse_memory_facts` and its bounds (any function from text to facts), the skills, persona and token sections, unknown statuses (a `ValueError`), SQLite itself.
- Worklist.WithinBound: the rejection of repeated keys and non-finite numbers happens in the JSON reader before the loop.
- Percentile.BetweenNeighbours: before the final `round(..., 1)`; p between 0 and 100, the only values the callers pass.
- Versions.BehindIsOlder: `int()` is a parameter, so what it accepts besides digits is not stated.
- The sources' own difference between pre-release and release (`1.2-rc1` parses as `1.2`): cut off by the code, and so by the model.
- The checks of the manifest's fields, `doctor`, reports, routers and command lines: each is settled by reading one branch.
