# Verified models of the bindings, the picker and the release calendar

This project models three stateful parts of the repository and proves what they keep over whole runs.

**The OpenCL C++ bindings** (`include/CL/cl.hpp`).
`OnceInit` and `OnceInitProgress` model `Context::getDefault` and `CommandQueue::getDefault` as interleaved atomic steps
of any number of threads, each with its own list of calls, under sequential consistency and in the build without
exceptions. `HandleAccounts`, `HandlePrograms`, `ReferenceCounting`, `WrapperRuns`, `InfoQueries`, `DeviceCounting` and
`DeviceRuns` model the reference-counting wrappers and the query helpers against a driver that counts references and
records every retain or release of a dead handle. `PlatformVersion` models the version parser, `ClVector` and `ClString`
the two containers, and `ContainerRuns` whole programs over several of them.

**The stable-branch picker** (`bin/pick`). `Commits`, `Nomination`, `FixPropagation`, `RevertCancellation`,
`GatheringCommits`, `Batches`, `PickSessions` and `UpdateOutcomes` model how new commits of main are nominated by concurrent
tasks, closed under "fixes", cancelled by reverts, listed, decided on and saved over any number of sessions. Tags in commit
messages and git's answers are fixed functions.

**The release calendar** (`bin/gen_calendar_entries.py`, `bin/post_version.py`). `Dates`, `Calendar`, `ReleaseNames`,
`Extension`, `ExtensionLaws`, `CalendarRuns` and `CalendarRows` model the table, its edits and its date arithmetic on
Gregorian dates.

`Options` and `Decimal` are shared. Objects whose fields the source updates are classes; each loop is proved against a
value specification, and the laws are proved of the specification.

Where the code and its own words differ, the model follows the code:

- The release start is documented as the second Wednesday; it is the Wednesday from the 11th to the 17th, which
  `Dates.SecondWednesdayIff` tells apart.
- Fixes are said to take precedence over reverts; a fix of a commit outside the branch is overridden by a revert tag that
  git can expand (`Nomination.RevertDecidesIff`).
- Fixes are said to be needed for commits staged for inclusion; a fix stays nominated when the commit it fixes is cancelled
  in the same update (`UpdateOutcomes.FixesAreNeededIff` says exactly when the promise holds).
- The string constructor with a size is said to accept null; with a positive size it reads from the pointer
  (`ClString.Construct`).
- The start value of the once-flag is given only in the build without atomics; what other values do is
  `OnceInitProgress.ExclusiveIff`.

Checking: `dafny verify dfyconfig.toml`.

## Model

| member | source | states |
|---|---|---|
| `OnceInit.WinningPreserves` | include/CL/cl.hpp:2689-2712 | Exactly the thread whose exchange meets the start value becomes the initialiser of that routine; the invariant of all threads survives. |
| `OnceInit.LosingPreserves` | include/CL/cl.hpp:2693-2704 | A losing thread waits while the flag says being initialised and reads once it says initialised; the invariant survives. |
| `OnceInit.OwnerStepPreserves` | include/CL/cl.hpp:2712-2726 | A step of an initialiser, however the other threads are interleaved, disturbs none of them. |
| `OnceInit.InitialiserPreserves` | include/CL/cl.hpp:5648-5675 | Creating, storing value, error and flag, in that order, keeps the invariant for both routines; a failed context leaves the queue null and passes the error on. |
| `OnceInit.ReaderPreserves` | include/CL/cl.hpp:2700-2710 | Waiting, reading and returning keep the invariant, also when the context routine returns into the queue initialiser. |
| `OnceInit.NextPreserves` | include/CL/cl.hpp:2687-2733 | Every move of every thread in every state keeps the protocol invariant of both nested routines. |
| `OnceInit.InitialiserRunsOnce` | include/CL/cl.hpp:2687-2733 | For any number of threads, any calls and any interleaving: each initialiser is entered at most once, constructs at most one object, and never holds two threads. |
| `OnceInit.FrozenOverRuns` | include/CL/cl.hpp:2720-2732 | Once a flag says initialised, flag, value and error never change again, over any continuation of the run. |
| `OnceInit.EveryCallerAgrees` | include/CL/cl.hpp:5623-5682 | Any two calls of one routine, by any threads at any two moments, return the same value and error, and these are what the one construction delivered, or null and the context error. |
| `OnceInit.MadeByMove` | include/CL/cl.hpp:2712-2720 | Only a move of a thread at the construction of a routine records one for it, with the value and error the driver delivers in that move. |
| `OnceInit.MadeIsDelivered` | include/CL/cl.hpp:5648-5675 | Over every run, every construction on record of either routine is the value and error of some move of a thread that stood at it. |
| `OnceInit.EveryAnswerIsDelivered` | include/CL/cl.hpp:5623-5682 | Over every run, a context call answers what the driver delivered for the context; a queue call what it delivered for the queue, or null and the error delivered with the context. |
| `OnceInitProgress.NoDeadlock` | include/CL/cl.hpp:5636-5675 | In every reachable state with an unreturned call some thread can do more than re-test its loop: the queue initialiser may wait for the context, never the reverse. |
| `OnceInitProgress.AdvanceSpends` | include/CL/cl.hpp:2700-2726 | Every such step strictly lowers a natural-number budget. |
| `OnceInitProgress.AdvancesAreBounded` | include/CL/cl.hpp:2687-2733 | No run of any length holds more productive moves than its start state has budget. |
| `OnceInitProgress.CallsAreKept` | include/CL/cl.hpp:5623-5682 | No step loses, repeats or reorders a call of any thread. |
| `OnceInitProgress.StuckMeansAnswered` | include/CL/cl.hpp:5623-5682 | A run that cannot advance has answered every call of every thread, once and in order. |
| `OnceInitProgress.FairRunsAnswer` | include/CL/cl.hpp:2687-2733 | Under every schedule that gives each thread a move in every round, sixteen rounds for every call made by anybody answer every call of every thread, once and in order. |
| `OnceInitProgress.OpenLetsTwoIn` | include/CL/cl.hpp:2851-2855 | From a start value such as the 0 of the atomics build, two callers both construct the context, and each returns the one it made itself. |
| `OnceInitProgress.ExclusiveIff` | include/CL/cl.hpp:2851-2855 | The protocol is exclusive over all runs exactly for the explicit start value and for values with one of the two upper bits set. |
| `ReferenceCounting.Runtime.Retain` | include/CL/cl.hpp:1708-1712 | The driver raises the count of a living handle; on a dead one it refuses and the misuse is recorded. |
| `ReferenceCounting.Runtime.Release` | include/CL/cl.hpp:1712-1714 | The driver lowers the count of a living handle; on a dead one it refuses and the misuse is recorded. |
| `ReferenceCounting.Wrapper.FromHandle` | include/CL/cl.hpp:1832-1834 | Wrapping a raw handle retains nothing: the count lacks exactly one reference until one is handed over. |
| `ReferenceCounting.Wrapper.Copy` | include/CL/cl.hpp:1841-1845 | Copying keeps every count equal to live holders plus owned raw references. |
| `ReferenceCounting.Wrapper.Move` | include/CL/cl.hpp:1848-1852 | Moving keeps conservation without touching any count. |
| `ReferenceCounting.Wrapper.Destroy` | include/CL/cl.hpp:1836-1839 | Destruction keeps conservation and never releases a dead handle. |
| `ReferenceCounting.Wrapper.CopyAssign` | include/CL/cl.hpp:1855-1863 | Release before retain is safe even when both wrappers hold the same handle; conservation holds. |
| `ReferenceCounting.Wrapper.MoveAssign` | include/CL/cl.hpp:1866-1874 | Move assignment keeps conservation and empties the other wrapper. |
| `ReferenceCounting.Wrapper.RawAssign` | include/CL/cl.hpp:1877-1882 | Raw assignment releases the old handle and leaves the new one short by exactly one reference. |
| `HandleAccounts.HolderKeepsAlive` | include/CL/cl.hpp:1855-1863 | Under conservation a holder keeps its handle alive, and two holders keep two references alive. |
| `HandleAccounts.TotalWorthCounts` | include/CL/cl.hpp:1205-1216 | The deficit of a list of raw handles is each counted non-null handle as often as the list holds it. |
| `HandleAccounts.NoLeak` | include/CL/cl.hpp:1836-1839 | When no wrapper is left, every count equals the raw references still owned. |
| `HandlePrograms.TallyIsMultiplicity` | include/CL/cl.hpp:1831-1882 | Counting live holders of a handle is counting it in the list of the program's variables. |
| `WrapperRuns.Program.Perform` | include/CL/cl.hpp:1831-1882 | Each operation does to the variables what it means, keeps conservation and misuses no handle. |
| `WrapperRuns.Program.CountsFollow` | include/CL/cl.hpp:1831-1882 | Each count is the occurrences of the handle in the program's wrappers plus the raw references owned. |
| `WrapperRuns.Program.Run` | include/CL/cl.hpp:1831-1882 | Over every legal program: variables hold what their operations say, counts match them, and no retain or release ever meets a dead handle. |
| `InfoQueries.GetInfo` | include/CL/cl.hpp:1309-1326 | Storing the queried handle and retaining it afterwards restores conservation; a failed query changes nothing. |
| `InfoQueries.GetDeviceInfo` | include/CL/cl.hpp:1309-1326 | The same for a device: the retain follows the flag the raw assignment has set; counted devices conserve, other counts are untouched. |
| `InfoQueries.DeviceVector.PushAllRaw` | include/CL/cl.hpp:1205-1206 | After the raw assignment the counts lack exactly the counted non-null devices stored. |
| `InfoQueries.DeviceVector.RetainAt` | include/CL/cl.hpp:1207-1216 | One turn of the loop pays for the device it visits if its flag says counted; the deficit is then exactly the counted ones after it, and no other count changes. |
| `InfoQueries.DeviceVector.RetainAll` | include/CL/cl.hpp:1207-1216 | At loop exit nothing is missing, no dead handle was retained, and devices nobody counts were never touched. |
| `InfoQueries.DeviceVector.GetInfo` | include/CL/cl.hpp:1190-1218 | The whole helper for a vector of devices: old elements are released, the new ones hold the delivered devices with the right flags, conservation holds; on an error nothing changed. |
| `DeviceCounting.DeviceWrapper.FromHandle` | include/CL/cl.hpp:1926-1933 | The flag is set right for the wrapped device; a counted device is short one reference, another is not. |
| `DeviceCounting.DeviceWrapper.Copy` | include/CL/cl.hpp:1940-1945 | Flags stay right, counted devices conserve, other counts are untouched. |
| `DeviceCounting.DeviceWrapper.Move` | include/CL/cl.hpp:1948-1954 | The flag moves with the handle; conservation holds. |
| `DeviceCounting.DeviceWrapper.Destroy` | include/CL/cl.hpp:1935-1938 | Only a counted device is released, and never at zero. |
| `DeviceCounting.DeviceWrapper.CopyAssign` | include/CL/cl.hpp:1957-1966 | Releasing under the old flag and retaining under the new one keeps flags right and counts conserved. |
| `DeviceCounting.DeviceWrapper.MoveAssign` | include/CL/cl.hpp:1969-1979 | Move assignment keeps flags right and counts conserved, other counts untouched. |
| `DeviceCounting.DeviceWrapper.RawAssign` | include/CL/cl.hpp:1982-1988 | Releasing under the old flag, asking about the new device. |
| `DeviceRuns.DeviceProgram.Run` | include/CL/cl.hpp:1903-2020 | Over every legal program: every flag equals the platform's answer for its device, counted devices conserve, and no other device's count ever changes. |
| `PlatformVersion.PackAdds` | include/CL/cl.hpp:1788 | Shifting by 16 and or-ing in a number of 16 bits adds it. |
| `PlatformVersion.GetVersion` | include/CL/cl.hpp:1772-1789 | On every conforming text the loops stay inside the buffer and 32 bits and return major * 65536 + minor. |
| `PlatformVersion.VersionTextConforms` | include/CL/cl.hpp:1771-1789 | Every printed "OpenCL M.m" text with M below 2^15 and m below 2^16, ended by space or NUL, conforms with its own two numbers. |
| `PlatformVersion.IsReferenceCountable` | include/CL/cl.hpp:1913-1923 | The answer is yes exactly for a device on a platform of at least 1.2. |
| `PlatformVersion.UseCreateImage` | include/CL/cl.hpp:3939-3940 | The second threshold draws the same line. |
| `ClVector.Vector.PushBack` | include/CL/cl.hpp:754-762 | Appends below capacity, otherwise nothing. |
| `ClVector.Vector.PopBack` | include/CL/cl.hpp:768-776 | Drops the last element, nothing on an empty vector. |
| `ClVector.Vector.Clear` | include/CL/cl.hpp:743-748 | Empties the vector. |
| `ClVector.Vector.Of` | include/CL/cl.hpp:796-802 | The contents are the repeated value, cut at capacity. |
| `ClVector.Vector.Copy` | include/CL/cl.hpp:782-788 | The copy has the contents of the original and storage of its own. |
| `ClVector.Vector.CopyFrom` | include/CL/cl.hpp:811-824 | Assignment, to itself too, gives the contents of the right side. |
| `ClVector.Vector.Resize` | include/CL/cl.hpp:869-888 | A prefix, or the contents padded with the fill; beyond capacity nothing. |
| `ClVector.Vector.Assign` | include/CL/cl.hpp:921-929 | The contents become the iterated range, cut at capacity, also for a range of the vector itself. |
| `ClVector.Vector.Equals` | include/CL/cl.hpp:830-842 | True exactly for equal contents. |
| `ClVector.Vector.Iterate` | include/CL/cl.hpp:945-1045 | From begin to end every element is visited once in order, and the loop ends for empty vectors too. |
| `ClVector.Vector.Back` | include/CL/cl.hpp:1062-1065 | The const form is the last element. |
| `ClString.String.FromBytes` | include/CL/cl.hpp:534-548 | The contents are the bytes given, terminated. |
| `ClString.Construct` | include/CL/cl.hpp:523-548 | On any arguments: it fails exactly when a positive size exceeds the bytes there are, so a null pointer makes the documented empty string exactly when the size is 0. |
| `ClString.String.FromTerminated` | include/CL/cl.hpp:555-568 | The contents are the bytes up to the first NUL; null gives the empty string. |
| `ClString.LengthFindsFirst` | include/CL/cl.hpp:559-561 | The length found is the place of the first NUL. |
| `ClString.String.Resize` | include/CL/cl.hpp:570-601 | A prefix or NUL padding, always terminated, every copy inside both buffers. |
| `ClString.String.CopyFrom` | include/CL/cl.hpp:619-648 | Assignment, to itself too, gives the contents of the right side in storage of its own. |
| `ClString.String.Copy` | include/CL/cl.hpp:654-659 | The copy has the contents of the original and storage of its own. |
| `ClString.String.Put` | include/CL/cl.hpp:608-611 | Writing one byte inside the contents changes that byte and keeps the terminator. |
| `ClString.String.CStr` | include/CL/cl.hpp:674-677 | The contents followed by a NUL. |
| `ContainerRuns.VectorProgram.Run` | include/CL/cl.hpp:722-929 | Over every legal program on any number of vectors, each holds the sequence its own operations and copies call for, never beyond capacity, and no operation on one shows in another. |
| `ContainerRuns.StringProgram.Run` | include/CL/cl.hpp:534-659 | Over every legal program on any number of strings, each holds the bytes its own operations call for, terminated, in memory of its own. |
| `Commits.JsonRoundTrip` | bin/pick/core.py:124-139 | Saving and loading any list of commits gives it back field by field. |
| `Commits.FileFormat` | bin/pick/core.py:69-139 | Every field is saved under its own name, the three reasons as 0 to 2 and the five resolutions as 0 to 4 in the order of the source. |
| `Commits.LoadsIff` | bin/pick/core.py:128-139 | A saved commit loads exactly when its numbers are such or absent; an absent resolution means unresolved; saving again gives the same entry. |
| `Nomination.NominationIs` | bin/pick/core.py:257-304 | A new commit is nominated exactly when it fixes a branch commit, is marked for the branch, or reverts a branch commit; and which of the reasons is recorded. |
| `Nomination.RevertDecidesIff` | bin/pick/core.py:268-304 | Of a commit with a known fix tag, the revert tag decides exactly when git knows it, the fix is of a commit outside the branch, and no mark applies. |
| `Nomination.RevertOverridesFix` | bin/pick/core.py:268-304 | A commit that fixes one commit and reverts another, both outside the branch, goes down as a revert. |
| `Nomination.AdvanceKeepsOutcome` | bin/pick/core.py:257-304 | Resuming a task at any of its waits does not change what it will make of its commit. |
| `Nomination.AlwaysOnTheWay` | bin/pick/core.py:348-361 | At every moment of every interleaving each slot is empty or holds the sequential result. |
| `Nomination.AnyOrderGivesSequentialResult` | bin/pick/core.py:341-365 | For every order in which tasks advance and complete, no slot is empty at the end and the list is the sequential result in input order. |
| `Nomination.FiveResumptionsSuffice` | bin/pick/core.py:257-304 | Every task ends after at most five resumptions, whatever runs in between. |
| `FixPropagation.NominateShape` | bin/pick/core.py:319-324 | The fix pass changes nothing but the nomination of fixes that were not nominated. |
| `FixPropagation.PassIsSound` | bin/pick/core.py:319-324 | Every set closed under fixing a member contains what the pass nominates. |
| `FixPropagation.PassIsComplete` | bin/pick/core.py:316-324 | What the pass nominates is closed, when batch commits name only older ones. |
| `FixPropagation.PassIsLeastFixpoint` | bin/pick/core.py:316-324 | The single pass computes exactly the least fixpoint. |
| `FixPropagation.NominatedIffChain` | bin/pick/core.py:316-324 | A commit ends up nominated exactly when it was, or a chain of fixes leads from it to a commit nominated in the batch or before. |
| `FixPropagation.OrderMatters` | bin/pick/core.py:313-321 | A fix placed before what it fixes is missed. |
| `RevertCancellation.FiresIff` | bin/pick/core.py:326-330 | A revert takes effect exactly when it is the newest one of some nominated commit of the batch. |
| `RevertCancellation.LoopMatches` | bin/pick/core.py:326-338 | What the loop has denominated at each position, told from the batch before it. |
| `RevertCancellation.CancellationIsExact` | bin/pick/core.py:326-338 | The loop denominates exactly each nominated commit some revert names and the newest revert naming it; every other commit is unchanged. |
| `GatheringCommits.FixPass` | bin/pick/core.py:316-324 | The loop over commit objects computes the fix pass and the set of nominated shas. |
| `GatheringCommits.RevertPass` | bin/pick/core.py:326-338 | The nested loop over commit objects computes the revert pass. |
| `GatheringCommits.ResolveFixes` | bin/pick/core.py:307-338 | Both passes in place, against the commits saved before. |
| `GatheringCommits.RunTasks` | bin/pick/core.py:348-363 | Running the tasks on commit objects under any complete schedule gives the sequential result. |
| `GatheringCommits.GatherCommits` | bin/pick/core.py:341-371 | The whole gathering equals its value specification and touches no earlier commit. |
| `GatheringCommits.GatheredFacts` | bin/pick/core.py:341-371 | Each gathered commit is the log's with all its message says, is nominated exactly while unresolved, and says why; one that is not nominated is denominated or not needed. |
| `GatheringCommits.NominateSplit` | bin/pick/core.py:316-324 | The fix pass over a batch is the pass over its older part, then over its newer part. |
| `GatheringCommits.BatchIndependence` | bin/pick/core.py:257-371 | Without reverts, two updates, older commits first, give what one update gives. |
| `GatheringCommits.RevertsMakeBatchesMatter` | bin/pick/core.py:326-338 | A revert that comes an update later leaves its commit nominated. |
| `Batches.DroppedAlikeIff` | bin/pick/core.py:326-338 | The revert loop treats the two parts of a batch as it treats them alone exactly when newer reverts of nominated older commits are harmless. |
| `Batches.PassesAgreeIff` | bin/pick/core.py:316-324 | After the first update has cancelled, the fix pass over the newer commits is the same exactly when none of their open fixes names a cancelled commit; otherwise some fix is nominated by one and not by the other. |
| `Batches.StrandedChains` | bin/pick/core.py:316-324 | Such a fix is there exactly when some commit had a chain of fixes before the first update cancelled and has none afterwards. |
| `Batches.BatchesAgreeIff` | bin/pick/core.py:307-371 | Reverts included: two updates agree with one exactly when no newer open fix names an older commit that the first update cancels, and newer reverts change the fate of no nominated older commit and of none of its reverts. |
| `Batches.PlainBatchesAgreeIff` | bin/pick/core.py:307-371 | When no newer revert is nominated itself, exactly when nothing newer fixes what was cancelled and nothing newer reverts what is nominated. |
| `Batches.CancelledTargetStrandsFix` | bin/pick/core.py:316-338 | A commit, its revert, and a later fix of it: gathered at once the fix is nominated beside its cancelled target, gathered later it is not, although no newer commit is a revert. |
| `PickSessions.NewEntriesAreTheRest` | bin/pick/ui.py:155-160 | An update finds exactly the commits of main that are not yet saved. |
| `PickSessions.UpdateCompletes` | bin/pick/ui.py:151-176 | After an update the list is main's whole history newest first: new commits, freshly sane, before the saved ones, untouched. |
| `PickSessions.ActsKeep` | bin/pick/core.py:149-203 | Deciding on commits never leaves one unresolved without a nomination, and keeps the list. |
| `PickSessions.LastActDecides` | bin/pick/core.py:149-203 | After any decisions a commit has the resolution of the last one about it, and is as it was if there was none. |
| `PickSessions.FileHoldsDecisions` | bin/pick/core.py:149-203 | In the file a session leaves, each commit stands under its sha with the number of the last decision about it, or as the update left it. |
| `PickSessions.EverySession` | bin/pick/ui.py:151-190 | Over any number of pushes and sessions: no gap, no repetition, saved commits stay in place with only resolutions changing, every commit sane, and after each session the list is complete. |
| `PickSessions.FromTheBranchPoint` | bin/pick/ui.py:151-190 | From the branch point on, without a saved list, over any pushes and sessions: the invariant, no commit twice, and after each session the whole history. |
| `PickSessions.WaitingSayWhy` | bin/pick/ui.py:68-70 | Every commit offered for a decision has the nomination type its display needs. |
| `PickSessions.WaitingShows` | bin/pick/ui.py:172-175 | The list shows exactly the nominated unresolved commits, each once, from the oldest to the newest. |
| `PickSessions.UI.Load` | bin/pick/ui.py:148-149 | One object per saved commit, or failure on an unknown number. |
| `PickSessions.UI.Update` | bin/pick/ui.py:151-176 | Loads, gathers, lists and saves as specified, in a fresh UI or again in the same one, where the new commits of the update before stay if main has nothing new; fails exactly when loading or git fails. |
| `PickSessions.RepeatedUpdateIff` | bin/pick/ui.py:162-172 | A further update in a UI that holds any new commits leaves main's history in the list exactly when main has gained commits or the UI held none. |
| `PickSessions.RepeatedUpdateDoubles` | bin/pick/ui.py:162-176 | After an update that found commits and any decisions, a further update with nothing new on main lists and saves exactly those commits twice. |
| `PickSessions.UI.ListWaiting` | bin/pick/ui.py:172-175 | Lists the nominated unresolved commits, oldest first, as the very objects that are saved. |
| `PickSessions.UI.Decide` | bin/pick/core.py:182-203 | Gives the commit at the position the resolution decided, leaves every other commit alone, and saves the whole list. |
| `PickSessions.RunSession` | bin/pick/ui.py:144-190 | A session through load, update, decisions and saves leaves the file the session specification gives, with every last decision in it. |
| `UpdateOutcomes.NewCommitsAreFresh` | bin/pick/ui.py:155-160 | On every reachable disk the commits an update finds have distinct shas, none of them saved. |
| `UpdateOutcomes.UpdateNominatesExactly` | bin/pick/core.py:307-371 | On every reachable disk, exactly which new commits end nominated: those nominated by their message or by a chain of fixes, less the nominated ones a new revert names and the newest revert of each. |
| `UpdateOutcomes.UpdateResolvesExactly` | bin/pick/core.py:326-371 | On every reachable disk each new commit is saved as denominated exactly when a new revert cancels it or it is the newest revert cancelling, else as unresolved if nominated, else as not needed. |
| `UpdateOutcomes.FixOfCancelledStays` | bin/pick/core.py:307-338 | A fix of a nominated commit that is cancelled in the same update stays nominated exactly when no revert names the fix. |
| `UpdateOutcomes.FixesAreNeededIff` | bin/pick/core.py:307-338 | On every reachable disk, each fix nominated for another commit has that commit nominated below it after the update, as documented, exactly when no new fix names a new commit that is cancelled while the fix is not reverted. |
| `UpdateOutcomes.FixWithoutTarget` | bin/pick/core.py:307-338 | A commit marked for the branch, its revert and its fix in one update: the fix ends nominated, the commit does not. |
| `UpdateOutcomes.GlanceMattersIff` | bin/pick/core.py:307-371 | On every reachable disk, exactly when running the picker once more before main gains commits makes no difference to the saved list. |
| `Dates.OrdinalOfNext` | bin/gen_calendar_entries.py:112-118 | The next day has the next day number, across months, years and leap days. |
| `Dates.OrdinalIsMonotone` | bin/gen_calendar_entries.py:215-217 | Day numbers order and identify dates. |
| `Dates.MonthLengths` | bin/gen_calendar_entries.py:85-96 | The twelve months have the lengths of the Gregorian calendar. |
| `Dates.FourCenturies` | bin/gen_calendar_entries.py:85-96 | Every 400 years have 97 leap days, and the leap years repeat. |
| `Dates.KnownWeekdays` | bin/gen_calendar_entries.py:88-91 | 1 March 1900 and 1 January 1970 were Thursdays, 29 February 2000 a Tuesday. |
| `Dates.ReleaseStart` | bin/gen_calendar_entries.py:80-96 | From the two version texts: the start date exactly for a major number of two digits and the first three quarters; failure for the fourth quarter and for all other texts. |
| `Dates.StartIsWednesday` | bin/gen_calendar_entries.py:80-96 | For every year and weekday the start is a Wednesday between the 11th and the 17th of January, April or July. |
| `Dates.SecondWednesdayIff` | bin/gen_calendar_entries.py:83-96 | The computed start is the documented second Wednesday exactly when the quarter begins after a Wednesday, otherwise the third. |
| `Dates.ThirdWednesdayStart` | bin/gen_calendar_entries.py:83-96 | The start of 24.0 is 17 January 2024, the third Wednesday and not the second. |
| `Dates.NextReleaseDate` | bin/gen_calendar_entries.py:122-142 | The date of the next release from today. |
| `Dates.NextReleaseIsWednesday` | bin/gen_calendar_entries.py:122-142 | From any weekday it is the same Wednesday, 3 to 9 or 10 to 16 days ahead. |
| `Calendar.UpdateCalendar` | bin/post_version.py:55-69 | Deletes the row of the version and hands its header down; deletes the last row if there is none; fails on an empty table and on a header without successor. |
| `Calendar.ReleaseTakesItsRow` | bin/post_version.py:55-69 | The first row of the version goes; rows above stay, rows below move up with all they say, the first under the header handed down; a version that stood once is gone; failure exactly for a last row with a header. |
| `Calendar.AbsentVersionTakesLastRow` | bin/post_version.py:55-69 | For an absent version the last row goes and every other row stays; an empty calendar fails. |
| `Calendar.AttributionKeptIff` | bin/post_version.py:61-69 | Every other row keeps its series exactly when the row has no header, or the next row has none, or the same one. |
| `Calendar.RemovalKeepsWellFormed` | bin/post_version.py:61-69 | Removing any row that can be removed keeps dates rising within blocks and on Wednesdays. |
| `Calendar.ReleaseKeepsWellFormed` | bin/post_version.py:55-69 | Every successful update for a release does, also for a version that is absent and for a block of one row. |
| `Calendar.DatesRise` | bin/gen_calendar_entries.py:112-118 | In a well-formed table the dates of a block strictly increase and its rows share a series. |
| `CalendarRuns.ReleaseCandidate` | bin/gen_calendar_entries.py:99-117 | From the text of the version file: appends the four weekly candidates with header and end note, or fails where the text has no release start. |
| `CalendarRuns.CandidatesOfDevelopment` | bin/gen_calendar_entries.py:102-104 | The version text of every branch of the first three quarters, with anything after its second dot, "-devel" and the end of the line included, gives the candidates of its own series. |
| `CalendarRuns.FinalRelease` | bin/gen_calendar_entries.py:145-161 | Appends the fortnightly releases from .0 or .1 to .3 with header and end note. |
| `CalendarRows.CandidateRows` | bin/gen_calendar_entries.py:99-117 | The rows appended for candidates: rc1 to rc4, 7 days apart from the quarter's start, header on the first and note on the last. |
| `CalendarRows.FinalRows` | bin/gen_calendar_entries.py:145-161 | The rows appended for a final series: .0 or .1 to .3, 14 days apart from the next release date, header on the first and note on the last. |
| `CalendarRuns.AppendKeepsWellFormedIff` | bin/gen_calendar_entries.py:145-161 | A block may be appended to a well-formed table exactly when it has a name, or begins after the last row. |
| `ReleaseNames.NameReadsBack` | bin/gen_calendar_entries.py:205-218 | A printed version is read back as the same kind and number, for candidates always, for releases when the series has no dash. |
| `ReleaseNames.CandidateIsRead` | bin/gen_calendar_entries.py:206-207 | Of any text that ends in "-rc" and digits, these are read as a candidate's number. |
| `ReleaseNames.ReleaseIsRead` | bin/gen_calendar_entries.py:211 | Of any other text, the digits between the last dot and the first dash, or the end, are read as a release's number. |
| `ReleaseNames.DashLosesTheNumber` | bin/gen_calendar_entries.py:211 | With a dash in the series, two different releases cannot both be read back. |
| `ReleaseNames.VersionIsRead` | bin/gen_calendar_entries.py:102-103 | Of a version text with two dots the first two parts are read, untouched by what the character-wise strip takes off the end. |
| `ReleaseNames.VersionIsReadIff` | bin/gen_calendar_entries.py:102-103 | A version text is read exactly when it has two dots. |
| `Extension.WriteNewRows` | bin/gen_calendar_entries.py:204-224 | The rows written at the insertion point: dates, names, manager, and the note on the last. |
| `Extension.TurnKeeps` | bin/gen_calendar_entries.py:177-194 | Each turn of the generator loop keeps what is written in step with the block found so far, or fails where extending fails. |
| `Extension.StandsOnceIff` | bin/gen_calendar_entries.py:177-198 | For a series with a name, the generator hands out a single row exactly when the header occurs once. |
| `Extension.Extend` | bin/gen_calendar_entries.py:166-224 | For any series name, also the empty one: the table with the block stripped of end notes and grown, exactly when the header stands once and the last version is readable; otherwise failure. |
| `CalendarRows.ExtendedRows` | bin/gen_calendar_entries.py:166-224 | Row by row: nothing outside the block changes, its rows lose at most an end note, and new row k is 7k days after the last for candidates and 14k for releases, with the next numbers, the manager, and the end note on the last one only. |
| `CalendarRows.ExtensionFailsIff` | bin/gen_calendar_entries.py:177-211 | Extending fails exactly when the header does not stand once or the last version has no readable number. |
| `ExtensionLaws.SpliceExtended` | bin/gen_calendar_entries.py:179-198 | Extending rewrites the block alone; what is before and after it stays. |
| `ExtensionLaws.GrownTwice` | bin/gen_calendar_entries.py:204-224 | Growing a block twice is growing it once: numbers and dates go on and the note moves. |
| `ExtensionLaws.ExtendTwice` | bin/gen_calendar_entries.py:166-224 | Extending by a and then by b is extending by a + b, for all tables with the header once. |
| `ExtensionLaws.DashBreaksExtension` | bin/gen_calendar_entries.py:205-218 | With a dash in the name of a series of releases, two extensions do not compose. |
| `ExtensionLaws.DashedSeriesDoesNotCompose` | bin/gen_calendar_entries.py:205-218 | A calendar with the release 22-x.0, extended twice by one, is not the calendar extended by two. |
| `ExtensionLaws.ExtensionsComposeIff` | bin/gen_calendar_entries.py:166-224 | Extensions compose for all counts exactly when the rows are candidates or the name has no dash. |
| `CalendarRuns.ExtensionKeepsAttribution` | bin/gen_calendar_entries.py:166-224 | Every old row keeps its series, and the new rows belong to that of the block they extend. |
| `CalendarRuns.ExtensionKeepsWellFormed` | bin/gen_calendar_entries.py:166-224 | Extending keeps dates rising within blocks and on Wednesdays. |
| `CalendarRuns.EditKeepsWellFormedIff` | bin/gen_calendar_entries.py:99-224 | Every edit that succeeds keeps the table in order, except a nameless series appended with too early a date, which never does. |
| `CalendarRuns.RunsStayWellFormed` | bin/gen_calendar_entries.py:80-224 | Over every run of appending, extending and working off any version, all dates are Wednesdays and each block's dates strictly increase. |
| `Decimal.ParsePrint` | bin/gen_calendar_entries.py:207-218 | Printing a number and reading it back is the identity. |

## Left out

- Weak memory ordering, and builds with exceptions, in which a throw would leave the once-flag at "being initialised".
- The reference counts of the default objects inside the once-protocol: it treats a handle as a value; the counts are modelled apart from it.
- Failing driver calls on living handles (out of resources): the wrappers discard such errors and conservation does not survive them.
- `InfoQueries.DeviceVector.GetInfo`: old elements are destroyed before new ones are made; a standard vector may interleave the two, with the same counts in the end.
- `Program::createKernels`, which copies kernels out of storage that is never destroyed, so that each keeps one extra reference.
- The mutable handle accessor of the wrappers, which bypasses counting.
- `PlatformVersion.GetVersion`: version texts outside the standard's form or its 16-bit halves, on which the source reads on or overflows.
- `ClVector.Vector.Back`: the non-const form of `back()`, which indexes one element too far; elements with destructors, which the vector destroys twice.
- Forwarding members of the bindings (enqueue, images, buffers, kernel functors) and all other headers.
- git subprocesses, locks and the commits that `save` starts without waiting for them; regular expressions and JSON and CSV text.
- `PickSessions.RunSession`: one update to a session, as the program starts; what a further one does is `PickSessions.UI.Update`. The failure of saving an empty list, which leaves the file as specified, is not modelled.
- `FixPropagation.PassIsComplete`: stated for batches that name older commits only, as main's history does; `FixPropagation.OrderMatters` shows why.
- `GatheringCommits.BatchIndependence`: stated without reverts; `Batches.BatchesAgreeIff` gives the exact condition with them.
- `Batches.BatchesAgreeIff`: older reverts naming nominated newer commits, which no history has, are not covered.
- `Extension.Extend`: the partly written file after a failure is not modelled. Numbers are unsigned digits, without the signs, blanks and underscores that Python's `int` also takes.
- Dates are values, not texts, and go past the year 9999, where Python fails.
- Widgets, release notes, documentation extensions, installers and scripts.
