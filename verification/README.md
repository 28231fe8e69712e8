# Verified models of the Aspia base library

This project models eight pieces of logic of Aspia's C++ base library (`source/base`) in Dafny and proves
what each of them is there for, over every input, every run or every interleaving.

| area | modules | main results |
|---|---|---|
| Windows service startup | `ServiceStartup` | two threads, one mutex, one condition variable: no deadlock, no lost wake-up, one order of states, bounded runs |
| settings files | `IniFormat`, `IniLines`, `IniReading`, `IniRoundTrip`, `IniValues`, `IniStore` | parsing agrees with a reading of the bytes of each line; printing then parsing is the identity exactly within three limits; whole runs of set, remove and sync |
| size-class allocator | `BucketAllocator` | blocks are partitioned into user blocks and free lists over every run; conservation of mallocs and frees |
| reference counting | `SharedPointers` | counts are exact, an object dies once and in the step in which its last handle leaves |
| SMBIOS dumps | `SmbiosTables`, `SmbiosStrings`, `SmbiosAdditionalInfo` | the walk against an encoder of sections 6.1.2, 6.1.3 and 7.41 of DMTF DSP0134; no read behind a table |
| event log paging | `JournalPaging`, `EventLogPaging` | whole sessions of page requests: when they deliver the log without gap or repeat, and how many records come again otherwise |
| crash reports | `CrashReport` | any chain of bounded appends is the longest prefix that fits, terminated |
| text | `Common`, `Bytes`, `Numerals`, `StringUtil` | trimming, Latin-1 to UTF-8, decimal and hexadecimal numerals read back |

Code that computes a value is a function here; code that changes state or loops over variables is a
method or a class whose contract ties it to such a function, and the properties are lemmas about the
function. Bytes are `Byte`, byte strings are `Text`; 16-, 32- and 64-bit arithmetic is written out where
it can wrap or be out of range. What the operating system, Qt, systemd or malloc answer is a parameter: whether a
file opens, at which section a write fails and whether it commits (`Saving`), the address malloc offers, whether the
journal stops at the entry of a cursor or beside it (`lands`) and where it goes for a cursor it does not have (`gap`),
whether a Windows query seeks (`seeks`), what the service dispatcher does (`Environment`), which thread
steps next and when a waiter wakes for no reason (`Action`).

## What turned out not to hold as documented

- Settings files: the validators let through exactly the values that the file gives back (`IniStore.SetterIsExact`),
  short of carriage returns, which they refuse, and of three limits. The setter promises that nothing gets into the file
  that would not survive the way through it (source/base/ini_file.cc:432), but it checks neither the line limit, nor the file limit, nor a first key
  that starts with the byte order mark. `IniRoundTrip.RoundTrip` shows that these three are exactly what is missing;
  `IniStore.MarkedKeyIsLost` is a concrete run of set and sync after which the file no longer gives the value back.
- Windows event log, records that do not render: they are skipped but not counted by the cursors, so each of them that
  lies before the last page makes another record come again. `EventLogPaging.SkippedRecordsRepeat` gives the exact
  condition for every session (every record before the last page renders) and the number of repeats otherwise;
  `NothingIsMissed` shows that there is never a gap; `SkippedRecordRepeats` is a log with a repeat.
- Windows event log, ends: `atOldest` comes one page late exactly when the oldest record is the last of a full page
  (`OldestFlagIsExact`, and `OldestFlagIsLate` for a log where it does). A NEWER page overlaps the page it was asked from
  exactly when fewer than `count` records are newer (`NewerOverlaps`), so that going newer page by page is exact only
  when the first count covers the log or the counts sum up to it (`NewerSessionIsExact`, and `NewerRepeats` for a log
  where a record comes twice).
- systemd journal: a client that asks often enough is told `atOldest` exactly when the journal has an entry
  (`JournalPaging.OlderWalkEnds`); on an empty one it never is.

## Model

| member | source | states |
|---|---|---|
| ServiceStartup.StepKeepsInv | source/base/core_service_win.cc:216-293 | every lock, write, notification, test, sleep, unlock or spurious wake-up of either thread keeps: who holds the lock, how far one thread can be ahead, the value and history of `startup_state`, the reports made, and that a sleeper still has reason to sleep |
| ServiceStartup.RunKeepsInv | source/base/core_service_win.cc:216-293 | the invariant holds after every run from a state that has it |
| ServiceStartup.ReachableInv | source/base/core_service_win.cc:378-411 | the invariant holds in every state that any interleaving reaches, for each answer of the dispatcher and of the registration |
| ServiceStartup.SleepersReallyWait | source/base/core_service_win.cc:264-287 | no lost wake-up: a sleeping thread's wait condition holds, or the other thread holds the lock and is about to notify |
| ServiceStartup.SomeThreadCanStep | source/base/core_service_win.cc:216-293 | no deadlock: until both threads are through, one of them can step without a spurious wake-up |
| ServiceStartup.StatesPassInOrder | source/base/core_service_win.cc:378-411 | the values of `startup_state` are always a prefix of the one path for the mode (service, console, error), and all of it at the end |
| ServiceStartup.RunningIsReportedLast | source/base/core_service_win.cc:280-292 | SERVICE_RUNNING is reported only after SERVICE_START_PENDING, after `onStart` has returned, and exactly in service mode with a registered handler |
| ServiceStartup.OnStartRunsOnce | source/base/core_service_win.cc:391-405 | `onStart` is called at most once, never after a dispatcher error, and otherwise runs to its end; exec fails exactly in the error mode |
| ServiceStartup.OnlyTheHolderWrites | source/base/core_service_win.cc:227-290 | `startup_state` changes only in a step of the thread that holds the lock |
| ServiceStartup.RunsAreShort | source/base/core_service_win.cc:378-411 | a run has at most 53 steps, plus three for each spurious wake-up in it |
| ServiceStartup.EveryRunCanFinish | source/base/core_service_win.cc:378-411 | from every reachable state the threads get through by steps of their own |
| ServiceStartup.MainMayOvertake | source/base/core_service_win.cc:262-268 | the race named in the comment is real: main can have set SERVICE_STARTED before `serviceMain` first looks for the end of SERVICE_MAIN_CALLED |
| IniFormat.FirstLine | source/base/ini_file.cc:471 | a line ends with its only line feed or with the file |
| IniFormat.SortedKeysAscend | source/base/ini_file.cc:544-555 | the order sections and keys are written in is strictly ascending from the least one |
| IniLines.ClassifiedMeans | source/base/ini_file.cc:487-537 | every line is taken for what its bytes mean: ignored when it is all whitespace or has `;` or `#` behind whitespace, a header or a pair when it has that shape with any whitespace around the parts, bad otherwise |
| IniLines.MeaningIsUnique | source/base/ini_file.cc:487-537 | and each line has only one of these meanings |
| IniReading.OneReadingOfAll | source/base/ini_file.cc:469-537 | every text has one reading, line by line, with the byte order mark of the first line left away |
| IniReading.LinesJoin | source/base/ini_file.cc:471 | cutting a text into lines loses nothing |
| IniReading.LineIsCut | source/base/ini_file.cc:471 | it is cut behind every line feed and nowhere else |
| IniReading.ReadTextMeans | source/base/ini_file.cc:452-539 | whatever the lines mean by their bytes: parse reports no error exactly when every line has at most 64 KiB and is blank, a comment, a good header or a pair, and no section has a key twice; then each pair is stored under its most recent header and nothing else is |
| IniReading.FeedingMeans | source/base/ini_file.cc:489-537 | the loop with its current section and its skip flag agrees with the declarative reading after every number of lines |
| IniReading.ErrorsStick | source/base/ini_file.cc:474-481 | an error or a line over the limit is never forgotten |
| IniReading.ClassifyIsValid | source/base/ini_file.cc:487-537 | names and values of a parsed line satisfy the invariant of stored ones |
| IniReading.ReadTextIsValid | source/base/ini_file.cc:452-539 | everything parse stores, even from a damaged file, satisfies the key, section and value invariant |
| IniRoundTrip.LinesOfJoined | source/base/ini_file.cc:471 | splitting into lines undoes joining them |
| IniRoundTrip.ClassifyPair | source/base/ini_file.cc:517-537 | a printed pair is read as that key and that value, also when the value holds an assignment |
| IniRoundTrip.ClassifyHeader | source/base/ini_file.cc:492-511 | a printed header is read as that section, brackets inside the name included |
| IniRoundTrip.FittingReadsBack | source/base/ini_file.cc:452-564 | within the limits parse(generate(m)) raises no error and gives m without its empty sections |
| IniRoundTrip.MarkLosesKey | source/base/ini_file.cc:483-485 | a first key of the unnamed section that starts with the byte order mark is never read back |
| IniRoundTrip.RoundTrip | source/base/ini_file.cc:452-564 | printing then parsing is the identity up to empty sections if and only if the lines fit, the file fits and the first key does not start with the mark |
| IniRoundTrip.NothingToWrite | source/base/ini_file.cc:542-564 | the generated text is empty exactly for settings without a value |
| IniRoundTrip.WrittenOut | source/base/ini_file.cc:549-557 | a single value is written as these bytes: the header if the section has a name, key, equals sign, value and line feed, and an empty line |
| IniRoundTrip.PairLineAt | source/base/ini_file.cc:554-555 | each pair is one line, in the order of the keys |
| IniRoundTrip.LeastComesFirst | source/base/ini_file.cc:544-561 | the section with the least name comes first, and then the rest as if it were all |
| IniValues.NumberReadsBack | source/base/ini_file.cc:178-325 | a printed number reads back through each of the six integer types exactly when it fits the type, and passes the validators |
| IniValues.NumberMeans | source/base/ini_file.cc:178-325 | whatever is in the file, a getter finds n exactly when the text is a sign that the type allows and n with any zeros in front, and the type can hold n |
| IniValues.BooleanReadsBack | source/base/ini_file.cc:358-379 | both booleans read back and pass the validators |
| IniValues.BooleanMeans | source/base/ini_file.cc:358-373 | two texts for each boolean and no others |
| IniValues.IsHex | source/base/ini_file.cc:71-86 | true exactly for an even number of hexadecimal digits |
| IniValues.BinaryReadsBack | source/base/ini_file.cc:382-405 | every byte string reads back from its hexadecimal text, which passes the validators |
| IniValues.BinaryMeans | source/base/ini_file.cc:382-398 | whatever is in the file, it is read as these bytes exactly when it is their hexadecimal text in upper or lower case |
| IniStore.StoredIsValid | source/base/ini_file.cc:430-449 | over every run of open, set, remove and sync, everything in memory satisfies the key, section and value invariant |
| IniStore.SetChanges | source/base/ini_file.cc:430-449 | the setter stores a storable value under its key and leaves every other value alone, does nothing at all for one that is not storable, and sets the change flag exactly for a value that was not there |
| IniStore.RemoveChanges | source/base/ini_file.cc:408-413 | removing takes away that value and no other, and is a change exactly when there was one |
| IniStore.SetterIsExact | source/base/ini_file.cc:53-68 | without carriage returns, a value on its own reads back from the file it is written to if and only if the validators accept it and it is within the limits |
| IniStore.SyncSaves | source/base/ini_file.cc:145-175 | sync goes through exactly when nothing failed; then nothing is unsaved and, within the limits, reopening finds every value and no other; otherwise file and flag are as before |
| IniStore.OpenedMeans | source/base/ini_file.cc:91-122 | opening fails exactly for a file that cannot be read, has more than 1 MiB or says something wrong in any line, and then gives nothing; else it gives what the lines say |
| IniStore.FailedReadIsNeverReplaced | source/base/ini_file.cc:145-153 | a file that failed to read is never replaced, whatever is set, removed and synced afterwards |
| IniStore.CleanReopens | source/base/ini_file.cc:91-175 | over every run: with no error and no unsaved change, reopening gives exactly the values in memory, if and only if a file that sync wrote was within the limits |
| IniStore.MarkedKeyIsLost | source/base/ini_file.cc:430-449 | a run of set and sync without error after which reopening does not give the value back |
| IniStore.ValueSurvives | source/base/ini_file.cc:145-175 | within the limits every value in memory is found again in the file synced from it |
| IniStore.SetIsStored | source/base/ini_file.cc:430-449 | a storable value is in memory once it is set and in the file once that is synced |
| IniStore.NumberComesBack | source/base/ini_file.cc:178-325 | a number set through its setter is got back by the getter of every width it fits, and the default by the others, from memory and after sync and reopen |
| IniStore.BooleanComesBack | source/base/ini_file.cc:358-379 | the same for booleans, whatever the default |
| IniStore.BinaryComesBack | source/base/ini_file.cc:382-405 | the same for byte strings |
| IniStore.NextChunk | source/base/ini_file.cc:471-485 | reading at most the limit and looking for a missing line feed before the end detects exactly the lines that are too long |
| IniStore.PairsBuffer | source/base/ini_file.cc:554-555 | the pairs of a section, in order, behind what is in the buffer |
| IniStore.SectionBuffer | source/base/ini_file.cc:549-557 | the text of one section |
| IniStore.IniFile.constructor | source/base/ini_file.cc:91-122 | the state after opening: empty and clean for a missing file; empty with the error flag for one that cannot be opened, is too big or is wrong anywhere; else the parsed settings |
| IniStore.IniFile.Parse | source/base/ini_file.cc:452-539 | the loop with its cached section gives the sections and the error flag of the functional reading that `ReadTextMeans` is about |
| IniStore.IniFile.TakeLine | source/base/ini_file.cc:487-537 | one line changes the sections, the flag and the current section as the reading says, and the cached section stays the current one |
| IniStore.IniFile.StorePair | source/base/ini_file.cc:527-537 | a pair is stored under the current section or reported when the key is there |
| IniStore.IniFile.Generate | source/base/ini_file.cc:542-564 | gives the text that `RoundTrip` is about, and fails exactly when the device does not take one of the sections that hold something, having written a part of that text |
| IniStore.IniFile.Sync | source/base/ini_file.cc:145-175 | replaces the file as a whole or not at all, clears the change flag exactly then, and never writes after a failed read |
| IniStore.IniFile.SetRawValue | source/base/ini_file.cc:430-449 | the new state, with the change flag set only by a value that is new |
| IniStore.IniFile.RemoveValue | source/base/ini_file.cc:408-413 | the new state, with the change flag set only when there was a value |
| IniStore.IniFile.SetNumberValue | source/base/ini_file.cc:197-325 | stores the decimal text that `NumberComesBack` is about |
| IniStore.IniFile.SetBooleanValue | source/base/ini_file.cc:376-379 | stores the text that `BooleanComesBack` is about |
| IniStore.IniFile.SetBinaryValue | source/base/ini_file.cc:401-405 | stores the hexadecimal text that `BinaryComesBack` is about |
| IniStore.IniFile.BinaryValue | source/base/ini_file.cc:382-398 | the decoded bytes, or the default when the value is missing or not hexadecimal |
| IniStore.IniFile.IsEmpty | source/base/ini_file.cc:133-142 | true exactly when sync would write an empty file |
| BucketAllocator.BucketFor | source/base/bucket_pool.h:153-161 | the first class that is large enough, and none exactly when all are too small |
| BucketAllocator.AllocateKeepsInv | source/base/bucket_pool.h:81-112 | allocation keeps: outstanding blocks are user blocks or in one acyclic free list, never both; list lengths equal the counters and stay within the caps; headers tell the class |
| BucketAllocator.DeallocateKeepsInv | source/base/bucket_pool.h:114-134 | so does returning a block or null |
| BucketAllocator.AllocateServes | source/base/bucket_pool.h:81-112 | null exactly for a size that cannot carry a header or when the free list and malloc have nothing; otherwise a block the user does not have yet, with room for header and request |
| BucketAllocator.HeaderTellsClass | source/base/bucket_pool.h:107-109 | the header of every block that is handed out, fresh or from a list, tells the first class that fits the request, and none exactly when all are too small |
| BucketAllocator.BlockSize | source/base/bucket_pool.h:99-109 | the block is as large as its class, or as header and request when no class fits |
| BucketAllocator.AllocateIsTight | source/base/bucket_pool.h:60-112 | with ascending classes no class that would fit is smaller than the block |
| BucketAllocator.AllocateUndoesDeallocate | source/base/bucket_pool.h:81-134 | a request of the class of a block that was just cached gets that block and restores the pool |
| BucketAllocator.DeallocateUndoesAllocate | source/base/bucket_pool.h:81-134 | a block taken from a free list and returned at once restores the pool, links and all |
| BucketAllocator.RunKeepsInv | source/base/bucket_pool.h:81-134 | the partition invariant holds in every state of every run of allocations and correct returns |
| BucketAllocator.ReturnedIsCached | source/base/bucket_pool.h:114-134 | over every run, a block that is given back goes to the list of the first class that fits it exactly while that is below its cap, and is freed otherwise |
| BucketAllocator.ReturnedIsReused | source/base/bucket_pool.h:81-134 | over every run, the next request of the class of a block that was cached gets that address, without a malloc |
| BucketAllocator.BlocksAreConserved | source/base/bucket_pool.h:81-134 | mallocs are frees plus user blocks plus the sum of the counters |
| BucketAllocator.SystemAllocator.FreeList | source/base/bucket_pool.h:71-77 | frees each block of a list once, reading its link before it is gone |
| BucketAllocator.SystemAllocator.FreeLists | source/base/bucket_pool.h:69-78 | the loop over the lists frees exactly the blocks in them |
| BucketAllocator.DrainStep | source/base/bucket_pool.h:69-78 | while the lists before it are freed, a list is still whole, without a block that is already gone |
| BucketAllocator.AllDrained | source/base/bucket_pool.h:67-79 | what is left once all lists are freed is what the user has, untouched |
| BucketAllocator.BucketPool.constructor | source/base/bucket_pool.h:61-65 | an empty pool that satisfies the invariant |
| BucketAllocator.BucketPool.FindBucket | source/base/bucket_pool.h:153-161 | the loop finds the class of `BucketFor` |
| BucketAllocator.BucketPool.Allocate | source/base/bucket_pool.h:81-112 | the transition that the lemmas above are about, with the invariant kept |
| BucketAllocator.BucketPool.Deallocate | source/base/bucket_pool.h:114-134 | the transition that the lemmas above are about, with the invariant kept |
| BucketAllocator.BucketPool.TakeBlock | source/base/bucket_pool.h:81-112 | the update of list head, counter and header, or the malloc |
| BucketAllocator.BucketPool.ReturnBlock | source/base/bucket_pool.h:114-134 | the push onto the free list below the cap, or the free |
| BucketAllocator.BucketPool.Destroy | source/base/bucket_pool.h:67-79 | exactly the user blocks stay outstanding, untouched; each cached block is freed once; mallocs minus frees ends as the number of user blocks |
| SharedPointers.DetachedKeepsInv | source/base/shared_pointer.h:179-191 | giving up a handle keeps: every counter equals the number of handles on it, handles share an object exactly when they share its counter, nothing deleted is alive or deleted twice |
| SharedPointers.AttachedKeepsInv | source/base/shared_pointer.h:43-49 | so does a handle joining another one |
| SharedPointers.OwningKeepsInv | source/base/shared_pointer.h:36-41 | so does taking over a raw pointer that no handle owns |
| SharedPointers.SwappedKeepsInv | source/base/shared_pointer.h:166-170 | so does swapping two handles, also when they share a block or are one |
| SharedPointers.ApplyKeepsInv | source/base/shared_pointer.h:29-170 | every operation keeps it, assignment to itself or between handles of one block included |
| SharedPointers.PointsWhereTold | source/base/shared_pointer.h:29-170 | after every operation each handle points where that operation says: a copy to what the other one has, a move to what the other one had with the other one null, a reset to the new pointer, a swap crosswise; all others as before |
| SharedPointers.CountsWhatIsTold | source/base/shared_pointer.h:29-191 | after every operation the count of each block follows from its users before, and the counter is gone exactly at zero |
| SharedPointers.DetachedDeletesLast | source/base/shared_pointer.h:179-191 | an owned object stays owned or is deleted, never both and never neither |
| SharedPointers.ApplyAccounts | source/base/shared_pointer.h:29-191 | no operation loses an owned object, deletes one nobody owns, or brings one back |
| SharedPointers.DeletesWhatIsLeft | source/base/shared_pointer.h:29-191 | an operation deletes exactly the objects that were owned before it and are not after it |
| SharedPointers.RunKeepsInv | source/base/shared_pointer.h:29-191 | the invariant holds in every state of every run |
| SharedPointers.CountsAreExact | source/base/shared_pointer.h:142-145 | `useCount` is the number of handles on the block, in every state of every run |
| SharedPointers.CountersLiveWithUsers | source/base/shared_pointer.h:179-191 | a counter is on the heap exactly while a handle uses it |
| SharedPointers.ObjectsLiveWithHandles | source/base/shared_pointer.h:43-191 | from the moment it is owned, an object is alive exactly while a handle owns it and is deleted exactly once, in the step in which the last handle leaves |
| SharedPointers.NothingLeaks | source/base/shared_pointer.h:137-140 | no counter is left when the last handle is gone |
| SharedPointers.SharedMemory.Release | source/base/shared_pointer.h:179-191 | the count goes down, and object and counter go exactly at zero; the handle itself is left as it is |
| SharedPointers.SharedMemory.Construct | source/base/shared_pointer.h:36-41 | the transition of the run model |
| SharedPointers.SharedMemory.CopyConstruct | source/base/shared_pointer.h:43-58 | the transition of the run model |
| SharedPointers.SharedMemory.MoveConstruct | source/base/shared_pointer.h:90-105 | the handle takes over and the other one is null |
| SharedPointers.SharedMemory.CopyAssign | source/base/shared_pointer.h:60-88 | release then attach is safe also when both handles are on one block: the count cannot reach zero in between |
| SharedPointers.SharedMemory.MoveAssign | source/base/shared_pointer.h:107-135 | release then take over, likewise |
| SharedPointers.SharedMemory.Reset | source/base/shared_pointer.h:150-164 | the transition of the run model, with and without a new pointer |
| SharedPointers.SharedMemory.Swap | source/base/shared_pointer.h:166-170 | the transition of the run model |
| SharedPointers.SharedMemory.Destroy | source/base/shared_pointer.h:137-140 | the handle is gone and its share with it |
| SmbiosTables.TableDataMeans | source/base/smbios_parser.cc:255-280 | the data of every dump with a length field, lowest byte first, is as much of it as is declared and there; nothing when there are more than 64000 bytes |
| SmbiosTables.ShortDumpHasNoTables | source/base/smbios_parser.cc:263-265 | a dump without a whole header has no tables |
| SmbiosTables.DoubleNullIsFirst | source/base/smbios_parser.cc:351-354 | the scan stops at the first two nulls in a row |
| SmbiosTables.AcceptedIsTable | source/base/smbios_parser.cc:326-365 | every table that is exposed lies wholly inside the clamped data: header, formatted area and strings, ended by its first double null |
| SmbiosTables.TableIsAccepted | source/base/smbios_parser.cc:336-364 | the converse: a table that lies in the data is accepted exactly when it is not the end marker, and the next one is looked for right behind it |
| SmbiosTables.EncodedIsTable | source/base/smbios_parser.cc:326-365 | every well-formed structure is encoded as a table, whatever its fields and strings |
| SmbiosTables.WalkVisitsTables | source/base/smbios_parser.cc:298-305 | the walk over tables laid out one behind the other visits those before the first end marker |
| SmbiosTables.VisitsWhatWasEncoded | source/base/smbios_parser.cc:255-305 | for any dump of well-formed structures the enumeration visits exactly those before the first type 127, in order, whatever is behind that marker |
| SmbiosTables.VisitedIsEncoded | source/base/smbios_parser.cc:255-305 | the i-th table visited in such a dump is the i-th structure, byte for byte |
| SmbiosTables.SmbiosTableEnumerator.constructor | source/base/smbios_parser.cc:255-280 | starts with all tables of the clamped data to come |
| SmbiosTables.SmbiosTableEnumerator.Validate | source/base/smbios_parser.cc:326-365 | exposes the table at the position exactly when it is there as a whole, else goes to the end |
| SmbiosTables.SmbiosTableEnumerator.Advance | source/base/smbios_parser.cc:298-305 | goes on to the next table, strictly forward, and stays at the end |
| SmbiosTables.SmbiosTableEnumerator.VisitAll | source/base/smbios_parser.cc:292-305 | the isAtEnd/advance loop sees each remaining table once and in order |
| SmbiosStrings.NullLeavesRoom | source/base/smbios_parser.cc:375-379 | a string that is not empty never ends at the second terminating null |
| SmbiosStrings.StrLen | source/base/smbios_parser.cc:377 | the length up to the first null, inside the table |
| SmbiosStrings.FindString | source/base/smbios_parser.cc:373-379 | for every number the walk stays inside the table and stops at the k-th string, or at an empty one when there are fewer |
| SmbiosStrings.SmbiosString | source/base/smbios_parser.cc:368-385 | the trimmed, re-encoded k-th string of the area, empty for number 0 and when there are fewer |
| SmbiosStrings.StringsOfEncoded | source/base/smbios_parser.cc:351-385 | the strings found behind an encoded structure are the ones that were put in |
| SmbiosStrings.StringsAreTheArea | source/base/smbios_parser.cc:368-385 | in every table, also one that no encoder made, the strings are what the string area starts with, each up to its null, until an empty one |
| SmbiosStrings.StringsOfDump | source/base/smbios_parser.cc:255-385 | string k of the i-th table visited in a dump of encoded structures is the trimmed, re-encoded k-th string of the i-th structure |
| SmbiosAdditionalInfo.EntriesAreAdjacent | source/base/smbios_parser.cc:3735-3758 | entries lie one right behind the other, each inside the declared length, no more than declared |
| SmbiosAdditionalInfo.EntriesStop | source/base/smbios_parser.cc:3743-3755 | the walk stops only at the declared number or where no further entry fits |
| SmbiosAdditionalInfo.Count | source/base/smbios_parser.cc:3735-3758 | the number of entries the table really holds |
| SmbiosAdditionalInfo.Entry | source/base/smbios_parser.cc:3812-3840 | found exactly for 0 <= index < count, where the counting walk passed it |
| SmbiosAdditionalInfo.Value | source/base/smbios_parser.cc:3791-3809 | the text that `ValueReadsBack` is about, and an empty one for a missing entry |
| SmbiosAdditionalInfo.ValueReadsBack | source/base/smbios_parser.cc:3791-3809 | "0x" and two upper case digits a byte, which read back as the value with the lowest byte first; empty for other widths and for a missing entry |
| SmbiosAdditionalInfo.LittleEndianFits | source/base/smbios_parser.cc:3803-3808 | the value of the bytes never needs more than two digits each |
| SmbiosAdditionalInfo.EncodedEntries | source/base/smbios_parser.cc:3735-3840 | encoded entries are all found, in order, with their values |
| SmbiosAdditionalInfo.EntriesReadBack | source/base/smbios_parser.cc:3735-3840 | in an encoded table of additional information every entry is found and nothing else, each with its value |
| JournalPaging.FlagsAreExact | source/base/event_enumerator_linux.cc:204-218 | on every page with records, atNewest and atOldest hold exactly when the newest or oldest entry is on it |
| JournalPaging.OlderWalkFrom | source/base/event_enumerator_linux.cc:151-218 | following lastCursor from any entry: no gap, no repeat, no empty page, and the flag comes with the oldest entry |
| JournalPaging.OlderWalkReadsAll | source/base/event_enumerator_linux.cc:112-219 | from the newest page with any positive counts: the pages are the newest entries in order, atOldest is said exactly when they are all, after at most one page an entry |
| JournalPaging.NewerWalkFrom | source/base/event_enumerator_linux.cc:139-218 | the same for following firstCursor towards the newest entry |
| JournalPaging.NewerWalkReadsAll | source/base/event_enumerator_linux.cc:112-219 | the mirror image from the oldest page |
| JournalPaging.NewerUndoesOlder | source/base/event_enumerator_linux.cc:112-219 | going older and then newer by the same count leads back to the very same page, flags and cursors included |
| JournalPaging.EmptyJournal | source/base/event_enumerator_linux.cc:124-138 | an empty journal sets only the flag of the end it was sought from |
| JournalPaging.OlderWalkEnds | source/base/event_enumerator_linux.cc:112-219 | with at least one request for each entry, the walk delivers the whole journal and ends with atOldest exactly when the journal has an entry |
| JournalPaging.PageIsSlice | source/base/event_enumerator_linux.cc:164-219 | every page with records is a run of neighbouring entries, with the cursors of its ends and flags that tell whether it reaches those of the log |
| JournalPaging.KnownCursor | source/base/event_enumerator_linux.cc:124-162 | where seeking a missing cursor leads matters for missing cursors only |
| JournalPaging.MissingCursor | source/base/event_enumerator_linux.cc:139-162 | a missing cursor acts as the neighbour on the other side of its gap would, so that nothing is skipped; if it cannot be sought the page is empty |
| JournalPaging.NothingAsked | source/base/event_enumerator_linux.cc:99-100 | a count of zero gives an empty page without flags |
| JournalPaging.EventEnumeratorLinux.constructor | source/base/event_enumerator_linux.cc:96-222 | the page of the request, whichever of the two entries a step after a seek lands on and wherever a missing cursor leads; nothing for count 0 or a journal that does not open |
| JournalPaging.EventEnumeratorLinux.PositionAtEnd | source/base/event_enumerator_linux.cc:124-138 | an empty cursor leads to an end of the log and sets its flag even when there is no entry |
| JournalPaging.EventEnumeratorLinux.PositionBehind | source/base/event_enumerator_linux.cc:139-162 | a cursor leads to the first entry strictly on the requested side, a missing one to the entry beside the gap, if it can be sought |
| JournalPaging.EventEnumeratorLinux.ReadPage | source/base/event_enumerator_linux.cc:164-219 | records newest first, cursors of the newest and oldest entry, and the flag of the end that was hit |
| JournalPaging.EventEnumeratorLinux.ReadEntries | source/base/event_enumerator_linux.cc:166-202 | up to count entries in reading order, and whether more follow |
| EventLogPaging.FromChars | source/base/event_enumerator_win.cc:173-174 | the number in front of the text when there is one that fits 32 bits, else 0 |
| EventLogPaging.DigitPrefixIs | source/base/event_enumerator_win.cc:173-174 | the number in a cursor ends at the first byte that is no digit |
| EventLogPaging.LastOffsetWraps | source/base/event_enumerator_win.cc:175-176 | only behind the last 32-bit offset the log starts again |
| EventLogPaging.HugeCountReadsNothing | source/base/event_enumerator_win.cc:212 | a count above INT_MAX turns negative and reads nothing |
| EventLogPaging.NothingAsked | source/base/event_enumerator_win.cc:167-168 | a count of zero reads nothing and is at no oldest record |
| EventLogPaging.PageIsPrefix | source/base/event_enumerator_win.cc:355-383 | a page is the first records that render from its start on, as many as were asked for |
| EventLogPaging.CursorReadsBack | source/base/event_enumerator_win.cc:170-188 | the offset read from a cursor is the one it was made of |
| EventLogPaging.FullOrAll | source/base/event_enumerator_win.cc:355-383 | a page is full and then does not reach behind the log, or it holds everything that is left |
| EventLogPaging.OlderStep | source/base/event_enumerator_win.cc:170-176 | the OLDER page from the lastCursor of a full page starts as many records further as that page asked for, without wrapping |
| EventLogPaging.OlderSessionPage | source/base/event_enumerator_win.cc:170-268 | page i of every session starts at the sum of the counts before it, whatever renders |
| EventLogPaging.SkippedRecordsRepeat | source/base/event_enumerator_win.cc:170-268 | over every OLDER session to the oldest record: the pages are the records that render, once each and in order, if and only if every record before the last page renders, and that page starts at the sum of the counts before it; otherwise one record comes again for each that does not render there |
| EventLogPaging.NothingIsMissed | source/base/event_enumerator_win.cc:170-268 | every record that renders is on some page, however many are skipped |
| EventLogPaging.OlderSessionReadsAll | source/base/event_enumerator_win.cc:170-268 | over every OLDER session with any counts: the pages are the newest records without gap or repeat, the whole log once atOldest is said, with at most one page more than records and no empty page before the last |
| EventLogPaging.NewestFlagIsExact | source/base/event_enumerator_win.cc:259-262 | on every page of a session atNewest is exact |
| EventLogPaging.OldestFlagIsExact | source/base/event_enumerator_win.cc:265-268 | on every page of a session atOldest is exact if and only if the oldest record is not the last of a full page |
| EventLogPaging.OldestFlagIsLate | source/base/event_enumerator_win.cc:265-268 | with one record and a count of one the newest page holds the oldest record and does not say atOldest |
| EventLogPaging.NewerUndoesOlder | source/base/event_enumerator_win.cc:170-188 | a NEWER request from a page reached by OLDER gives exactly the previous page; from the empty page behind the log it gives that page as the oldest one |
| EventLogPaging.NewerOverlaps | source/base/event_enumerator_win.cc:177-179 | a NEWER page stays clear of the page it was asked from if and only if at least count records are newer |
| EventLogPaging.NewerSessionIsExact | source/base/event_enumerator_win.cc:177-187 | a NEWER session from the oldest page to the newest, with any counts, gives the log if and only if the first count covers it or the counts sum up to it; it has at most one page a record |
| EventLogPaging.EqualPagesAreExact | source/base/event_enumerator_win.cc:177-187 | with one count for all pages that means that the log fits one page or fills whole ones |
| EventLogPaging.NewerRepeats | source/base/event_enumerator_win.cc:177-187 | with three records and a count of two the middle record is on both pages |
| EventLogPaging.SkippedRecordRepeats | source/base/event_enumerator_win.cc:373-381 | a log in which a record that does not render makes another one come twice |
| EventLogPaging.EventEnumeratorWin.constructor | source/base/event_enumerator_win.cc:162-215 | the start, the hint and the records to come, of every cursor text, direction and 32-bit count, also when the seek fails and the query stays at the newest record |
| EventLogPaging.EventEnumeratorWin.IsAtEnd | source/base/event_enumerator_win.cc:221-230 | true exactly when no record is to come; otherwise the first of them is ready, fetched once |
| EventLogPaging.EventEnumeratorWin.FetchNext | source/base/event_enumerator_win.cc:355-383 | gets the next record that renders if the page has one, and counts it |
| EventLogPaging.EventEnumeratorWin.Advance | source/base/event_enumerator_win.cc:233-238 | drops the record that was ready and no other |
| EventLogPaging.EventEnumeratorWin.Take | source/base/event_enumerator_win.cc:221-238 | one turn of the loop of a caller: the next record of the page, and whether another one follows |
| EventLogPaging.EventEnumeratorWin.ReadPage | source/base/event_enumerator_win.cc:221-268 | the caller's loop gets the page, and the counters then give its cursors and its flag |
| CrashReport.PrefixAppend | source/base/crash_handler.cc:429-432 | cutting what was already cut is cutting the whole |
| CrashReport.AppendString | source/base/crash_handler.cc:427-433 | the buffer holds, terminated, the first capacity - 1 characters of everything appended so far; nothing behind the capacity is touched |
| CrashReport.AppendDigits | source/base/crash_handler.cc:448-451 | the same with the digits of a scratch buffer that was filled from the last one on |
| CrashReport.AppendDec | source/base/crash_handler.cc:436-452 | the same with the decimal numeral of any 64-bit number |
| CrashReport.AppendHex | source/base/crash_handler.cc:455-462 | the same with "0x" and sixteen digits |
| CrashReport.Decimal64 | source/base/crash_handler.cc:438-446 | twenty digits are enough, so the scratch buffer does not overflow |
| CrashReport.AddressReadsBack | source/base/crash_handler.cc:457-459 | the sixteen digits are upper case and read back as the number |
| CrashReport.AppendAll | source/base/crash_handler.cc:491-505 | any chain of appends leaves the longest prefix of the untruncated text that fits, terminated |
| CrashReport.SignalReport | source/base/crash_handler.cc:491-507 | the report of the signal handler is never cut, for any signal, code (negative ones wrap to 64 bits) and address |
| CrashReport.ReportIsText | source/base/crash_handler.cc:495-505 | signal, code and address stand in their own lines of the report |
| CrashReport.ReportFits | source/base/crash_handler.cc:491-505 | its text never exceeds 511 characters |
| Bytes.TrimmedIs | source/base/string_util.cc:24-90 | whatever whitespace is put around a trimmed text, trimming finds the text |
| Bytes.TrimmedSplit | source/base/string_util.cc:78-90 | trimming takes away whitespace at both ends and nothing else |
| Bytes.SpacesAre | source/base/string_util.cc:24-27 | whitespace is the six characters of the source |
| Bytes.TrimmedFixpoint | source/base/ini_file.cc:55-58 | a text equals its trimmed form exactly when it starts and ends without whitespace |
| StringUtil.StrTrimmed | source/base/string_util.cc:78-90 | the two loops compute that trimming |
| StringUtil.StrFromLatin1 | source/base/string_util.cc:93-122 | the loop computes the encoding the next three rows are about |
| StringUtil.Latin1DecodesBack | source/base/string_util.cc:93-122 | the result is well-formed by the grammar of section 4 of RFC 3629 and decodes to the same code points, one for each byte |
| StringUtil.Latin1IsInjective | source/base/string_util.cc:93-122 | different byte strings give different texts |
| StringUtil.Latin1TrimCommute | source/base/string_util.cc:78-122 | trimming and re-encoding commute |
| StringUtil.StrHex | source/base/string_util.cc:125-147 | the text the next row is about, for every 64-bit value, width and case; the digit buffer does not overflow |
| StringUtil.HexTextReadsBack | source/base/string_util.cc:125-147 | reads back as the value; the width is a minimum, and exact when the value fits it |
| StringUtil.HexTextAlphabet | source/base/string_util.cc:127-133 | its digits are of the case that was asked for |
| Numerals.NumeralRoundTrip | source/base/string_util.cc:131-146 | a number printed in base 10 or 16 reads back |
| Numerals.DigitsOfAlphabet | source/base/string_util.cc:127 | the digits are those of the two alphabets of the source |
| Numerals.NumeralAlphabet | source/base/string_util.cc:127-136 | a numeral has digits of its base and case only |
| Numerals.NoLeadingZero | source/base/string_util.cc:131-136 | a positive number has no leading zero |
| Numerals.WriteDigits | source/base/string_util.cc:131-136 | the digit loop fills the buffer with the numeral from its last digit on, at least one digit, without overflow |

## Left out

- Service teardown, COM setup and control codes: outside the lock protocol, and calls into the system.
- Wait for `onStart` to return: it is assumed to terminate, and the dispatcher to call `serviceMain` once or to fail.
- Text-mode line endings, file permissions and the atomicity of QSaveFile: the file is bytes with line feeds, and a commit replaces all of it or nothing.
- Order and limits of `IniStore` runs: one object writes the file; another process changing it between operations is not modelled.
- QIODevice::readLine, QByteArray::number, toLongLong, toULongLong, toHex and fromHex: written out from their documentation for the texts that can be stored; the internals of Qt are not modelled.
- `stringValue` and the string setters: conversions between QString and UTF-8 around the raw value.
- IniStore.IniFile.Sync: the answers of the file system are parameters, and a partly written save file is not visible.
- Blocks of the rest of the process: the heap in `BucketAllocator` is what one pool has from malloc.
- Memory contents of the user in `BucketAllocator`: a block is its size and its two header words; address ranges do not overlap because the system hands them out so.
- The 32-bit range of reference counts, pointer adjustment in converting copies, and threads in `SharedPointers`; accessors that only return a field.
- SharedPointers.SharedMemory.Construct: raw pointers handed in must not be owned yet, and handles are not members of owned objects.
- SMBIOS field accessors, EDID and S.M.A.R.T. readers: a length check and a read at a fixed offset each.
- `value |= byte << 8 * i` and `0xC0 | b >> 6`: modelled as sums, since the bits do not overlap.
- The counting pass of `strFromLatin1`, which only reserves capacity.
- Journal calls that fail before the end of the log is reached.
- EventLogPaging.OlderSessionReadsAll: for logs in which every record renders; `SkippedRecordsRepeat` is for all logs. Counts above INT_MAX, which the source turns negative, read no record and are in no session.
- Rendering of records, journal fields and wide strings; logs that grow between two pages.
- Symbolisation, minidumps and signal disposition in the crash handler.
- `strCat`, `strJoin` and the remaining files of `source/base`: they would only add easy members.
