# Home server services, modelled and proved in Dafny

This project models the state-keeping C components of the home server: the file system's block and inode
allocator, the round-robin scheduler, the backup table, the physical frame allocator, the Internet checksum,
the firewall and its user table, and the monitor's log and metrics. It proves what these components keep over
whole runs and, where the code does less than one would expect, exactly when it does what is expected.

Each component that changes tables in place is a class whose methods are proved against functions on a plain
description of the state (`FsState`, `Sched`, `Store`, `FrameState`, `FwState`, `Accounts`, `Ring`,
`seq<Metric>`). Those functions take the same branches as the C code, including its 32-bit wrap-around, its
error returns and its behaviour on ids and pointers nobody checked. The lemmas are about those functions.

| files | component |
|---|---|
| `Machine.dfy`, `Sequences.dfy` | unsigned 16-, 32- and 64-bit arithmetic, written out; lists of different values as sets |
| `FreeSlots.dfy`, `ByteBitmap.dfy`, `WordBitmap.dfy` | bitmaps packed in bytes and in words as sets of slots, and first-fit search |
| `FileSystem.dfy`, `FileSystemRuns.dfy`, `FileSystemCalls.dfy`, `FileSystemLeaks.dfy` | blocks, inodes, ownership, stale deletes and lost blocks |
| `Scheduler.dfy`, `SchedulerRuns.dfy` | task list, cursor, safety and bounded waiting |
| `Backup.dfy`, `BackupRetention.dfy`, `BackupRuns.dfy`, `BackupHistory.dfy`, `BackupSpacing.dfy` | backup table, cleanup, what each listed backup records, when the schedule makes one |
| `FrameAllocator.dfy`, `FrameRuns.dfy` | kmalloc and kfree |
| `Checksum.dfy` | the RFC 1071 checksum |
| `Firewall.dfy`, `FirewallEdits.dfy`, `FirewallVerdicts.dfy` | rule table, packet verdicts, statistics |
| `CStrings.dfy`, `HashStorage.dfy`, `Accounts.dfy`, `PasswordHash.dfy`, `AccountsProperties.dfy`, `LoginHistory.dfy` | char buffers, password hashes and their storage, users, logins over whole runs |
| `Monitor.dfy`, `MonitorHistory.dfy` | ring log and metric table |

`dafny verify dfyconfig.toml` checks everything.

## What the model assumes

- Clocks are parameters. `backup.c` uses the constant 0 and says it stands for the current time.
- `kmalloc` inside `task_create` is a parameter: it found room or it did not.
- The frame bitmap, at a fixed physical address in the source, is an array of `total_frames / 32` words of its own.
- Whether `char` is signed is a parameter of the user table; it is signed on x86 with the usual compilers.
- Words of a network buffer are read low byte first, as on x86.
- The two C scans `allocate_block` and `allocate_inode` are the same loop on two bitmaps; here it is one method.
  The three shifting deletes are one helper method per table. The loops of one C function are sometimes
  separate methods (`RemoveExpired`, `FindOldest`, `FindReady`, `FoldCarries`, `Decide`, `SelectLogs`).
- An inode's 128 block entries are a sequence that `FsWrite` updates entry by entry, inside an array of inodes.
  The chars of a name, message or hash are sequences inside records in the same way.

## What turned out not to hold unconditionally

- A file system run loses blocks whenever a non-empty file is rewritten, whenever a write runs out of blocks, and
  whenever a dead inode is written, which `fs_write` does not refuse; `MarkedIsOwnedIff` says these are the only
  ways, and `RewriteRunLoses` shows one. A failed write takes every free block with it.
- `fs_write` computes the block count in 32 bits. For the sizes above 2^32 - 4096 it succeeds with no blocks at
  all and returns a negative number (`WriteCoversIff`, `HugeWrite`).
- `fs_delete` and `kfree` do not check that what they free is in use (`DeleteCountersIff`, `DoubleDelete`,
  `FreeCounterIff`). Deleting a file a second time unmarks blocks that other live files hold by then
  (`DeleteOwnershipIff`), which first fit makes the rule rather than the exception (`ReuseIsHarmed`,
  `StaleRunHarms`). Deleting a dead inode is the only call that breaks the invariant (`StepInvIff`).
- Beyond 131074 bytes the 32-bit sum of the checksum can lose carries, and then the result is not the RFC 1071
  checksum (`LongerOverflows`, `ChecksumIsOnesComplementIff`). Storing it still makes the buffer verify, at any
  length (`VerifiesIff`).
- The first `kmalloc` takes frame 0 and returns NULL (`FirstAllocationIsNull`). Only a `kfree` of an address from
  1 to 4095, which `kmalloc` never returned, gives that frame back (`FrameZeroIsLost`).
- The rotation does not start by itself: `scheduler_yield` never sets the cursor, so no task is ever current until
  `scheduler_next` is called by itself with a task in the list (`CursorSetIff`, `PickedIffStarted`).
- Scheduled backups keep their distance iff backups are retained at least for the schedule interval and at
  least one is kept (`SpacingIff`).
- Stored password hashes survive signed chars only when they are sign-safe (`SignedRoundTripIff`). The default
  administrator's hash is not (`DefaultAdminVerifiesIff`).
- User names are compared only up to the end of the name asked for. A user whose name starts the name of an
  enabled user created earlier cannot log in, and its logins count as failures there (`VerifiesAsItselfIff`,
  `CreatedUserKeepsVerifying`, `ShadowedLogin`).
- Metric names are compared in the same way: readings are as expected for all recordings iff no name in use starts
  another and all have at most 63 characters (`TableRefinesMapIff`, `RecordEffect`, `PrefixOverwrites`).
- `docs/technical.md` promises at most 256 tasks; `task_create` never looks at `MAX_TASKS`. It also promises
  that the last 7 copies are kept; the code keeps up to 30 for 7 days, and with these defaults its eviction loop never
  runs (`LargeLimitNeverEvicts`). The model follows the code.

## Model

| member | source | states |
|---|---|---|
| FreeSlots.ExhaustedIff | kernel/fs/filesystem.c:84-97 | a first-fit search fails iff as many slots are in use as there are |
| ByteBitmap.MarkedSet | kernel/fs/filesystem.c:84-97 | setting one bit of one byte adds exactly that slot to the set of marked slots |
| ByteBitmap.MarkedClear | kernel/fs/filesystem.c:99-105 | clearing one bit removes exactly that slot |
| ByteBitmap.TakeFirstClear | kernel/fs/filesystem.c:84-128 | the two-level scan returns the least clear slot and marks only it, or returns -1 and changes nothing iff all are marked |
| FileSystem.Volume.Init | kernel/fs/filesystem.c:50-82 | both bitmaps end empty but for the root inode, which is an empty directory; other inode entries stay |
| FileSystem.Volume.AllocateBlock | kernel/fs/filesystem.c:84-97 | the least free block is marked and the counter goes down, or -1 and no change |
| FileSystem.Volume.ReleaseBlock | kernel/fs/filesystem.c:99-105 | an in-range block is unmarked and the counter goes up, marked before or not |
| FileSystem.Volume.AllocateInode | kernel/fs/filesystem.c:107-120 | the least free inode is marked and the counter goes down, or -1 and no change |
| FileSystem.Volume.ReleaseInode | kernel/fs/filesystem.c:122-128 | an in-range inode is unmarked and the counter goes up, marked before or not |
| FileSystem.Volume.FsCreate | kernel/fs/filesystem.c:130-147 | the whole new state and the id returned |
| FileSystem.Volume.FsWrite | kernel/fs/filesystem.c:149-167 | the whole new state and the result, including the entries filled before the blocks ran out |
| FileSystem.Volume.FsDelete | kernel/fs/filesystem.c:178-189 | the whole new state and the result, for live and dead inodes |
| FileSystemRuns.InitInv | kernel/fs/filesystem.c:50-82 | after fs_init no block and only inode 0, an empty directory, is in use, whatever the inode table held before; the invariant holds |
| FileSystemRuns.CreateInv | kernel/fs/filesystem.c:130-147 | creating a file keeps ownership and both counters right |
| FileSystemRuns.TakeBlocksFills | kernel/fs/filesystem.c:157-161 | the loop gets as many blocks as asked or as are free, all unused before and different, lists them in order of entry and touches nothing else |
| FileSystemRuns.WriteInv | kernel/fs/filesystem.c:149-167 | writing any inode id, live, dead or out of range, keeps ownership and counters right, also when the blocks run out half way |
| FileSystemRuns.DeleteInv | kernel/fs/filesystem.c:178-189 | deleting a live file keeps ownership and counters right |
| FileSystemRuns.RunInv | kernel/fs/filesystem.c:84-189 | in every run that deletes no dead inode, with any writes, the blocks of live files are marked, listed once, and disjoint between files, and both free counters equal the clear bits |
| FileSystemCalls.CreateOutcome | kernel/fs/filesystem.c:130-147 | fs_create fails iff no inode is free, else makes the least dead inode an empty live file and changes no other |
| FileSystemCalls.WriteOutcome | kernel/fs/filesystem.c:149-167 | the result, size, count, entries and counters after fs_write in all three cases; it takes the least free blocks, and a failed write leaves none free |
| FileSystemCalls.DeleteOutcome | kernel/fs/filesystem.c:178-189 | deleting a live file frees its inode and exactly its blocks |
| FileSystemCalls.DeleteResult | kernel/fs/filesystem.c:178-189 | fs_delete returns 0 for every id in range, live or dead, and -1 without a change for all others |
| FileSystemCalls.SizeLimitIff | kernel/fs/filesystem.c:153-155 | a size passes the limit check iff it is at most 512 KB or above 2^32 - 4096 |
| FileSystemCalls.WriteCoversIff | kernel/fs/filesystem.c:153-166 | the blocks of a written file hold its bytes, and the result is not negative, iff the size is at most 2^32 - 4096; there is never a block to spare |
| FileSystemCalls.HugeWrite | kernel/fs/filesystem.c:153-166 | a write of 2^32 - 1 bytes takes no block, records the size, and returns -1 |
| FileSystemCalls.ScanFailsIff | kernel/fs/filesystem.c:84-120 | each scan fails iff its free counter is 0; free KB plus used KB is 262144 and used KB is 4 per marked block |
| FileSystemCalls.SpaceKB | kernel/fs/filesystem.c:191-197 | free and used KB are 4 per free and per other block, without overflow, while the free counter is at most 65536 |
| FileSystemCalls.DeleteCountersIff | kernel/fs/filesystem.c:99-189 | for any inode id, the inode counter survives fs_delete iff the inode is live, the block counter iff its listed blocks are different and all in use |
| FileSystemCalls.DoubleDelete | kernel/fs/filesystem.c:178-189 | a second delete always spoils the inode counter, and the block counter iff the file had blocks |
| FileSystemCalls.StepInvIff | kernel/fs/filesystem.c:130-189 | from a state with the invariant, a call keeps it iff it does not delete a dead inode |
| FileSystemCalls.DeleteOwnershipIff | kernel/fs/filesystem.c:178-189 | for any inode, live or dead, fs_delete leaves the other files' blocks marked iff none of them lists a block the inode lists |
| FileSystemCalls.StaleDeleteIff | kernel/fs/filesystem.c:149-189 | deleting a file again after another file was written harms that file iff the write took a block the first delete freed |
| FileSystemCalls.ReuseIsHarmed | kernel/fs/filesystem.c:84-189 | first fit makes that happen whenever all blocks below some block of the deleted file were in use |
| FileSystemCalls.StaleRunHarms | kernel/fs/filesystem.c:50-189 | after fs_init, two creates, a write, a delete, a write to the other file and the same delete leave a live file with an unmarked block |
| FileSystemLeaks.LeakedSize | kernel/fs/filesystem.c:149-189 | the blocks marked but owned by nobody number the marked ones minus the sum of the live block counts |
| FileSystemLeaks.StepLoss | kernel/fs/filesystem.c:130-189 | one operation loses the old block count on a successful rewrite, all it took on a write to a dead inode or one that runs out of space, and nothing otherwise |
| FileSystemLeaks.RewriteLosesOldBlocks | kernel/fs/filesystem.c:157-164 | a successful rewrite loses exactly the blocks the file listed before |
| FileSystemLeaks.RunLoss | kernel/fs/filesystem.c:130-189 | over a run the lost blocks are the sum of what its steps lost |
| FileSystemLeaks.MarkedIsOwnedIff | kernel/fs/filesystem.c:130-189 | from fs_init, every marked block is owned at the end iff no step rewrote a non-empty file, gave blocks to a dead inode, or ran out of blocks after taking some |
| FileSystemLeaks.RewriteRunLoses | kernel/fs/filesystem.c:50-167 | after fs_init, creating one file and writing one block to it twice loses one block |
| FileSystemLeaks.DrainedFreeBlocks | kernel/fs/filesystem.c:178-189 | with every file deleted the free counter is 65536 less the blocks lost, so 65536 iff none were |
| Scheduler.FirstReady | kernel/scheduler/scheduler.c:80-94 | a walk over part of the list finds the first ready task met, or none iff there is none |
| Scheduler.RoundRobin.IdsFall | kernel/scheduler/scheduler.c:51-64 | with no id wrap, ids fall strictly along the list, so it has no cycle |
| Scheduler.RoundRobin.TaskCreate | kernel/scheduler/scheduler.c:47-67 | a new ready task is put at the head with the next id, or NULL and no change when there is no memory |
| Scheduler.RoundRobin.TaskTerminate | kernel/scheduler/scheduler.c:69-72 | exactly the given task becomes terminated |
| Scheduler.RoundRobin.SchedulerNext | kernel/scheduler/scheduler.c:74-97 | the two-pass search returns the first ready task behind the cursor, then from the head, else the current one; an unset cursor goes to the head |
| Scheduler.RoundRobin.SchedulerSwitch | kernel/scheduler/scheduler.c:99-111 | the whole new state of cursor and task states |
| Scheduler.RoundRobin.GetTaskCount | kernel/scheduler/scheduler.c:121-131 | the number of tasks in the list that are not terminated, modulo 2^32 |
| SchedulerRuns.RunSafe | kernel/scheduler/scheduler.c:69-111 | in every run at most one task is running, and it is the current one |
| SchedulerRuns.TerminatedForever | kernel/scheduler/scheduler.c:69-111 | terminated is absorbing |
| SchedulerRuns.SwitchMovesIff | kernel/scheduler/scheduler.c:99-111 | a switch moves the cursor iff it is set and another task is ready, and then a ready task becomes running |
| SchedulerRuns.TaskCountOverRuns | kernel/scheduler/scheduler.c:121-131 | the live tasks are those created minus the distinct ones terminated |
| SchedulerRuns.IdsDecreaseIff | kernel/scheduler/scheduler.c:51-51 | ids are strictly ordered by creation iff fewer than 2^32 tasks were created |
| SchedulerRuns.SwitchApproaches | kernel/scheduler/scheduler.c:80-110 | each switch picks a waiting task or brings the cursor closer to it round the list |
| SchedulerRuns.BoundedWaiting | kernel/scheduler/scheduler.c:47-111 | in any mix of switches, creations and terminations of others, a ready task is picked once the run has more switches than the cursor had places ahead of it and then as many as the list has behind the task; it waits for at most N - 1 switches, N the length of the list when it is picked |
| SchedulerRuns.EveryTaskIsPicked | kernel/scheduler/scheduler.c:47-111 | no starvation: in every endless run that keeps switching, however fast it creates tasks, a ready task that is never terminated is picked within that bound |
| SchedulerRuns.CursorSetIff | kernel/scheduler/scheduler.c:41-111 | from scheduler_init, the cursor is set after a run iff scheduler_next was called by itself at some point after a task was created |
| SchedulerRuns.FirstPickIsNewest | kernel/scheduler/scheduler.c:74-78 | the first scheduler_next called by itself after a task was created makes the newest task current, in any run from scheduler_init |
| SchedulerRuns.NextPeeks | kernel/scheduler/scheduler.c:74-97 | scheduler_next changes no task; with the cursor set it changes nothing and returns the task that a switch would make current |
| SchedulerRuns.PickedIffStarted | kernel/scheduler/scheduler.c:41-115 | in every endless run from scheduler_init that keeps switching, a task created at some point and never terminated becomes current iff scheduler_next is once called by itself after some task was created |
| SchedulerRuns.PickedByCount | kernel/scheduler/scheduler.c:47-111 | the same bound for a run with as many switches as there are other tasks at its end |
| SchedulerRuns.NewTasksDoNotDelay | kernel/scheduler/scheduler.c:64-83 | a task ahead of the cursor is picked within its distance, however many tasks are created meanwhile |
| SchedulerRuns.Rotation | kernel/scheduler/scheduler.c:74-111 | with all tasks runnable, k switches move the cursor exactly k places round the list |
| SchedulerRuns.WaitingBoundIsTight | kernel/scheduler/scheduler.c:74-111 | the task just behind the cursor does wait for all N - 1 switches |
| Backup.IndexOf | backup/backup.c:139-140 | the first position with an id, or -1 iff there is none |
| Backup.BackupSystem.Init | backup/backup.c:50-59 | an empty table, id 1 next, and the default configuration |
| Backup.BackupSystem.BackupCreate | backup/backup.c:72-99 | a pending backup with the next id and the clock is added, or 0 and no change when 30 are there |
| Backup.BackupSystem.BackupExecute | backup/backup.c:101-120 | the first backup with the id becomes completed with its fixed size and count, or -1 |
| Backup.BackupSystem.BackupDelete | backup/backup.c:138-150 | the first backup with the id is taken out and the order kept, or -1 and no change |
| Backup.BackupSystem.FindOldest | backup/backup.c:165-173 | the id of the first backup with the least timestamp |
| Backup.BackupSystem.CleanupOld | backup/backup.c:152-177 | both deleting loops end, and the table is what they leave |
| Backup.BackupSystem.GetLatest | backup/backup.c:187-197 | the first position with the greatest timestamp, or none |
| Backup.BackupSystem.CheckSchedule | backup/backup.c:219-231 | the whole new state of the table |
| BackupRetention.DropExpiredFilters | backup/backup.c:156-161 | with unique ids, deleting while iterating leaves exactly the unexpired backups in their order |
| BackupRetention.RetentionIs | backup/backup.c:154-154 | the retention period is the days in seconds iff there are at most 49710 days |
| BackupRetention.ExpiredIs | backup/backup.c:157-157 | up to the clock, expiry is by age; a later timestamp counts as expired unless it is almost 2^64 ahead |
| BackupRetention.EvictKeepsNewest | backup/backup.c:164-176 | eviction keeps the greatest by timestamp and position, as many as the limit allows, order preserved |
| BackupRetention.NewestUnique | backup/backup.c:164-176 | that description leaves only one possible result |
| BackupRetention.CleanupKeepsNewestUnexpired | backup/backup.c:152-177 | the whole cleanup is filter, then the newest of what is left |
| BackupRetention.CleanupTwice | backup/backup.c:152-177 | a second cleanup at the same time changes nothing |
| BackupRetention.CleanupSuffix | backup/backup.c:152-177 | with backups in time order the cleanup leaves a suffix of the table |
| BackupRetention.LargeLimitNeverEvicts | backup/backup.c:57-57 | with a limit of 30 or more, as by default, the eviction loop deletes nothing |
| BackupRuns.RunOrdered | backup/backup.c:72-231 | with an orderly clock and fewer than 2^32 - 1 calls the table is ordered by id and by time, and ids are unique |
| BackupRuns.ScheduleCheckOutcome | backup/backup.c:219-231 | a due check in a table with room adds exactly one completed backup stamped with the clock, any other check nothing |
| BackupRuns.CheckMakesByNewest | backup/backup.c:219-231 | at any clock reading the check makes a backup iff it is enabled, fewer than 30 are listed, and the newest one listed is older than the interval; a timestamp after the clock counts as 2^64 seconds older |
| BackupRuns.CheckMakesIff | backup/backup.c:219-231 | when no timestamp is after the clock, the check makes a backup iff it is enabled, fewer than 30 are listed, and every one listed is older than the interval |
| BackupHistory.ExecuteOutcome | backup/backup.c:101-120 | backup_execute returns 0 iff the id is listed, and completes exactly the backup with that id |
| BackupHistory.CreateThenDelete | backup/backup.c:72-150 | backup_create returns 0 iff the table is full, and deleting the id it returns takes the backup back |
| BackupHistory.ListedBackup | backup/backup.c:72-231 | in every run with an orderly clock, a listed backup has the id, time and type of the call that made it, and is completed iff the check made it or it was executed later, else pending and empty |
| BackupSpacing.DueIsLate | backup/backup.c:222-225 | a check only makes a backup more than the interval after every time the table still covers |
| BackupSpacing.CleanupCovers | backup/backup.c:152-177 | a cleanup keeps a backup as young as any given time, unless that time is longer ago than the interval |
| BackupSpacing.SpacingIff | backup/backup.c:152-231 | scheduled backups are more than the interval apart in every run without manual deletes iff retention is at least the interval and at least one backup is kept |
| BackupSpacing.DefaultSpacing | backup/backup.c:54-58 | with the default configuration scheduled backups are more than a day apart in every such run |
| WordBitmap.MarkedSet | kernel/memory/memory.c:49-55 | setting one bit of one word adds exactly that frame |
| WordBitmap.MarkedClear | kernel/memory/memory.c:57-63 | clearing one bit removes exactly that frame |
| WordBitmap.FirstClear | kernel/memory/memory.c:72-84 | the scan returns the least clear frame, or 2^32 - 1 iff all are set |
| FrameAllocator.Allocator.constructor | kernel/memory/memory.c:36-47 | no frame in use, and the frame count of the memory size |
| FrameAllocator.Allocator.SetFrame | kernel/memory/memory.c:49-55 | the frame of an address is marked and the counter goes up |
| FrameAllocator.Allocator.ClearFrame | kernel/memory/memory.c:57-63 | the frame of an address is unmarked and the counter goes down, marked before or not |
| FrameAllocator.Allocator.KMalloc | kernel/memory/memory.c:86-94 | the whole new state and the address, with no overflow in the address arithmetic |
| FrameAllocator.Allocator.KFree | kernel/memory/memory.c:96-99 | the whole new state, for any address inside the bitmap or NULL |
| FrameRuns.AllocResult | kernel/memory/memory.c:72-94 | kmalloc takes the least free frame; a non-NULL result is a page address not outstanding and inside the bitmap; NULL comes back iff nothing is free or frame 0 was |
| FrameRuns.Run | kernel/memory/memory.c:36-99 | in every run that frees only outstanding addresses, NULL, or addresses in a taken frame 0, the counter equals the set bits, and the frames in use are those of the outstanding addresses and frame 0 |
| FrameRuns.ExhaustedReport | kernel/memory/memory.c:72-107 | the search fails iff the reported free memory is 4 KB for each frame beyond the last whole word; used plus free is the memory; nothing overflows |
| FrameRuns.OutstandingCount | kernel/memory/memory.c:86-99 | outstanding addresses are distinct frames, as many as the counter says but for frame 0 |
| FrameRuns.FirstAllocationIsNull | kernel/memory/memory.c:86-94 | the first kmalloc takes frame 0 and returns NULL |
| FrameRuns.FrameZeroIsLost | kernel/memory/memory.c:86-99 | once taken, frame 0 stays taken throughout a run of that kind iff no address from 1 to 4095 is freed; while it does, one frame fewer can be outstanding |
| FrameRuns.FreeInvIff | kernel/memory/memory.c:57-99 | for any address inside the bitmap, kfree keeps the frames in use and the outstanding addresses in agreement iff it is NULL, outstanding, or inside a taken frame 0 |
| FrameRuns.FreeCounterIff | kernel/memory/memory.c:57-99 | the counter survives kfree iff the pointer is NULL or its frame is in use |
| Checksum.CalculateChecksum | kernel/net/network.c:97-110 | the result for every buffer and length, odd, zero and negative lengths included |
| Checksum.FoldIs | kernel/net/network.c:106-108 | the fold loop yields 0 for 0 and ((sum - 1) mod 65535) + 1 otherwise |
| Checksum.TwoRoundsSuffice | kernel/net/network.c:106-108 | two rounds of the fold loop suffice for every 32-bit sum |
| Checksum.NoOverflow | kernel/net/network.c:98-105 | up to 131074 bytes the 32-bit sum does not wrap |
| Checksum.LongerOverflows | kernel/net/network.c:98-105 | every longer length has a buffer whose sum does wrap |
| Checksum.ChecksumIsOnesComplement | kernel/net/network.c:97-110 | up to 131074 bytes the result is the complement of the end-around-carry sum of RFC 1071 section 1 |
| Checksum.ChecksumIsOnesComplementIff | kernel/net/network.c:97-110 | for any length an int holds, it is so iff the 32-bit sum did not wrap |
| Checksum.VerifiesIff | kernel/net/network.c:97-110 | at any length, a value put in an aligned field that was zero makes the checksum of the whole buffer 0 iff it is the checksum, all ones doubling for 0 unless the sum is 2^32 - 1 |
| Checksum.SelfVerifying | kernel/net/network.c:97-110 | so storing the checksum always does, at any length |
| Checksum.WordOrderIrrelevant | kernel/net/network.c:97-110 | permuting the words leaves the checksum unchanged (RFC 1071 section 2 (A)) |
| Checksum.PaddingIrrelevant | kernel/net/network.c:103-105 | an odd last byte counts as if a zero byte followed it (RFC 1071 section 2) |
| Checksum.ByteOrderIndependent | kernel/net/network.c:97-110 | up to 131074 bytes, swapping the bytes of every word swaps the bytes of the checksum (RFC 1071 section 2 (B)) |
| Firewall.FirstMatch | security/firewall/firewall.c:141-171 | the first enabled rule that matches, or -1 iff none does |
| Firewall.RuleTable.Init | security/firewall/firewall.c:77-93 | an enabled firewall with zero statistics and the four default rules |
| Firewall.RuleTable.AddFirewallRule | security/firewall/firewall.c:95-119 | an enabled rule with the next id is appended, or 0 and no change when 256 are there |
| Firewall.RuleTable.RemoveFirewallRule | security/firewall/firewall.c:121-132 | the first rule with the id is taken out and the order kept, or -1 and no change |
| Firewall.RuleTable.Check | security/firewall/firewall.c:134-187 | the verdict is that of the first enabled match, default deny, with the statistics counted; a disabled firewall passes all uncounted |
| FirewallEdits.CoversIff | security/firewall/firewall.c:145-169 | the field-wise test holds iff every packet the later rule matches is matched by the earlier one |
| FirewallEdits.RemovalEffect | security/firewall/firewall.c:121-187 | a removal changes verdicts only where the rule was the first match, and there to that of the rules behind it |
| FirewallEdits.RemoveIsDeleteAt | security/firewall/firewall.c:121-132 | with ids in order, removal by id takes out exactly the rule meant |
| FirewallEdits.ShadowedRuleIsRedundant | security/firewall/firewall.c:121-187 | removing a rule covered by an earlier enabled one changes no verdict |
| FirewallEdits.AppendEffect | security/firewall/firewall.c:95-187 | an appended rule only lets through packets nothing matched, so it blocks none, and a deny rule changes nothing |
| FirewallEdits.RunBalanced | security/firewall/firewall.c:77-187 | in every run allowed plus blocked is total, modulo 2^32 |
| FirewallEdits.RunIdOrder | security/firewall/firewall.c:95-132 | ids increase strictly in table order as long as none wraps |
| FirewallEdits.DefaultPolicy | security/firewall/firewall.c:88-92 | after firewall_init exactly inbound TCP to ports 22, 80, 443 and 8080 passes |
| FirewallVerdicts.UnnamedFieldsIrrelevant | security/firewall/firewall.c:134-187 | changing a packet in fields that no enabled rule names, for any of the six, changes no verdict |
| FirewallVerdicts.DifferingRuleIgnored | security/firewall/firewall.c:141-169 | a rule that names another value in any one field leaves verdict and statistics as they are without the rule |
| FirewallVerdicts.DisabledRuleIgnored | security/firewall/firewall.c:143-143 | a disabled rule leaves every verdict as it is without the rule |
| FirewallVerdicts.FirstRuleDecides | security/firewall/firewall.c:141-182 | an enabled first rule decides every packet that differs from it in no field it names, and moves the counter of its verdict; a deny records the source |
| FirewallVerdicts.DefaultVerdicts | security/firewall/firewall.c:137-186 | an empty table blocks and counts without recording an address; a disabled firewall passes everything and counts nothing |
| FirewallVerdicts.RunCounts | security/firewall/firewall.c:77-187 | after every run the counters are the numbers of packets passed, blocked and checked while enabled, modulo 2^32, and the address is that of the last packet a rule blocked |
| FirewallVerdicts.DefaultPacket | security/firewall/firewall.c:77-187 | right after firewall_init the verdict is allow for exactly inbound TCP to the four ports |
| FirewallVerdicts.AddThenRemove | security/firewall/firewall.c:95-132 | firewall_add_rule returns 0 iff the table is full, and removing the id it returns takes the rule back |
| CStrings.CopyTruncated | security/firewall/firewall.c:245-249 | the buffer afterwards holds the string cut to the limit, terminated, with nothing behind it changed |
| CStrings.MatchesQuery | security/firewall/firewall.c:268-274 | the comparison says whether the name asked for is a prefix of the stored one |
| HashStorage.UnsignedRoundTrip | security/firewall/firewall.c:251-280 | with unsigned chars every stored hash is read back unchanged |
| HashStorage.SignedRoundTripIff | security/firewall/firewall.c:251-280 | with signed chars it is iff each set bit 4j + 7 has all higher bits set |
| Accounts.SimpleHash | security/firewall/firewall.c:223-230 | the loop computes the 32-bit hash of every string, for both kinds of char |
| PasswordHash.HashIsPolynomial | security/firewall/firewall.c:223-230 | for n characters the hash is 5381 * 33^n plus the sum of the characters times 33 to the number of characters behind each, modulo 2^32, with signed chars negative from 0x80 on |
| PasswordHash.OneCharMatters | security/firewall/firewall.c:223-230 | changing any one character of any string always changes the hash |
| Accounts.UserTable.Init | security/firewall/firewall.c:215-221 | only the default administrator, with id 1 |
| Accounts.UserTable.CreateUser | security/firewall/firewall.c:232-259 | an enabled user with the cut name and the chunked hash is added, or 0 and no change when 64 are there |
| Accounts.UserTable.VerifyUser | security/firewall/firewall.c:261-297 | the first enabled user whose name starts with the one asked for decides; the whole new state and the result |
| AccountsProperties.RunNumbered | security/firewall/firewall.c:232-297 | every run keeps ids equal to positions counted from 1, and stored names shorter than their buffers |
| AccountsProperties.FullTableIff | security/firewall/firewall.c:234-234 | auth_create_user returns 0 iff 64 users are there, and only then changes nothing |
| AccountsProperties.CreatedEntry | security/firewall/firewall.c:232-259 | the added user has the id returned, the name cut to 31 characters, the chunked hash, the uid, gid and privilege given, no failures, and changes no other user |
| AccountsProperties.WrongCharacterRefused | security/firewall/firewall.c:261-297 | where the hash survives storage, a password wrong in one character is refused and counted |
| AccountsProperties.VerifiesAsItselfIff | security/firewall/firewall.c:261-297 | in any state, a user with an id of its own gets it back for its password iff it is enabled, its name starts with the name given, no earlier enabled user's does, and the hash survives storage |
| AccountsProperties.CreatedUserVerifiesIff | security/firewall/firewall.c:232-297 | at the moment of creation, a user gets its id back with its name and password iff the name has at most 31 characters, starts no enabled user's name, and the hash survives storage |
| AccountsProperties.CreatedUserKeepsVerifying | security/firewall/firewall.c:232-297 | after any run of later creations and verifications, a created user gets its id back iff it is still enabled, its name has at most 31 characters and starts no name of a user created earlier and still enabled, and the hash survives storage |
| AccountsProperties.RunKeepsUser | security/firewall/firewall.c:232-297 | no run of creations and verifications changes a user's id, name, hash or privileges, or enables a disabled user |
| AccountsProperties.HiddenLogin | security/firewall/firewall.c:261-297 | a login that an earlier user's name hides leaves the user meant untouched; a password that is wrong for the earlier user fails and counts there |
| AccountsProperties.ShadowedLogin | security/firewall/firewall.c:215-297 | after auth_init, a new user "adm" is refused with its correct password, and "admin" gets a failure, unless the password hashes to what is read back for "admin" |
| AccountsProperties.LaterUsersIrrelevant | security/firewall/firewall.c:261-276 | users created later never take over a name that already matches |
| AccountsProperties.LongNameNeverVerifies | security/firewall/firewall.c:246-274 | a name of 32 characters or more never verifies |
| AccountsProperties.DefaultAdminVerifiesIff | security/firewall/firewall.c:215-221 | the default administrator can log in after auth_init iff char is unsigned |
| AccountsProperties.RunLockInv | security/firewall/firewall.c:282-292 | in every run a user is enabled iff fewer than 5 failures in a row are counted |
| AccountsProperties.LockedForever | security/firewall/firewall.c:261-297 | a locked user is never changed by a later creation or verification |
| AccountsProperties.WrongPasswordLocks | security/firewall/firewall.c:286-292 | repeated wrong attempts count on the one user the name selects, and the fifth locks it |
| LoginHistory.LockedIff | security/firewall/firewall.c:261-297 | a user without counted failures is locked by a run iff five of the logins decided on it fail with no success between the first and the fifth |
| Monitor.Recorder.Init | monitoring/monitor.c:54-76 | an empty ring starting at slot 0, no metrics, and uptime 0 |
| Monitor.Recorder.LogMessage | monitoring/monitor.c:78-99 | the entry, cut to 63 and 255 characters, goes to the head of the ring, and nothing else changes |
| Monitor.Recorder.GetLogs | monitoring/monitor.c:101-113 | the caller's buffer gets the selected entries in front and keeps the rest, for any limit, negative ones too |
| Monitor.Recorder.RecordMetric | monitoring/monitor.c:115-141 | the first entry that matches gets the value, else a new one is added while there is room |
| Monitor.Recorder.GetMetric | monitoring/monitor.c:143-157 | the value of the first entry that matches, or 0 |
| MonitorHistory.RingRefinesHistory | monitoring/monitor.c:54-113 | get_logs gives the first entries, oldest first, at the level or above among the last 1000 messages ever logged |
| MonitorHistory.LogsByPosition | monitoring/monitor.c:78-113 | get_logs gives, of the last 1000 messages, each one of the level asked for or a graver one, level by level, oldest first, cut to the number asked for |
| MonitorHistory.RecordAllTabulates | monitoring/monitor.c:115-141 | for prefix-free names of at most 63 characters the table lists the first 50 different ones in order, each with its last value and the time of that |
| MonitorHistory.TableRefinesMap | monitoring/monitor.c:115-157 | for prefix-free names of at most 63 characters, the last value recorded for each of the first 50 different names, and 0 for all others |
| MonitorHistory.TableRefinesMapIff | monitoring/monitor.c:115-157 | a set of names reads that way for all recordings iff every name has at most 63 characters and none starts another |
| MonitorHistory.RecordEffect | monitoring/monitor.c:115-157 | recording one name changes what a stored name reads as iff both hit the same entry; a name not stored reads the new value iff a new entry is made whose name starts with it, and 0 otherwise |
| MonitorHistory.PrefixOverwrites | monitoring/monitor.c:118-126 | a name that starts a longer recorded one overwrites it |
| MonitorHistory.LongNamesNeverHit | monitoring/monitor.c:115-157 | a name of 64 characters or more is never found again, and each record takes a new entry |

## Left out

- File names, permissions, owners, times and file data: the calls never move bytes, and nothing reads these fields back.
- `fs_read`: it returns the smaller of two numbers.
- Task names, priorities, time slices, registers, stacks: scheduling does not look at them.
- The size argument of `kmalloc`, which the code ignores, and that a task is larger than the frame it gets: a task is a fresh object here.
- Scheduler.RoundRobin.TaskTerminate: takes tasks of the current list only; a pointer kept from before a second `scheduler_init` is not modelled.
- FrameAllocator.Allocator.KFree: an address whose frame lies beyond the bitmap makes the C code write outside it, which the model excludes by its precondition.
- Backup paths and descriptions, rule descriptions, `backup_restore` and the listing calls: they would add only easy members.
- Bytes of a char buffer before and behind the string it holds are modelled only as far as the copy and comparison loops touch them.
- `last_block_time` and `last_login`, which the code sets to the constant 0.
- `auth_delete_user` and the listing and flag calls beside it: the same shifting delete as the firewall's.
- Clock values in the log and the metrics come from `uptime`, which `update_system_stats` counts; that call is not modelled.
- Page tables, the TCP connection table, the ATA driver, the web interface, containers, virtual machines, start-up code: not part of this model.
