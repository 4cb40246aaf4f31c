# karbedo: a Dafny model of the collision engine

karbedo looks for passwords whose crypt(3) hash collides with the hash of an
account read from a shadow(5) file. This project models its core:

- **Tasks and the engine.** Each attack task of `collisionAttackTask_CPU.cpp`
  is one of three kinds:
  - a "full" task tries the user name and then every line of every dictionary
    file;
  - a "partial" task tries every string of one length over a 72-character
    table;
  - a "none" task does the same over a 92-character table.

  All tasks share the state of the engine:
  - the queue of found passwords and its unsigned 32-bit counter;
  - the outgoing and incoming checkpoint queues;
  - the target with its "$algid$salt" prefix;
  - the run/save/stop status.
- **Planning (`user.cpp`).** An attack starts tasks on a thread pool:
  - a fresh attack starts the full task, then a limited run of partial tasks
    up to length 20, then an endless run of "none" tasks of growing length;
  - a resumed attack first replays the saved checkpoints, then starts the tasks
    above the highest checkpoint reached.
- **The window (`mainwindow.cpp`).** Besides the widgets, it holds:
  - the shadow-file parser;
  - the choice of the target by name;
  - saving and reloading a paused attack as a JSON object;
  - reporting each found password once;
  - the busy indicator of the status line.

Modules, in dependency order:

| module | file | content |
|---|---|---|
| `Wrappers` | wrappers.dfy | Option, Result |
| `Strings` | strings.dfy | One-character split and join, decimal printing and parsing. |
| `Enumeration` | enumeration.dfy | The odometer successor over an alphabet and its rank, plus the complete, ordered and repetition-free enumeration. |
| `Alphabets` | alphabets.dfy | The task modes, the two character tables, getAlphabet. |
| `Json` | json.dfy | JSON values as data. |
| `Users` | users.dfy | The target record, the scheme-id table, the JSON round trip, and the `user` class. |
| `AttackState` | attack_state.dfy | The task constructor's clamp and the collision test. `Engine`, a class holding the shared state, with the queue methods, setNewTarget, evaluate_password and one status poll. |
| `BruteForce` | brute_force.dfy | initial_password, next_password and the brute_force loop. |
| `Dictionary` | dictionary.dfy | Parsing a dictionary checkpoint, the order in which lines are evaluated, and the nested loops of dictionary_attack. |
| `TaskRun` | task_run.dfy | run() |
| `Orchestrator` | orchestrator.dfy | limited_attack, unlimited_attack, collision_attack and resumed_collision_attack. |
| `Desk` | desk.dfy | The shadow parser, the pause record, the load and save of a paused attack, infodeskUpdate, statusUpdate, and the target search. |

The order of external events is modelled by values passed in:

- **Status polls.** The status is an oracle `st: nat -> int`, indexed by poll
  number: 1 means run, 2 save, anything else stop. Every loop that reads the
  status reads the next poll.
- **Pool capacity.** The pool's spare capacity at a poll is an oracle
  `spare: nat -> bool`.
- **crypt(3).** It is a function parameter
  `digest: (string, string) -> string`.
- **Started tasks.** Starting a task on the pool is modelled by returning it:
  the planning methods return the tasks they start, in order.
- **Files.** Dictionary files are given as `(name, lines)` pairs, in listing
  order. A shadow file is given as its lines. A missing directory or an
  unreadable file is `None`.

Each polling loop is proved against the function `Engine.Polled`. Let k be the
first poll that does not read "run". Then:

- the hits among the first k candidates have been appended to the found
  passwords, and the counter has grown by their number modulo 2^32;
- when poll k reads "save", exactly the checkpoint of candidate k (the first
  one not evaluated) has been enqueued;
- the result says whether anything was found.

The candidate functions are linked to the enumeration theory by lemmas: the
candidates are all strings of the length, each once and in order, and a save
followed by a resume loses and repeats nothing.

## Model

| member | source | states |
|---|---|---|
| Alphabets.FullAlphabet | collisionAttackTask_CPU.cpp:34-41 | The "none" table has 92 entries. |
| Alphabets.PartAlphabet | collisionAttackTask_CPU.cpp:45-51 | The "partial" table has 72 entries. |
| Alphabets.TablesByChunks | collisionAttackTask_CPU.cpp:34-51 | The tables are the digits, the lower-case and the upper-case letters, then the special characters. The partial table has only the ten most frequent special characters. |
| Alphabets.TablesValid | collisionAttackTask_CPU.cpp:34-51 | Both tables are free of repetitions, and the partial table is a prefix of the full one. |
| Alphabets.PartialIndicesAgree | collisionAttackTask_CPU.cpp:45-51 | A character of the partial table has the same index in both tables. |
| Alphabets.GetAlphabet | collisionAttackTask_CPU.cpp:55-67 | "none" gives the full table and "partial" the partial one. "full" gives no table (the null pointer). |
| Alphabets.AlphabetValid | collisionAttackTask_CPU.cpp:312 | Every brute-force mode has a non-empty, repetition-free table. |
| Alphabets.FromCode | mainwindow.cpp:264-267 | The mode cast from a code in 0..2 has that code. |
| Alphabets.CodeRoundTrip | mainwindow.cpp:376 | A mode saved as its code and cast back is the same mode. |
| Strings.SplitParts | mainwindow.cpp:99 | No part of a split holds the separator. |
| Strings.JoinSplit | mainwindow.cpp:99 | Joining the parts of a split with the separator gives back the string. |
| Strings.SplitJoin | mainwindow.cpp:120 | Splitting a join of separator-free parts gives back the parts. |
| Strings.ParseUInt | collisionAttackTask_CPU.cpp:208 | toUInt accepts only digit strings whose value is below 2^32. |
| Strings.NumberParseRoundTrip | collisionAttackTask_CPU.cpp:250 | A 32-bit line number printed with QString::number parses back to itself. |
| Enumeration.Odometer | collisionAttackTask_CPU.cpp:321-358 | Let p be the rightmost position that is not the alphabet's last character. The successor keeps the positions left of p, moves position p one table index up, and resets every position right of p to the first character. |
| Enumeration.OdometerEnd | collisionAttackTask_CPU.cpp:345-347 | There is no successor exactly when every character is the last one. |
| Enumeration.SuccRank | collisionAttackTask_CPU.cpp:300-364 | The successor's rank, read as a base-\|A\| number, is one more. |
| Enumeration.RankInjective | collisionAttackTask_CPU.cpp:300-364 | Equal-length strings with equal rank are equal. |
| Enumeration.LexLessIffRankLess | collisionAttackTask_CPU.cpp:324-358 | Ordering by table index, leftmost position first, is ordering by rank. |
| Enumeration.IterateMembers | collisionAttackTask_CPU.cpp:278-294 | Iterating the successor from s visits exactly the strings of s's length that are not before s. |
| Enumeration.IterateFrom | collisionAttackTask_CPU.cpp:373-388 | The iteration from s is the suffix of the complete enumeration that starts at s's rank. |
| Enumeration.EnumerationComplete | collisionAttackTask_CPU.cpp:393-394 | From the first character repeated L times, the iteration visits \|A\|^L strings. They are all distinct and in strictly increasing order, and they are exactly the strings of length L over A. |
| Users.AlgorithmName | user.cpp:210-215 | The ids map as 1→MD5, 2a→Blowfish, 5→SHA-256 and 6→SHA-512. |
| Users.SupportedSchemes | user.cpp:5-11 | An id has a non-empty name exactly when it is one of the four ids. |
| Users.ReadUser | user.cpp:21-44 | Reading succeeds iff User, AlgId, Salt and Hash are strings, and then yields those fields. On failure it names the first missing or non-string field, in that order. |
| Users.WriteUser | user.cpp:71-77 | The four fields are written as strings, and every other key is left as it was. |
| Users.WriteReadRoundTrip | user.cpp:21-77 | write_to_json followed by the JSON constructor gives back all four fields. |
| Users.User.constructor | user.cpp:14-18 | The user holds the four given fields. |
| Users.User.Copy | user.cpp:47-50 | The copy holds all four fields of the original. |
| Users.User.SetUser | user.cpp:62-68 | The fields are replaced by the given ones. |
| Users.User.Assign | user.cpp:53-59 | operator= returns a fresh copy of `other` and leaves the left operand unchanged. |
| Users.User.WriteToJson | user.cpp:71-77 | The written object reads back as this user. |
| Users.UserFromJson | user.cpp:21-44 | A fresh user with the object's fields, or the failure of the first bad field. |
| AttackState.AddWrappedModulo | collisionAttackTask_CPU.cpp:116-121 | n hits add n to the counter modulo 2^32. |
| AttackState.NewTask | collisionAttackTask_CPU.cpp:5-16 | The length is forced to 0 when there is no target or when a partial task is longer than 20. Otherwise it is kept. The mode and the milestone are kept. |
| AttackState.NewTaskPartialBound | collisionAttackTask_CPU.cpp:9-13 | No partial task is longer than 20. |
| AttackState.HashField | collisionAttackTask_CPU.cpp:411-416 | The digest's hash field is its fourth `$`-part. There is none when the digest has fewer than four parts. |
| AttackState.HashFieldOfCryptFormat | collisionAttackTask_CPU.cpp:408-416 | A digest of the form "$id$salt$hash" has the hash field `hash`. |
| AttackState.HitsMembers | collisionAttackTask_CPU.cpp:418-422 | The hits are exactly the candidates whose digest's hash field is the target hash. |
| AttackState.Engine.constructor | collisionAttackTask_CPU.cpp:20-30 | The static members start empty, with no target, an empty prefix and status 0. |
| AttackState.Engine.StopAttack | user.cpp:218-221 | The status becomes 0. |
| AttackState.Engine.StartAttack | collisionAttackTask_CPU.cpp:155 | The status becomes 1. |
| AttackState.Engine.SaveAttack | user.cpp:224-227 | The status becomes 2. |
| AttackState.Engine.AddCacheInit | collisionAttackTask_CPU.cpp:70-74 | Adds the checkpoint at the back of the incoming queue. |
| AttackState.Engine.GetCacheInit | collisionAttackTask_CPU.cpp:77-83 | Removes and returns the oldest incoming checkpoint. On an empty queue it returns ("", none) and the queue stays empty. |
| AttackState.Engine.AddMilestone | collisionAttackTask_CPU.cpp:86-90 | Adds the checkpoint at the back of the outgoing queue. |
| AttackState.Engine.GetMilestone | collisionAttackTask_CPU.cpp:93-99 | Removes and returns the oldest outgoing checkpoint, or ("", none) when there is none. |
| AttackState.Engine.ClearCacheInit | collisionAttackTask_CPU.cpp:102-106 | The incoming queue becomes empty. |
| AttackState.Engine.ClearMilestones | collisionAttackTask_CPU.cpp:109-113 | The outgoing queue becomes empty. |
| AttackState.Engine.AddHit | collisionAttackTask_CPU.cpp:116-121 | Appends the finding and increments the counter, with wrap-around. |
| AttackState.Engine.GetHit | collisionAttackTask_CPU.cpp:124-130 | Removes and returns the oldest finding, or "" when there is none. The counter is untouched. |
| AttackState.Engine.ClearHits | collisionAttackTask_CPU.cpp:133-138 | Empties the findings and zeroes the counter. |
| AttackState.Engine.SetNewTarget | collisionAttackTask_CPU.cpp:141-157 | Clears the findings, the counter and the outgoing queue. The incoming queue is not among the fields it may change. With no target the prefix is empty and the status 0. With a target the prefix is "$algid$salt" and the status 1. |
| AttackState.Engine.EvaluatePassword | collisionAttackTask_CPU.cpp:403-425 | Records a hit iff the digest's hash field equals the target hash, and returns that. A digest with fewer than four fields records nothing. |
| AttackState.Engine.PollStep | collisionAttackTask_CPU.cpp:279-292 | One poll. "Run" evaluates the candidate and keeps `Progress`. "Save" enqueues the candidate's checkpoint, and then `Polled` holds. Any other status stops with nothing enqueued. |
| AttackState.PolledUninterrupted | collisionAttackTask_CPU.cpp:278-296 | When no poll stops the loop, every hit is logged, nothing is enqueued, and the result is whether any candidate was a hit. |
| AttackState.ProgressComplete | collisionAttackTask_CPU.cpp:294-296 | A loop that got past its last candidate has the `Polled` outcome. |
| BruteForce.TaskAlphabet | collisionAttackTask_CPU.cpp:369 | The alphabet of a brute-force task is usable. |
| BruteForce.InitialPassword | collisionAttackTask_CPU.cpp:367-400 | With a non-empty milestone in use, it returns the milestone iff the milestone is over the table and of length L, and "" otherwise. Without one, it returns the first character repeated L times. |
| BruteForce.Advance | collisionAttackTask_CPU.cpp:300-364 | Code 2 iff the length is wrong, code 3 iff a character is outside the table, code 1 iff every character is the last one. With code 0, `next` is the odometer successor. `next` is "" for every other code. |
| BruteForce.NextPassword | collisionAttackTask_CPU.cpp:300-364 | The same codes as Advance, over the task's table and length. |
| BruteForce.TrailChain | collisionAttackTask_CPU.cpp:294 | The candidates follow each other by the successor, and only the last has none. A milestone that does not fit gives the single candidate "". |
| BruteForce.TrailStep | collisionAttackTask_CPU.cpp:294 | next_password returns 0 at every candidate except the last. |
| BruteForce.AdvanceOnTrail | collisionAttackTask_CPU.cpp:294 | At candidate i, next_password yields candidate i+1, or a non-zero code at the last candidate. |
| BruteForce.PollLoop | collisionAttackTask_CPU.cpp:273-296 | The do-while loop ends in the `Polled` outcome over the task's candidates. The checkpoint of candidate k is candidate k itself, which is not yet evaluated. |
| BruteForce.BruteForceAttack | collisionAttackTask_CPU.cpp:266-297 | A task of length 0 does nothing and returns false. Otherwise the `Polled` outcome from the task's start point holds. |
| BruteForce.FreshTaskCoverage | collisionAttackTask_CPU.cpp:393-394 | A fresh task tries \|A\|^L strings, each once, and they are exactly the strings of its length over its table. |
| BruteForce.CandidateHits | collisionAttackTask_CPU.cpp:278-294 | An uninterrupted fresh task finds exactly the colliding strings of its length over its table. |
| BruteForce.ResumeFromMilestone | collisionAttackTask_CPU.cpp:373-388 | A task resumed from a fitting milestone tries exactly the strings from the milestone on. |
| BruteForce.SaveResumeRoundTrip | collisionAttackTask_CPU.cpp:287-289 | Resuming from the checkpoint saved at poll k tries exactly candidates k onward: none repeated, none skipped. |
| BruteForce.UnfitMilestone | collisionAttackTask_CPU.cpp:387-388 | A milestone that does not fit makes the task try only "". |
| Dictionary.ParseMilestone | collisionAttackTask_CPU.cpp:198-216 | A milestone counts exactly when it splits on ';' into two parts, with a non-empty file name and a 32-bit decimal line. The resume point is the first part as file and the number the second part parses to as line, so "f;007" resumes at line 7. |
| Dictionary.MarkRoundTrip | collisionAttackTask_CPU.cpp:250 | The checkpoint "file;line" parses back to that file and line, when the name has no ';'. |
| Dictionary.MarkWithSeparator | collisionAttackTask_CPU.cpp:204 | A checkpoint of a file whose name holds ';' does not count. |
| Dictionary.ScheduleEnabled | collisionAttackTask_CPU.cpp:220-257 | With evaluation on, every line of every file is evaluated, in order. |
| Dictionary.FreshSchedule | collisionAttackTask_CPU.cpp:198-216 | A milestone that does not count evaluates everything. |
| Dictionary.ResumeAt | collisionAttackTask_CPU.cpp:222-237 | Resuming at the place of an entry evaluates exactly the entries from that one on: other files are skipped, and so are the earlier lines of the paused file. |
| Dictionary.ResumeMissing | collisionAttackTask_CPU.cpp:222-237 | A paused place that no file has evaluates nothing. |
| Dictionary.ScheduleIsSuffix | collisionAttackTask_CPU.cpp:198-257 | Whatever the milestone, the evaluated lines are a suffix of the complete list of lines. |
| Dictionary.SaveResumeRoundTrip | collisionAttackTask_CPU.cpp:248-250 | Resuming from the checkpoint saved at the k-th evaluation evaluates exactly entries k onward. |
| Dictionary.EvaluateLine | collisionAttackTask_CPU.cpp:239-253 | One poll with the line as candidate and "file;line" as its checkpoint. |
| Dictionary.ReadLine | collisionAttackTask_CPU.cpp:234-256 | Evaluation switches on at the paused line. While it is on, each line takes one poll. |
| Dictionary.ReadDictFile | collisionAttackTask_CPU.cpp:228-258 | The inner loop evaluates the file's lines from its start line on, and reports whether evaluation is on afterwards. |
| Dictionary.ReadListedFile | collisionAttackTask_CPU.cpp:220-259 | Reads a file only while evaluation is on or when it is the paused file, and keeps the rest of the schedule. |
| Dictionary.ReadResumePoint | collisionAttackTask_CPU.cpp:196-216 | Evaluation starts off exactly when the milestone counts, and then each part holds the parsed file or line. |
| Dictionary.DictionaryAttack | collisionAttackTask_CPU.cpp:185-263 | With no directory it does nothing and returns false. Otherwise the `Polled` outcome holds over the schedule of that milestone, each line's checkpoint being "file;line". |
| TaskRun.Run | collisionAttackTask_CPU.cpp:160-182 | A first poll other than "run", or a brute-force task of length 0, changes nothing. A full task tries the name first when it has no milestone, then the dictionaries. Other tasks run brute_force. Both continue with the next polls. |
| Orchestrator.Max | user.cpp:128-129 | The larger of two lengths. |
| Orchestrator.LimitedTasks | user.cpp:176-188 | Partial tasks of lengths n, n+1, … in order, at most up to 20, each after a poll reading "run". Nothing when n > 20. A shorter list ends at a poll that does not read "run". |
| Orchestrator.LimitedEnd | user.cpp:180-186 | The limited attack takes one poll per task, plus one for the poll that stopped it. |
| Orchestrator.LimitedAttack | user.cpp:176-188 | The loop starts the tasks of LimitedTasks and consumes the polls of LimitedEnd. |
| Orchestrator.LimitedUninterrupted | user.cpp:178-186 | With every poll reading "run", there is one partial task of each length from n to 20. |
| Orchestrator.NextStop | user.cpp:195-198 | The first poll that does not read "run". |
| Orchestrator.SpareCount | user.cpp:199 | The number of polls that see spare capacity. |
| Orchestrator.UnlimitedTasks | user.cpp:191-207 | "None" tasks of consecutive lengths from n, with no gaps, one per poll that reads "run" and sees spare capacity. |
| Orchestrator.UnlimitedAttack | user.cpp:191-207 | The loop starts the UnlimitedTasks and stops one poll after the first stop. |
| Orchestrator.UnlimitedConsecutive | user.cpp:193-206 | The unlimited attack starts "none" tasks of consecutive lengths from n, with no gaps. It starts at most one per poll before the stop, and one on every such poll when the pool always has spare capacity. |
| Orchestrator.RaiseBound | user.cpp:124-144 | The switch computes BoundStep. A "none" checkpoint sets "none" and takes the larger length. A "partial" one does the same only while the bound is not "none". A "full" one changes nothing. |
| Orchestrator.ResumeCount | user.cpp:115-123 | Resumption goes on while polls read "run" and checkpoints are non-empty. It ends at the first poll that does not read "run", the first empty checkpoint, or the end of the queue. |
| Orchestrator.ResumeCountStops | user.cpp:117-122 | The first index that meets a stop condition is the resume count. |
| Orchestrator.ResumedTasks | user.cpp:146 | One task per resumed checkpoint, in queue order. |
| Orchestrator.QueueAfter | user.cpp:120-122 | After resuming n checkpoints, the empty one that ended the loop has also been dequeued. |
| Orchestrator.ResumeStep | user.cpp:115-147 | One pass of the loop either stops at the resume count or resumes the next checkpoint and raises the bound. |
| Orchestrator.ResumeCached | user.cpp:112-147 | The loop starts ResumedTasks and returns the ResumeBound of the resumed checkpoints. It consumes one poll per resumed checkpoint plus the final one, and leaves the queue as QueueAfter says. |
| Orchestrator.ResumeBoundCovers | user.cpp:112-147 | The bound is "none" iff some checkpoint is "none", and "full" iff all are. Its length is at least every "none" length, and every "partial" length when it is not "none". It is 1 or the length of a checkpoint. |
| Orchestrator.ResumeBoundOrder | user.cpp:131-138 | The bound depends on the queue order: "partial" 3 then "none" 1 gives ("none", 3), the reverse gives ("none", 1). |
| Orchestrator.ResumeLengthOne | user.cpp:149-150 | After a single length-1 "none" checkpoint, the unlimited attack starts again from length 1. |
| Orchestrator.AttackAbove | user.cpp:158-166 | With a full or partial bound: a limited attack from the length above it, then an unlimited attack from 1. With a "none" bound: an unlimited attack from the length above it. |
| Orchestrator.AboveNoneLonger | user.cpp:149-166 | After a "none" bound above 1, every task started above it is a "none" task longer than the bound. |
| Orchestrator.CollisionAttack | user.cpp:80-99 | Targets the user. Then starts exactly one full task, the tasks of limited_attack(1), and those of unlimited_attack(1). |
| Orchestrator.ResumedCollisionAttack | user.cpp:102-173 | Targets the user. Then starts the resumed tasks and the tasks above their bound, and leaves the incoming queue as QueueAfter says. |
| Desk.ClassifyLine | mainwindow.cpp:98-136 | A line without 9 ':'-fields is corrupted. A second field without 4 '$'-parts is skipped. With 4 parts, whatever the first part holds, the line is reported as unsupported exactly when the second part names no known scheme, with the first field's name and that scheme id. Otherwise the account is accepted with the first field as name and the second, third and fourth parts as scheme id, salt and hash. |
| Desk.ScanCounts | mainwindow.cpp:93-144 | Every line yields an account, a warning or nothing. The line counter counts the accounts and warnings, from 1. |
| Desk.ScanSupported | mainwindow.cpp:131-136 | Every account read has a supported scheme. |
| Desk.ScanFromLines | mainwindow.cpp:136 | Every account read comes from an accepted line. |
| Desk.ScanKeeps | mainwindow.cpp:136 | Every accepted line yields an account. |
| Desk.ShadowLineRoundTrip | mainwindow.cpp:98-136 | A shadow line written from a supported account and read back gives that account. |
| Desk.Window.OpenShadowFile | mainwindow.cpp:80-145 | The accounts become those of the file, in file order. The warnings of its lines are appended. An unreadable file changes nothing. |
| Desk.Window.SelectionChanged | mainwindow.cpp:193-200 | The first selection change after the accounts list is filled is skipped, once; every later one goes ahead, and the flag is then off. |
| Desk.Window.FindUser | mainwindow.cpp:230-238 | Returns the first account with the chosen name, or none when no account has it. |
| Desk.RecordMilestone | mainwindow.cpp:263-267 | An accepted record gives a checkpoint with the record's point and mode. |
| Desk.ValidCount | mainwindow.cpp:259-270 | The records before the first one the resume rejects. |
| Desk.Checkpoints | mainwindow.cpp:259-267 | The checkpoints of the accepted records, in array order. |
| Desk.DrainCount | mainwindow.cpp:368-372 | The drain stops at the first empty checkpoint. |
| Desk.UnfitCheckpointCutsSave | collisionAttackTask_CPU.cpp:287-289 | A resumed task whose milestone does not fit queues the empty checkpoint when paused at its first poll. The drain of the next save stops there: only the checkpoints queued before it are saved, and those after it stay in the queue. |
| Desk.SaveLoadRoundTrip | mainwindow.cpp:253-270 | A saved attack reloads as the same target, with every record accepted and the same checkpoints in order. |
| Desk.ValidCountAll | mainwindow.cpp:259-270 | When every record is accepted, all of them count. |
| Desk.LoadAttack | mainwindow.cpp:240-285 | The resume succeeds iff the user fields are valid, "Pause" is an array, and every record is accepted. The accepted records before a rejected one stay enqueued. |
| Desk.AbortAttack | mainwindow.cpp:349-387 | Writes the user fields and sets the status to "save". Drains the outgoing queue up to the first empty checkpoint into "Pause", in FIFO order. |
| Desk.Lines | mainwindow.cpp:393 | The lines of the text area, empty ones skipped. |
| Desk.HeaderStart | mainwindow.cpp:394-405 | The backward search stops at the last line of "Possible passwords:", or at the first line when there is none. |
| Desk.HeaderStartAt | mainwindow.cpp:401-404 | The last header line is where the search stops. |
| Desk.HeaderStartNone | mainwindow.cpp:395 | Without a header line, the search runs to the first line. |
| Desk.Window.InfodeskUpdate | mainwindow.cpp:390-409 | The password is appended iff no line from the search start on already equals it. |
| Desk.ReportedListed | mainwindow.cpp:390-409 | Once reported, a password is listed, so reporting it again adds nothing. |
| Desk.Window.constructor | mainwindow.cpp:42 | The status line starts as "Date: " and the date. No accounts and no text, and the flag that skips the first selection change starts set, as initialised in mainwindow.h:169. |
| Desk.Window.StatusUpdate | mainwindow.cpp:412-438 | The status line becomes Spin of the old one and stays non-empty. Spin strips three or more trailing dots and otherwise adds one. |
| Desk.DotsFrom | mainwindow.cpp:422-428 | Counts the dots backward from a position, never counting position 0. |
| Desk.TrailingDots | mainwindow.cpp:422-428 | Fewer trailing dots than characters. |
| Desk.SpinCycle | mainwindow.cpp:412-438 | From a line without trailing dots, the indicator goes through one, two and three dots and back. |
| Desk.DotsAppended | mainwindow.cpp:422-428 | d dots appended to a dot-free line give d trailing dots. |

## Left out

- crypt(3) is not modelled. It is the parameter `digest`, and the Latin-1 and local 8-bit conversions around it are not modelled either.
- Threads, the pool, sleeping, thread priorities, mutexes and the atomic status flag are not modelled. Tasks are returned as values, not run. Every loop is sequential, and its status and pool capacity come from oracles.
- Status per component: each polling loop has its own status oracle. The sharing of one status between concurrent tasks is not modelled.
- The GUI is not modelled: widgets, cursors, repaint, the timer, signals and slots, and guiupdater. The accounts list is not sorted (usersCBox sort). Messages are not modelled as text: warnings are kept as a separate list, and status texts other than the busy indicator are omitted.
- File and directory I/O is not modelled: load_cache, save_cache, clear_cache, isCacheExists, directory listing and reading. Dictionaries are given as (name, lines) pairs. The "*.txt" name filter and the existence test become `None` or the given list.
- JSON byte serialisation (QJsonDocument) is not modelled. JSON numbers are integers.
- Strings.ParseUInt: does not accept the leading and trailing whitespace or the sign QString::toUInt tolerates.
- A dictionary file that cannot be opened is skipped by the source. The model has no such case: it reads the same as a dictionary with no lines, which it evaluates nothing from.
- The corrupted-line warning is kept as `CorruptedLine(n)`, with the line counter as a number. The source's message (mainwindow.cpp:114) adds the `unsigned int` counter to a `QString`, which goes through the single-character overload: the text gets one character with that code, not the number's decimal digits. The message text is not modelled.
- Dictionary.ReadDictFile: line numbers are unbounded. The source's `uint linenum` would wrap after 2^32 lines.
- Desk.Window.OpenShadowFile: the line counter is unbounded, where the source's `unsigned int` would wrap.
- Orchestrator.UnlimitedAttack: the length is unbounded, where the source's `uint` would wrap.
- Orchestrator.UnlimitedAttack: requires that some poll eventually reads something other than "run", and so do the attack methods that call it. A run that never stops is not covered.
- Orchestrator.RaiseBound: the `default` case of the switch is not modelled. It would skip starting a task, but Heuristic has exactly three values, so it cannot be reached.
- Orchestrator.CollisionAttack: the waiting for the pool (waitForDone) and the final signal are not modelled.
- Orchestrator.ResumedCollisionAttack: the waiting for the pool (waitForDone) and the final signal are not modelled.
- TaskRun.Run: the success flag is ghost, because run() drops it.
- Desk.Window.FindUser: with no matching account, the source goes on with a null selection and would crash. The model returns `None`.
- Desk.Window.StatusUpdate: requires a non-empty status line. The source's begin/end iterator loop is undefined on an empty one, and the label is never empty.
- Desk.Lines: text area paragraphs are taken as lines, so a paragraph with an embedded newline is not split.
- Desk.LoadAttack: the user object the source creates and deletes on failure is not modelled. The model returns the target's fields, or `None`. Its file loading is replaced by the `saved` input.
- The target is a value, not a pointer, so aliasing between the engine's target and the window's selected user is not modelled.
- The headers' stale declarations are not modelled. The `.cpp` definitions are followed where they differ: for example, a status read as `bool` in collisionAttackTask_CPU.h, and a constructor there without a milestone.
