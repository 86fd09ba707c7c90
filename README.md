# Israeli queue, enrollment hacking and string duplication, in Dafny

This project models the core of the matam-ex1 repository in Dafny and proves
properties of it. It has three parts.

- **The Israeli queue** (`IsraeliQueue.c`). This is a FIFO queue where a
  newcomer may jump in behind a friend who is already waiting. Each node
  holds an item and two counters:
  - how many friends it let in (`m_friendsCalledOver`);
  - how many jumps it blocked as a rival (`m_rivalsBlocked`).

  The queue also owns a list of integer scorers (friendship functions), a
  comparison function and two thresholds. How a pair of items is classified:
  - FRIEND, once a running sum of the scorer outputs exceeds the friendship
    threshold;
  - otherwise RIVAL, when the mean of the outputs is below the rivalry
    threshold;
  - otherwise NEUTRAL.

  Enqueue scans the queue from head to tail. An eligible friend (FRIEND,
  under its friend quota) becomes the candidate when no candidate is
  active. A blocking rival (RIVAL, under its rival quota) met while a
  candidate is active clears it. A rival met with no active candidate is
  ignored. The item goes behind the candidate still active at the end of
  the scan. Failing that, it goes behind the last rival that cleared a
  candidate. When no node is an eligible friend, it goes to the tail.
- **The enrollment tool** (`tool/HackEnrollment.c`). Students and hackers
  compete for places in courses. Each course keeps an Israeli queue of
  students. The allocation pass has these steps:
  - register three scorers on every course queue:
    - a friend/rival bond;
    - a name distance, case-sensitive or not;
    - an ID distance;
  - enqueue every hacker into each course it wants;
  - check on clones of the queues whether each hacker gets its wishes;
  - write either the first hacker that cannot be satisfied or the final
    queue of every course.
- **`stringDuplicator`** (`dry-code/dup.c`). It fills a heap buffer with a
  string repeated a number of times, advancing an output pointer one copy at
  a time and rewinding it at the end.

## Modules

| file | module | what it holds |
|---|---|---|
| `wrappers.dfy` | `Wrappers` | `Option`; `None` stands for the C code's NULL |
| `affinity.dfy` | `Affinity` | The queue as a value, and the specification functions the class methods are proved against. These cover classification, the placement scan, insertion, enqueue, dequeue and the merge measures. The module also holds the lemmas about them. |
| `queue.dfy` | `Queue` | The class `IsraeliQueue<T>`, whose fields are the node list, scorers, comparison and thresholds. It holds the queue's methods and the free functions `Size`, `Dequeue`, `Contains` and `Merge`. |
| `scoring.dfy` | `Scoring` | Student and hacker records and the three scorers. It also holds `stringDiff`, case folding, `atoi` on IDs, `countElementsInLine`, `checkFriend`/`checkRival` and `getStudentFromID`. |
| `enrollment.dfy` | `Enrollment` | The classes `Course` and `EnrollmentSystem`, and the allocation pass: registering the scorers, `enqueueHackers`, `isInCourse`, the feasibility test, `printSuccess` and `hackEnrollment`. |
| `dup.dfy` | `Dup` | `stringDuplicator` over an `array<char>`, with the `strcpy` it calls |

### How the queue is represented

The linked list is a `seq<Node<T>>` field. A node is a value holding the item
and its two counters. Each queue method states its effect on `State()`, the
queue as a value. `Affinity` defines that effect and proves what it means.

The placement scan is specified twice:
- as the left fold `ScanUpTo`, which follows the loop of `findFriendNotBlocked`;
- without the fold, by the predicates `EligibleFriend`, `BlockingRival`,
  `Unblocked` and `Active`.

`PlacementRule` proves that the two agree. The comment above `findFriendNotBlocked` (IsraeliQueue.c:104-106) speaks of the first blocking rival, but the loop keeps the last one; the model follows the loop.

## Model

| member | source | states |
|---|---|---|
| `Affinity.FriendIgnoresLaterScorers` | IsraeliQueue.c:67-75 | Once a prefix of the scorers makes a pair FRIEND, adding scorers after them cannot change that. This is why the loop may stop early. |
| `Affinity.ScoreSumOfPrefix` | IsraeliQueue.c:66-69 | The running sum over the first k scorers does not depend on the scorers after them. |
| `Affinity.ScanUpTo` | IsraeliQueue.c:114-126 | After scanning p nodes, a set friend cursor points at an earlier FRIEND node that is under its quota. A set rival cursor points at an earlier RIVAL node that is under its quota. |
| `Affinity.FindTarget` | IsraeliQueue.c:128-129 | The insertion point is a node of the queue. There is no node to insert after exactly when the queue is empty. |
| `Affinity.ScanCandidateIffActive` | IsraeliQueue.c:114-123 | After p nodes a friend candidate is set iff some eligible friend before p has no blocking rival after it. |
| `Affinity.ScanCandidateExact` | IsraeliQueue.c:114-123 | The candidate is node j iff all of these hold: j is an eligible friend, no blocking rival follows it, and no candidate was already active when the scan reached j. |
| `Affinity.ScanRivalExact` | IsraeliQueue.c:118-122 | The rival cursor is node k iff k is a blocking rival met while a candidate was active, and it is the last such node. |
| `Affinity.ScanEmptyIffNoFriend` | IsraeliQueue.c:114-123 | Both cursors stay empty iff no scanned node is an eligible friend. A rival seen with no candidate is ignored. |
| `Affinity.PlacementRule` | IsraeliQueue.c:109-130 | This is the placement rule stated without the scan, in both directions. The item goes behind the first eligible friend not blocked by a later rival. Failing that, it goes behind the last rival that cleared an active candidate. The status is NEUTRAL iff no node is an eligible friend. |
| `Affinity.InsertAfterAt` | IsraeliQueue.c:134-160 | The list grows by one. The new node, with zero counters, sits right after the target. Only the target's counter for the status is bumped. Every other node is unchanged, and nodes after the new one shift by one. |
| `Affinity.InsertAfterItems` | IsraeliQueue.c:134-160 | The items after an insertion are the old items, in order, with the new item at the insertion position. |
| `Affinity.EnqueueEffect` | IsraeliQueue.c:223-234 | Enqueue adds one fresh node at the insertion position and keeps all other nodes in order. It bumps only the target, and puts a NEUTRAL insertion at the tail. |
| `Affinity.EnqueueItems` | IsraeliQueue.c:223-234 | The items after enqueue are the old items with the new one inserted at one position. As multisets, the queue gains exactly that item. |
| `Affinity.EnqueuePreservesQuota` | IsraeliQueue.c:118-159 | Counters never exceed their quotas: enqueue only bumps a counter that was below its quota. |
| `Affinity.NoFriendAppends` | IsraeliQueue.c:128-129 | With no eligible friend among the nodes, enqueue appends at the tail. |
| `Affinity.NoScorersIsFifo` | IsraeliQueue.c:77-83 | With no scorers, enqueueing any sequence of items is plain FIFO append. |
| `Affinity.NoScorersNoFriend` | IsraeliQueue.c:77-83 | With no scorers no node is an eligible friend, since every pair is NEUTRAL. |
| `Affinity.FriendJumpsBehind` | IsraeliQueue.c:109-160 | Worked case: b is a friend of a, who is alone in the queue. b goes right behind a, and a's friend counter becomes 1. |
| `Affinity.TruncDiv` | IsraeliQueue.c:377-378 | C's integer division rounds toward zero, for both signs of the dividend. |
| `Affinity.TruncDivExact` | IsraeliQueue.c:377-378 | Dividing n·t by n gives back t, for negative t too. |
| `Affinity.SumOfEqualFriendshipThresholds` | IsraeliQueue.c:369-370 | If every queue has friendship threshold ft, the summed friendship thresholds are (number of queues)·ft. |
| `Affinity.SumOfEqualRivalryThresholds` | IsraeliQueue.c:369-371 | If every queue has rivalry threshold rt, the summed rivalry thresholds are (number of queues)·rt. |
| `Affinity.MergeKeepsCommonFriendshipThreshold` | IsraeliQueue.c:367-378 | Merging queues that share a friendship threshold keeps it, whatever its sign and whatever the rivalry thresholds. |
| `Affinity.MergeKeepsCommonRivalryThreshold` | IsraeliQueue.c:367-378 | Merging queues that share a rivalry threshold keeps it, whatever its sign and whatever the friendship thresholds. |
| `Affinity.DequeuedAll` | IsraeliQueue.c:406-407 | Every input queue loses its head, if any, and nothing else. |
| `Affinity.EnqueueHeadsItems` | IsraeliQueue.c:406-415 | One merge round adds to the merged queue exactly the heads of the non-empty inputs. Scorers, thresholds and comparison stay unchanged. |
| `Affinity.EnqueueHeadsSnoc` | IsraeliQueue.c:406-415 | A round over one more input enqueues that input's head after the heads of all earlier inputs. |
| `Affinity.EnqueueHeadsPreservesQuota` | IsraeliQueue.c:406-415 | A merge round keeps every counter of the merged queue within its quota. |
| `Affinity.MergeHoldsHeads` | IsraeliQueue.c:387-418 | The merged queue holds exactly the heads of the non-empty inputs. Its scorers are the inputs' scorers concatenated. |
| `Queue.IsraeliQueue.constructor` | IsraeliQueue.c:165-185 | A new queue is empty, with the given scorers, comparison and thresholds. |
| `Queue.IsraeliQueue.Clone` | IsraeliQueue.c:187-199 | The clone is a fresh queue with the same nodes (items and counters), scorers and thresholds. The original is not changed. |
| `Queue.IsraeliQueue.GetFriendshipStatus` | IsraeliQueue.c:63-84 | The loop returns the reference classification. On FRIEND, it has called exactly the scorers up to the first prefix whose sum exceeds the threshold. Otherwise it has called all of them. |
| `Queue.IsraeliQueue.FindFriendNotBlocked` | IsraeliQueue.c:109-130 | The scan loop returns the insertion target that the placement rule defines. |
| `Queue.IsraeliQueue.NodeInsertAfter` | IsraeliQueue.c:134-160 | Links the new node after the target, or makes it the head of an empty list, and bumps the target's counter. |
| `Queue.IsraeliQueue.Enqueue` | IsraeliQueue.c:223-234 | The new state is the specified enqueue, and the quota invariant is preserved. |
| `Queue.IsraeliQueue.AddFriendshipMeasure` | IsraeliQueue.c:236-255 | On success the scorer is appended at the end of the list. On allocation failure the result is ALLOC_FAILED and the queue is unchanged. |
| `Queue.IsraeliQueue.UpdateFriendshipThreshold` | IsraeliQueue.c:257-264 | A negative value gives BAD_PARAM and changes nothing. Otherwise only the friendship threshold is replaced. |
| `Queue.IsraeliQueue.UpdateRivalryThreshold` | IsraeliQueue.c:266-273 | A negative value gives BAD_PARAM and changes nothing. Otherwise only the rivalry threshold is replaced. |
| `Queue.Size` | IsraeliQueue.c:277-287 | Returns the number of nodes, or 0 for NULL. |
| `Queue.Dequeue` | IsraeliQueue.c:291-301 | Returns the head item and removes exactly that node. Returns NULL for a NULL or empty queue and leaves it unchanged. The quota invariant is kept. |
| `Queue.Contains` | IsraeliQueue.c:303-314 | True iff some node's item compares equal to the data, with the node's item as the first argument. False for a NULL queue or NULL data. |
| `Queue.MergeFriendshipsAndThresholds` | IsraeliQueue.c:347-385 | The scorers are the inputs' lists concatenated in array order. The thresholds are the truncated means of the inputs' thresholds. |
| `Queue.NewMergedQueue` | IsraeliQueue.c:390-395 | The merged queue starts as a fresh empty queue with the concatenated scorers and the truncated mean thresholds of the inputs. |
| `Queue.MoveHead` | IsraeliQueue.c:406-414 | The source loses its head. The destination gets that head enqueued, if there was one. |
| `Queue.MergeRound` | IsraeliQueue.c:406-415 | Each input, in array order, is dequeued once, and its head is enqueued into the destination. |
| `Queue.Merge` | IsraeliQueue.c:387-418 | The merged queue is a fresh queue built from the merged measures, into which one round of heads has been enqueued; its counters are within their quotas. Each input has lost exactly its head. |
| `Scoring.CountElementsInLine` | tool/HackEnrollment.c:12-29 | Returns 0 for the empty line. Otherwise returns one more than the number of spaces. |
| `Scoring.JoinElementCount` | tool/HackEnrollment.c:12-29 | k non-empty, space-free words joined by single spaces count as k elements. |
| `Scoring.LowerCaseConditional` | tool/HackEnrollment.c:193-195 | With folding on, upper-case letters fold into 0..25. Otherwise, and for every other character, the code is kept. |
| `Scoring.LowerCaseChar` | tool/HackEnrollment.c:189-191 | Upper-case letters fold into 0..25. Other characters keep their code. |
| `Scoring.FoldingSeparatesCases` | tool/HackEnrollment.c:189-195 | With folding on, an upper-case letter and its lower-case form differ by 97. "Case-insensitive" folding does not identify them. |
| `Scoring.DiffUpTo` | tool/HackEnrollment.c:515-532 | The accumulated name distance is never negative. |
| `Scoring.StringDiff` | tool/HackEnrollment.c:509-535 | The loop computes the name distance, which is non-negative. |
| `Scoring.DiffUpToSymmetric` | tool/HackEnrollment.c:515-532 | Swapping the strings does not change any partial sum. |
| `Scoring.DiffUpToSelf` | tool/HackEnrollment.c:515-532 | A string's distance to itself is 0. |
| `Scoring.NameDistanceProperties` | tool/HackEnrollment.c:509-535 | stringDiff is symmetric, and stringDiff(s, s) = 0, in both case modes. |
| `Scoring.CheckFriend` | tool/HackEnrollment.c:448-459 | True iff the student is in the hacker's friend list. |
| `Scoring.CheckRival` | tool/HackEnrollment.c:462-473 | True iff the student is in the hacker's rival list. |
| `Scoring.FriendshipFunction1` | tool/HackEnrollment.c:476-507 | The full truth table of the score: 20, -20 or 0. Person 2's verdict about person 1 overrides person 1's verdict. Each side checks friend before rival. The score is 0 iff neither lists the other. |
| `Scoring.FriendshipFunction1Asymmetric` | tool/HackEnrollment.c:483-504 | The bond score is not symmetric. When two hackers list each other with opposite verdicts, the second argument's verdict wins either way round. |
| `Scoring.FriendshipFunction2` | tool/HackEnrollment.c:537-548 | The name score is non-negative. |
| `Scoring.FriendshipFunction2Sensitive` | tool/HackEnrollment.c:550-552 | The case-sensitive name score is non-negative. |
| `Scoring.FriendshipFunction2Insensitive` | tool/HackEnrollment.c:553-555 | The "case-insensitive" name score is non-negative. |
| `Scoring.DiffUpToWithoutCapitals` | tool/HackEnrollment.c:515-532 | On strings without upper-case letters, folding changes no partial sum of stringDiff. |
| `Scoring.NameScoresAgreeWithoutCapitals` | tool/HackEnrollment.c:550-555 | The two name scorers agree on students whose names and surnames hold no upper-case letter. |
| `Scoring.NameScoresOnCase` | tool/HackEnrollment.c:550-555 | Worked case: names "A" and "a" score 32 case-sensitively and 97 "case-insensitively", because folding maps 'A' to 0. |
| `Scoring.FriendshipFunction2Properties` | tool/HackEnrollment.c:537-555 | The name score is symmetric, and 0 for students with the same name and surname. |
| `Scoring.DigitPrefixLength` | tool/HackEnrollment.c:563 | atoi reads exactly the maximal run of leading digits. |
| `Scoring.FriendshipFunction3` | tool/HackEnrollment.c:558-564 | The ID score is non-negative, and 0 iff the IDs have the same numeric value. |
| `Scoring.DigitsValueInjective` | tool/HackEnrollment.c:563 | Equal-length digit strings with equal values are equal. |
| `Scoring.FriendshipFunction3Properties` | tool/HackEnrollment.c:558-564 | For 9-digit IDs, the ID score is symmetric and 0 exactly when the IDs are equal. |
| `Scoring.DecimalString` | tool/HackEnrollment.c:677 | The `%d` rendering of a course number is a non-empty word without spaces. |
| `Scoring.GetStudentFromId` | tool/HackEnrollment.c:161-172 | Returns the first student with the ID, or None exactly when there is none. |
| `Enrollment.Course.constructor` | tool/HackEnrollment.c:281-299 | A course starts with a fresh empty queue, no scorers, and thresholds 20 and 0. |
| `Enrollment.EnrollmentSystem.SetCaseSensitive` | tool/HackEnrollment.c:765-767 | Sets the case-sensitivity flag. |
| `Enrollment.GetCourseFromNum` | tool/HackEnrollment.c:147-158 | Returns the first course with the number, or None exactly when there is none. |
| `Enrollment.RegisterOn` | tool/HackEnrollment.c:693-700 | On success one course queue gains the bond, name and ID scorers, in that order. On failure only its scorer list changes, and it gains a proper prefix of the three: at most two, since the failing addition appends nothing. |
| `Enrollment.RegisterScorers` | tool/HackEnrollment.c:693-704 | On success every course queue gains the three scorers in order: bond, name (variant per the flag), ID. On failure the pass stopped at some course f: the courses before f have all three scorers, course f has a proper prefix of them and is otherwise unchanged, and the courses after f are unchanged. |
| `Enrollment.EnqueueHacker` | tool/HackEnrollment.c:649-656 | The course queues end with the hacker enqueued into each of its desired courses, in list order. |
| `Enrollment.EnqueueHackers` | tool/HackEnrollment.c:641-659 | The course queues end as specified: each hacker, in roster order, enqueued into each desired course in list order. |
| `Enrollment.IsInCourse` | tool/HackEnrollment.c:566-582 | True iff the student's ID is among the first `size` IDs of the course queue. Only a clone is drained. |
| `Enrollment.AdmissionCheckDefined` | tool/HackEnrollment.c:570-572 | For a student who is in the queue, isInCourse never dequeues from an empty clone. |
| `Enrollment.HackersAreQueued` | tool/HackEnrollment.c:641-659 | After enqueueing, every hacker is in the queue of every course it asked for, because later enqueues only insert. |
| `Enrollment.EnqueuedHackersQueued` | tool/HackEnrollment.c:641-659 | The same, for all hackers and courses at once. |
| `Enrollment.DeclinedCount` | tool/HackEnrollment.c:717-719 | The number of declining courses is at most the number of desired courses. |
| `Enrollment.DeclinedCountIsCardinality` | tool/HackEnrollment.c:717-721 | The running count equals the size of the set of declining positions. |
| `Enrollment.CountDeclined` | tool/HackEnrollment.c:717-719 | The count of declining courses, taken with isInCourse on each desired course, equals the specified running count. |
| `Enrollment.FeasibleIff` | tool/HackEnrollment.c:712-722 | A one-course hacker passes iff it is admitted. Any other hacker passes iff fewer than two of its desired positions decline it. A hacker with no desired course always passes. |
| `Enrollment.FirstInfeasible` | tool/HackEnrollment.c:712-729 | Finds the first hacker that fails: every earlier hacker passes. None means every hacker passes. |
| `Enrollment.CheckHacker` | tool/HackEnrollment.c:713-722 | The per-hacker test, run on clones of the current queues, equals the feasibility predicate. |
| `Enrollment.FindInfeasible` | tool/HackEnrollment.c:712-729 | The feasibility loop returns the first failing hacker. |
| `Enrollment.SuccessLineElements` | tool/HackEnrollment.c:677-683 | A course line has 1 + (queue length) elements as countElementsInLine reads it. |
| `Enrollment.CourseLine` | tool/HackEnrollment.c:665-685 | A course with an empty queue gives no line. Otherwise its line is the course number followed by the queued IDs, head to tail. Only a clone is drained. |
| `Enrollment.PrintSuccess` | tool/HackEnrollment.c:661-687 | The lines written are one per course with a non-empty queue, in roster order. Each line is the course number followed by the queued IDs, head to tail. The queues are left intact. |
| `Enrollment.EnqueueAndReport` | tool/HackEnrollment.c:706-731 | After the enqueue step, the output is the failure line naming the first failing hacker, or else the success lines. |
| `Enrollment.HackEnrollment` | tool/HackEnrollment.c:689-732 | When registration fails, nothing is written and the queues are left as the registration pass stopped them at some course f (all three scorers before f, a proper prefix at f, none after). Otherwise the queues end as the scorers-then-hackers specification says, and the output is the report of that state. |
| `Dup.Repeat` | dry-code/dup.c:28-31 | The repetition of s n times has length \|s\|·n. |
| `Dup.RepeatAdd` | dry-code/dup.c:28-31 | Repeating a times then b times equals repeating a + b times. |
| `Dup.RepeatAt` | dry-code/dup.c:28-31 | Character r of copy j of the repetition is character r of s. |
| `Dup.CopyFits` | dry-code/dup.c:26 | Every copy ends inside the len·times characters of the buffer. |
| `Dup.StrCpy` | dry-code/dup.c:29 | s and a terminating NUL are written at the offset, and the rest of the buffer is unchanged. |
| `Dup.StringDuplicator` | dry-code/dup.c:22-34 | The result is NULL on allocation failure. Otherwise it points at offset 0 of a fresh buffer of len·times + 1 characters, holding s repeated times times, then NUL. |

## Left out

- `Queue.IsraeliQueue.GetFriendshipStatus`: the mean is compared as the integer inequality `sum < threshold · count`, not in `float`. With no scorers the status is NEUTRAL, as the NaN comparison in the source gives. Float rounding and 32-bit overflow of the running sum are not modelled.
- `Queue.IsraeliQueue.AddFriendshipMeasure`: whether reallocation succeeds is chosen nondeterministically, since allocation is outside the model.
- `Queue.IsraeliQueue.Enqueue`: it never reports ALLOC_FAILED, because `NodeCreate` writes through the pointer before the source's NULL check could fire.
- The assertion at IsraeliQueue.c:137 is treated as compiled out (an NDEBUG build). As written it fails on every enqueue, because a new node's `m_next` is NULL.
- Node pointer identity and the linked-list rewiring are not modelled. The list is a sequence, so aliasing between nodes is not modelled either.
- NULL items and NULL queue arguments of the queue functions are not modelled, except where the source gives them a defined result. `Size`, `Dequeue` and `Contains` take nullable queues, and `Contains` takes optional data.
- `Queue.IsraeliQueue.constructor`: it always succeeds. The NULL that `IsraeliQueueCreate` returns when `malloc` fails (IsraeliQueue.c:166-171) is not modelled, and neither is a failed copy of the scorer array.
- `Queue.Merge`: it requires at least one queue, because the source divides by the count. It also requires the array's queues to be distinct; with an aliased entry the source would dequeue the same queue twice. The source returns NULL when the merged queue cannot be created (IsraeliQueue.c:400-403) and, after destroying it, when an enqueue into it fails (IsraeliQueue.c:409-412); it ignores `MergeRet.error`. The model's `Merge` never fails, because allocation is not modelled and `Enqueue` cannot fail.
- `IsraeliQueueImprovePositions` (IsraeliQueue.c:316-337) is not modelled:
  - its base case tests `nodePtr` rather than `*nodePtr`, so the recursion dereferences NULL;
  - it classifies `&m_data` instead of the item;
  - the moving node is never unlinked.
- `IsraeliQueueDestroy`, `NodeDestroy` and the `printf` traces are left out: memory release and console output.
- `Queue.MergeFriendshipsAndThresholds`: the threshold sums are unbounded integers; their 32-bit `int` overflow is not modelled.
- `Scoring.StringDiff`: the running `int` sum is an unbounded integer; its 32-bit overflow on very long names is not modelled.
- The quotas `FRIEND_QUOTA` = 5 and `RIVAL_QUOTA` = 3 are assumptions, since `IsraeliQueue.h` is not part of this model. The proofs rely only on both quotas being positive.
- File reading and parsing are left out: `readLine`, `getLineNum`, `parse*File`, `parseHacker`, `createEnrollment`, `readEnrollment`. So are record construction and destruction (`create*`, `destroy*`, `cloneString`). Students, courses and hackers are built directly as values. A hacker's friend and rival lists hold the identities of the students found, since an unresolved NULL entry can never match.
- Student fields that the core never reads (credits, GPA, city, department) are left out.
- `Scoring.FriendshipFunction3`: `atoi` is modelled as the value of the leading decimal digits. Leading whitespace, a sign and overflow are not modelled; IDs are 9-digit strings.
- `Scoring.LowerCaseChar`: characters are modelled as non-negative codes. Signed `char` values above 127 are not modelled.
- `Enrollment.IsInCourse`: it requires that the queue holds `size` students or that the student is found first. Otherwise the source dereferences the NULL returned by an empty clone. `enqueueHackers` guarantees this for every hacker (`Enrollment.HackersAreQueued`).
- `Enrollment.EnrollmentSystem.Valid` requires every desired course of every hacker to exist (`CoursesInRange`). A hacker's course number that names no course is stored as NULL by the parser (tool/HackEnrollment.c:392), and `enqueueHackers` then dereferences it (tool/HackEnrollment.c:651-652). That crash is not modelled; such rosters are excluded.
- `Enrollment.EnqueueHackers`: it has no failure result, because enqueue cannot fail in the model.
- `Enrollment.Course.constructor`: the source creates the course queues with a NULL comparison function. The model uses a constant comparison, which the allocation pass never calls.
- Output is modelled as a sequence of lines without their trailing newlines.
- The `main` functions of `dry-code/dup.c` and `main.c`, and the superseded `HackerEnrollment.c`, are not part of this model.
- `Dup.StringDuplicator`: `len · times` overflowing `int` is not modelled. The source's `assert(s)` is replaced by the type of `s`, which cannot be NULL. `s` is the C string up to its terminator, so it holds no NUL and `|s|` is `strlen(s)`.
