# LRU page replacement, modelled and proved in Dafny

The program simulates least-recently-used (LRU) page replacement. It takes a
fixed list of page references and a frame count, `frame_size`. For each
reference it updates the resident set `memory`, a deque ordered from the
least recently used page at the front to the most recently used at the back.
On a hit the page moves to the back. On a miss (a page fault) the front page
is evicted when all frames are in use, and the new page is appended. After
each reference the loop records a snapshot in `memory_states` and an action
record in `actions` (the inserted page, the removed page and the fault
flag), and it counts faults in `page_faults`. The animation and the
spreadsheet export only read those lists.

The model has three modules:

- `Lru` (`lru.dfy`) holds the data model and the step `LruStep`. It has the
  whole run `Run`, a left fold over the references that returns all four loop
  variables. It also has `Simulate`, which adds the behaviour when the frame
  count is below 1. The lemmas cover one step and the trace of a run:
  capacity, no duplicates, fault iff absent, fault counting, prefixes, the
  same-page and single-frame cases. They also show that a run's records are
  the only trace consistent with the step.
- `Recency` (`recency.dfy`) gives an independent description of what LRU
  keeps resident: the `frameSize` distinct pages used most recently, ordered
  by their last use. It proves that the run equals that description. From
  that it proves four results:
  - the evicted page is the least recently used resident page;
  - resident pages were used more recently than non-resident ones;
  - LRU is a stack algorithm: the pages resident with k frames stay resident
    with k + 1;
  - a frame more never causes more faults (no Belady anomaly).
- `Paging` (`paging.dfy`) holds the imperative loop `SimulatePaging`, which
  reassigns four local variables (`memory`, `memoryStates`, `actions`,
  `pageFaults`) once per reference and is proved equal to `Simulate`. It
  also holds the literal inputs and the full trace of the run on them.

## Model

| member | source | states |
|---|---|---|
| Lru.LruStep | OSproject/paging.py:22-31 | a reference faults exactly when its page is not resident, and afterwards the page is resident at the back (most recently used) |
| Lru.StepHit | OSproject/paging.py:29-31 | on a hit nothing is inserted or removed, no fault is recorded, and the new set is the old one with the page taken out and appended at the back |
| Lru.StepFault | OSproject/paging.py:22-28 | on a fault the page is inserted and the fault flag set; the front page is evicted exactly when the frames are full, giving `memory[1..] + [page]`; otherwise the result is `memory + [page]` |
| Lru.StepInvariant | OSproject/paging.py:22-31 | a step keeps the resident set within `frame_size` pages and free of duplicates |
| Lru.StepKeepsOrderOfOthers | OSproject/paging.py:22-31 | apart from the referenced page, a step keeps the order of the resident pages; only the front page can leave, and only on a fault with full frames |
| Lru.RemoveFirst | OSproject/paging.py:30 | `deque.remove` on a present page drops its first occurrence, at some index k with no earlier occurrence, and keeps the pages before and after k in order; the length drops by one |
| Lru.RemoveFirstIsWithout | OSproject/paging.py:30 | in a duplicate-free set, removing the first occurrence is the same as dropping every occurrence |
| Lru.StepRemovedNotResident | OSproject/paging.py:25-28 | when the set is duplicate-free, a page a step removes is absent from the set the step leaves |
| Lru.RunRemovedNotResident | OSproject/paging.py:33-34 | the page removed at reference i of a run is not in snapshot i |
| Lru.WithoutFacts | OSproject/paging.py:30 | after removal the page is absent, every other page is kept, the length drops by one when the page was present once, and no duplicates are introduced |
| Lru.FaultCount | OSproject/paging.py:57 | the number of fault records never exceeds the number of records |
| Lru.Run | OSproject/paging.py:12-34 | a run starting from the empty structures has one snapshot and one action record per reference, and the live set equals the last snapshot |
| Lru.RunInvariant | OSproject/paging.py:12-31 | the resident set of any run never exceeds `frame_size` pages and never holds a page twice |
| Lru.RunCountsFaults | OSproject/paging.py:15-24 | `page_faults` equals the number of records whose fault flag is set, and is at most the number of references |
| Lru.RunRecords | OSproject/paging.py:17-34 | every record of a run is the step applied to the snapshot before it |
| Lru.RunUnique | OSproject/paging.py:17-34 | conversely, any snapshots and records in which every record is the step applied to the previous snapshot are exactly those of the run |
| Lru.RunSnapshots | OSproject/paging.py:33 | every snapshot is within capacity, duplicate-free, and ends with the page just referenced |
| Lru.RunPrefix | OSproject/paging.py:17-34 | running a prefix of the references gives the same prefix of snapshots and records, so record i depends only on references 0..i |
| Lru.RunFaultIffAbsent | OSproject/paging.py:22-24 | reference i faults exactly when its page is missing from the snapshot before it |
| Lru.RunRunningTotal | OSproject/paging.py:57 | the running total shown in step i's title equals the fault counter after the first i + 1 references |
| Lru.RunSamePage | OSproject/paging.py:17-34 | a non-empty run over one repeated page has exactly one fault and ends with only that page resident |
| Lru.RunSamePageRecords | OSproject/paging.py:17-34 | in such a run no record removes a page, and every snapshot is that page alone |
| Lru.RunOneFrame | OSproject/paging.py:22-31 | with one frame each snapshot is the page just referenced, and a reference faults, evicting the previous page, exactly when it differs from the previous reference |
| Lru.CountsSnoc | OSproject/paging.py:57 | one more record adds its fault flag to the count and its removed page, if any, to the eviction list |
| Lru.RunExtend | OSproject/paging.py:17-34 | one more reference runs one more step on the set left by the shorter run, appending its snapshot and record |
| Lru.Simulate | OSproject/paging.py:9-34 | the simulation fails exactly when `frame_size` is below 1 and there is at least one reference (the first `popleft` meets an empty deque); when it succeeds there is one snapshot and one record per reference |
| Paging.SimulatePaging | OSproject/paging.py:12-34 | the loop that reassigns `memory`, `memory_states`, `actions` and `page_faults` returns what `Simulate` specifies, error case included |
| Paging.LiteralRun | OSproject/paging.py:8-9 | on the literal 20 references with 4 frames there are 8 faults, pages 8, 2, 5 and 4 are evicted in that order, the frames end as 3, 8, 1, 2, and every snapshot and record is given explicitly |
| Paging.LiteralCounts | OSproject/paging.py:57 | the literal records have 8 faults and their removed pages are 8, 2, 5, 4 |
| Recency.RecencyFacts | OSproject/paging.py:17-34 | the recency list holds every referenced page exactly once |
| Recency.RunIsMostRecent | OSproject/paging.py:17-34 | the resident set of a run is the last `frame_size` entries of the recency list: the most recently used distinct pages, in order of last use |
| Recency.LastUseFacts | OSproject/paging.py:17-34 | `LastUse` is the last index that references the page, and it is -1 exactly when the page was never referenced |
| Recency.RecencyByLastUse | OSproject/paging.py:29-31 | the recency list is ordered by last use |
| Recency.RunByLastUse | OSproject/paging.py:12-31 | the deque is ordered from the least to the most recently used page |
| Recency.RunKeepsMostRecent | OSproject/paging.py:22-31 | every resident page was used more recently than every referenced page that is not resident |
| Recency.RunOccupancy | OSproject/paging.py:25-28 | the set holds min(`frame_size`, number of distinct pages) pages, all of them referenced; while the frames are not full every referenced page is resident |
| Recency.StepRemovesFront | OSproject/paging.py:25-26 | a step removes a page exactly when it faults with full frames, and the page removed is the front one |
| Recency.EvictsLeastRecentlyUsed | OSproject/paging.py:25-26 | a reference that evicts finds the frames full, and evicts the resident page whose last use lies furthest back |
| Recency.RunInclusion | OSproject/paging.py:17-34 | every page resident with k frames is also resident with k + 1 frames |
| Recency.FaultAgainstPrefix | OSproject/paging.py:22-24 | reference i faults exactly when its page is missing from the set left by the run of the references before it |
| Recency.FaultWithFewerFrames | OSproject/paging.py:22-24 | a reference that faults with k + 1 frames also faults with k frames |
| Recency.MoreFramesFewerFaults | OSproject/paging.py:15-34 | with one frame more, `page_faults` is never larger |

## Left out

- The animation (OSproject/paging.py:36-75) is drawing only. It reads `memory_states`, `actions` and the running total, and changes none of them. The running total at line 57 is modelled by `FaultCount` and `RunRunningTotal`. Its red branch at line 65 can never be taken, because the page a record removes is never in its own snapshot (`RunRemovedNotResident`).
- The spreadsheet export (OSproject/paging.py:77-96) is file I/O that only reads the trace. Its "Removed Page" cell comes out blank for a removed page 0, because line 85 tests truthiness; `Evictions` lists the removed pages as the records hold them.
- Console output and library imports are not modelled.
- The deque `memory` and the lists `memory_states` and `actions` are sequence values that `SimulatePaging` reassigns, not shared mutable objects. Nothing else in the program holds them while the loop runs, so aliasing is not modelled. Each snapshot is a copy (`list(memory)`, line 33), as in the source.
- The cost of the deque operations is not modelled. `memory.remove` is linear in the source; here it is the function `RemoveFirst` on a sequence.
- Pages are unbounded integers. The records' `None` is `Option.None`, and the dictionary per action is the datatype `Action`.
- The code never checks the frame count. Below 1, the first reference faults on the empty deque and `popleft` (OSproject/paging.py:26) raises `IndexError`. `Simulate` and `SimulatePaging` return `Err(PopFromEmptyDeque)` there, and return an empty trace when there are no references.
