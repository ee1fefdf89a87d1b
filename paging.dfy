/** The simulation loop over the deque `memory`, the snapshot list
    `memory_states`, the action list `actions` and the counter
    `page_faults`, and the literal inputs it is run on. */
module Paging {
  import opened Lru

  const PageReferences: seq<int> := [8, 1, 2, 3, 1, 4, 1, 5, 3, 4, 1, 4, 3, 2, 3, 1, 2, 8, 1, 2]
  const FrameSize: int := 4

  /** The loop itself: one iteration per reference, updating the four
      variables in place.  It ends in an error exactly where `popleft` would
      find the deque empty. */
  method SimulatePaging(pageReferences: seq<int>, frameSize: int) returns (r: Result<Outcome>)
    ensures r == Simulate(pageReferences, frameSize)
  {
    var memory: seq<int> := [];
    var memoryStates: seq<seq<int>> := [];
    var actions: seq<Action> := [];
    var pageFaults: nat := 0;
    for i := 0 to |pageReferences|
      invariant frameSize < 1 ==> i == 0 && memory == [] && memoryStates == [] && actions == [] && pageFaults == 0
      invariant 1 <= frameSize ==> Outcome(memory, memoryStates, actions, pageFaults) == Run(pageReferences[..i], frameSize)
    {
      var page := pageReferences[i];
      var removed: Option<int> := None;
      var inserted: Option<int> := None;
      var pageFault := false;
      ghost var before := memory;
      if page !in memory {
        pageFaults := pageFaults + 1;
        pageFault := true;
        if |memory| >= frameSize {
          if memory == [] {
            return Err(PopFromEmptyDeque);
          }
          removed := Some(memory[0]);
          memory := memory[1..];
        }
        memory := memory + [page];
        inserted := Some(page);
      } else {
        memory := RemoveFirst(memory, page);
        memory := memory + [page];
      }
      memoryStates := memoryStates + [memory];
      actions := actions + [Action(inserted, removed, pageFault)];
      assert LruStep(before, page, frameSize) == Step(memory, Action(inserted, removed, pageFault));
      RunExtend(pageReferences, frameSize, i, Step(memory, Action(inserted, removed, pageFault)));
    }
    assert pageReferences[..|pageReferences|] == pageReferences;
    return Ok(Outcome(memory, memoryStates, actions, pageFaults));
  }

  /** The resident set after literal reference i, as the "Memory Frame"
      columns of the exported table list it, front first. */
  function LiteralState(i: nat): seq<int>
  {
    match i
    case 0 => [8]
    case 1 => [8, 1]
    case 2 => [8, 1, 2]
    case 3 => [8, 1, 2, 3]
    case 4 => [8, 2, 3, 1]
    case 5 => [2, 3, 1, 4]
    case 6 => [2, 3, 4, 1]
    case 7 => [3, 4, 1, 5]
    case 8 => [4, 1, 5, 3]
    case 9 => [1, 5, 3, 4]
    case 10 => [5, 3, 4, 1]
    case 11 => [5, 3, 1, 4]
    case 12 => [5, 1, 4, 3]
    case 13 => [1, 4, 3, 2]
    case 14 => [1, 4, 2, 3]
    case 15 => [4, 2, 3, 1]
    case 16 => [4, 3, 1, 2]
    case 17 => [3, 1, 2, 8]
    case 18 => [3, 2, 8, 1]
    case _ => [3, 8, 1, 2]
  }

  /** The action record of literal reference i. */
  function LiteralAction(i: nat): Action
  {
    match i
    case 0 => Action(Some(8), None, true)
    case 1 => Action(Some(1), None, true)
    case 2 => Action(Some(2), None, true)
    case 3 => Action(Some(3), None, true)
    case 4 => Action(None, None, false)
    case 5 => Action(Some(4), Some(8), true)
    case 6 => Action(None, None, false)
    case 7 => Action(Some(5), Some(2), true)
    case 8 => Action(None, None, false)
    case 9 => Action(None, None, false)
    case 10 => Action(None, None, false)
    case 11 => Action(None, None, false)
    case 12 => Action(None, None, false)
    case 13 => Action(Some(2), Some(5), true)
    case 14 => Action(None, None, false)
    case 15 => Action(None, None, false)
    case 16 => Action(None, None, false)
    case 17 => Action(Some(8), Some(4), true)
    case 18 => Action(None, None, false)
    case _ => Action(None, None, false)
  }

  const LiteralStates: seq<seq<int>> := seq(20, i requires 0 <= i => LiteralState(i))
  const LiteralActions: seq<Action> := seq(20, i requires 0 <= i => LiteralAction(i))

  /** A record follows from the step it makes, once the snapshot before it,
      the reference, the snapshot and the action are known. */
  lemma RecordedAt(refs: seq<int>, memoryStates: seq<seq<int>>, actions: seq<Action>, frameSize: int, i: nat,
                   before: seq<int>, page: int, after: seq<int>, action: Action)
    requires 1 <= frameSize && i < |refs| && i < |memoryStates| && i < |actions|
    requires Before(memoryStates, i) == before && refs[i] == page
    requires memoryStates[i] == after && actions[i] == action
    requires LruStep(before, page, frameSize) == Step(after, action)
    ensures Recorded(refs, memoryStates, actions, frameSize, i)
  {
  }

  /** Record i of the literal run is the step applied to the snapshot before
      it.  There is one lemma per record, each stating the record's values
      as literals, so that every step is evaluated on concrete sequences
      alone; `LiteralRecords` then gathers the twenty of them. */
  lemma LiteralRow0()
    ensures Recorded(PageReferences, LiteralStates, LiteralActions, FrameSize, 0)
  {
    RecordedAt(PageReferences, LiteralStates, LiteralActions, FrameSize, 0,
               [], 8, [8], Action(Some(8), None, true));
  }

  lemma LiteralRow1()
    ensures Recorded(PageReferences, LiteralStates, LiteralActions, FrameSize, 1)
  {
    RecordedAt(PageReferences, LiteralStates, LiteralActions, FrameSize, 1,
               [8], 1, [8, 1], Action(Some(1), None, true));
  }

  lemma LiteralRow2()
    ensures Recorded(PageReferences, LiteralStates, LiteralActions, FrameSize, 2)
  {
    RecordedAt(PageReferences, LiteralStates, LiteralActions, FrameSize, 2,
               [8, 1], 2, [8, 1, 2], Action(Some(2), None, true));
  }

  lemma LiteralRow3()
    ensures Recorded(PageReferences, LiteralStates, LiteralActions, FrameSize, 3)
  {
    RecordedAt(PageReferences, LiteralStates, LiteralActions, FrameSize, 3,
               [8, 1, 2], 3, [8, 1, 2, 3], Action(Some(3), None, true));
  }

  lemma LiteralRow4()
    ensures Recorded(PageReferences, LiteralStates, LiteralActions, FrameSize, 4)
  {
    RecordedAt(PageReferences, LiteralStates, LiteralActions, FrameSize, 4,
               [8, 1, 2, 3], 1, [8, 2, 3, 1], Action(None, None, false));
  }

  lemma LiteralRow5()
    ensures Recorded(PageReferences, LiteralStates, LiteralActions, FrameSize, 5)
  {
    RecordedAt(PageReferences, LiteralStates, LiteralActions, FrameSize, 5,
               [8, 2, 3, 1], 4, [2, 3, 1, 4], Action(Some(4), Some(8), true));
  }

  lemma LiteralRow6()
    ensures Recorded(PageReferences, LiteralStates, LiteralActions, FrameSize, 6)
  {
    RecordedAt(PageReferences, LiteralStates, LiteralActions, FrameSize, 6,
               [2, 3, 1, 4], 1, [2, 3, 4, 1], Action(None, None, false));
  }

  lemma LiteralRow7()
    ensures Recorded(PageReferences, LiteralStates, LiteralActions, FrameSize, 7)
  {
    RecordedAt(PageReferences, LiteralStates, LiteralActions, FrameSize, 7,
               [2, 3, 4, 1], 5, [3, 4, 1, 5], Action(Some(5), Some(2), true));
  }

  lemma LiteralRow8()
    ensures Recorded(PageReferences, LiteralStates, LiteralActions, FrameSize, 8)
  {
    RecordedAt(PageReferences, LiteralStates, LiteralActions, FrameSize, 8,
               [3, 4, 1, 5], 3, [4, 1, 5, 3], Action(None, None, false));
  }

  lemma LiteralRow9()
    ensures Recorded(PageReferences, LiteralStates, LiteralActions, FrameSize, 9)
  {
    RecordedAt(PageReferences, LiteralStates, LiteralActions, FrameSize, 9,
               [4, 1, 5, 3], 4, [1, 5, 3, 4], Action(None, None, false));
  }

  lemma LiteralRow10()
    ensures Recorded(PageReferences, LiteralStates, LiteralActions, FrameSize, 10)
  {
    RecordedAt(PageReferences, LiteralStates, LiteralActions, FrameSize, 10,
               [1, 5, 3, 4], 1, [5, 3, 4, 1], Action(None, None, false));
  }

  lemma LiteralRow11()
    ensures Recorded(PageReferences, LiteralStates, LiteralActions, FrameSize, 11)
  {
    RecordedAt(PageReferences, LiteralStates, LiteralActions, FrameSize, 11,
               [5, 3, 4, 1], 4, [5, 3, 1, 4], Action(None, None, false));
  }

  lemma LiteralRow12()
    ensures Recorded(PageReferences, LiteralStates, LiteralActions, FrameSize, 12)
  {
    RecordedAt(PageReferences, LiteralStates, LiteralActions, FrameSize, 12,
               [5, 3, 1, 4], 3, [5, 1, 4, 3], Action(None, None, false));
  }

  lemma LiteralRow13()
    ensures Recorded(PageReferences, LiteralStates, LiteralActions, FrameSize, 13)
  {
    RecordedAt(PageReferences, LiteralStates, LiteralActions, FrameSize, 13,
               [5, 1, 4, 3], 2, [1, 4, 3, 2], Action(Some(2), Some(5), true));
  }

  lemma LiteralRow14()
    ensures Recorded(PageReferences, LiteralStates, LiteralActions, FrameSize, 14)
  {
    RecordedAt(PageReferences, LiteralStates, LiteralActions, FrameSize, 14,
               [1, 4, 3, 2], 3, [1, 4, 2, 3], Action(None, None, false));
  }

  lemma LiteralRow15()
    ensures Recorded(PageReferences, LiteralStates, LiteralActions, FrameSize, 15)
  {
    RecordedAt(PageReferences, LiteralStates, LiteralActions, FrameSize, 15,
               [1, 4, 2, 3], 1, [4, 2, 3, 1], Action(None, None, false));
  }

  lemma LiteralRow16()
    ensures Recorded(PageReferences, LiteralStates, LiteralActions, FrameSize, 16)
  {
    RecordedAt(PageReferences, LiteralStates, LiteralActions, FrameSize, 16,
               [4, 2, 3, 1], 2, [4, 3, 1, 2], Action(None, None, false));
  }

  lemma LiteralRow17()
    ensures Recorded(PageReferences, LiteralStates, LiteralActions, FrameSize, 17)
  {
    RecordedAt(PageReferences, LiteralStates, LiteralActions, FrameSize, 17,
               [4, 3, 1, 2], 8, [3, 1, 2, 8], Action(Some(8), Some(4), true));
  }

  lemma LiteralRow18()
    ensures Recorded(PageReferences, LiteralStates, LiteralActions, FrameSize, 18)
  {
    RecordedAt(PageReferences, LiteralStates, LiteralActions, FrameSize, 18,
               [3, 1, 2, 8], 1, [3, 2, 8, 1], Action(None, None, false));
  }

  lemma LiteralRow19()
    ensures Recorded(PageReferences, LiteralStates, LiteralActions, FrameSize, 19)
  {
    RecordedAt(PageReferences, LiteralStates, LiteralActions, FrameSize, 19,
               [3, 2, 8, 1], 2, [3, 8, 1, 2], Action(None, None, false));
  }

  lemma LiteralRecords()
    ensures forall i :: 0 <= i < |PageReferences| ==>
              Recorded(PageReferences, LiteralStates, LiteralActions, FrameSize, i)
  {
    forall i | 0 <= i < |PageReferences|
      ensures Recorded(PageReferences, LiteralStates, LiteralActions, FrameSize, i)
    {
      if i == 0 {
        LiteralRow0();
      } else if i == 1 {
        LiteralRow1();
      } else if i == 2 {
        LiteralRow2();
      } else if i == 3 {
        LiteralRow3();
      } else if i == 4 {
        LiteralRow4();
      } else if i == 5 {
        LiteralRow5();
      } else if i == 6 {
        LiteralRow6();
      } else if i == 7 {
        LiteralRow7();
      } else if i == 8 {
        LiteralRow8();
      } else if i == 9 {
        LiteralRow9();
      } else if i == 10 {
        LiteralRow10();
      } else if i == 11 {
        LiteralRow11();
      } else if i == 12 {
        LiteralRow12();
      } else if i == 13 {
        LiteralRow13();
      } else if i == 14 {
        LiteralRow14();
      } else if i == 15 {
        LiteralRow15();
      } else if i == 16 {
        LiteralRow16();
      } else if i == 17 {
        LiteralRow17();
      } else if i == 18 {
        LiteralRow18();
      } else {
        LiteralRow19();
      }
    }
  }

  /** Counting one more literal record, once it is known. */
  lemma CountsAt(actions: seq<Action>, n: nat, faults: nat, evicted: seq<int>, action: Action)
    requires n < |actions| && actions[n] == action
    requires FaultCount(actions[..n]) == faults && Evictions(actions[..n]) == evicted
    ensures FaultCount(actions[..n + 1]) == faults + if action.pageFault then 1 else 0
    ensures Evictions(actions[..n + 1]) ==
              evicted + match action.removed
                        case Some(q) => [q]
                        case None => []
  {
    CountsSnoc(actions, n);
  }

  /** Faults and evictions among the prefixes of the literal records. */
  lemma LiteralCounts5()
    ensures FaultCount(LiteralActions[..5]) == 4 && Evictions(LiteralActions[..5]) == []
  {
    assert LiteralActions[..0] == [];
    CountsAt(LiteralActions, 0, 0, [], Action(Some(8), None, true));
    CountsAt(LiteralActions, 1, 1, [], Action(Some(1), None, true));
    CountsAt(LiteralActions, 2, 2, [], Action(Some(2), None, true));
    CountsAt(LiteralActions, 3, 3, [], Action(Some(3), None, true));
    CountsAt(LiteralActions, 4, 4, [], Action(None, None, false));
  }

  lemma LiteralCounts10()
    requires FaultCount(LiteralActions[..5]) == 4 && Evictions(LiteralActions[..5]) == []
    ensures FaultCount(LiteralActions[..10]) == 6 && Evictions(LiteralActions[..10]) == [8, 2]
  {
    CountsAt(LiteralActions, 5, 4, [], Action(Some(4), Some(8), true));
    CountsAt(LiteralActions, 6, 5, [8], Action(None, None, false));
    CountsAt(LiteralActions, 7, 5, [8], Action(Some(5), Some(2), true));
    CountsAt(LiteralActions, 8, 6, [8, 2], Action(None, None, false));
    CountsAt(LiteralActions, 9, 6, [8, 2], Action(None, None, false));
  }

  lemma LiteralCounts15()
    requires FaultCount(LiteralActions[..10]) == 6 && Evictions(LiteralActions[..10]) == [8, 2]
    ensures FaultCount(LiteralActions[..15]) == 7 && Evictions(LiteralActions[..15]) == [8, 2, 5]
  {
    CountsAt(LiteralActions, 10, 6, [8, 2], Action(None, None, false));
    CountsAt(LiteralActions, 11, 6, [8, 2], Action(None, None, false));
    CountsAt(LiteralActions, 12, 6, [8, 2], Action(None, None, false));
    CountsAt(LiteralActions, 13, 6, [8, 2], Action(Some(2), Some(5), true));
    CountsAt(LiteralActions, 14, 7, [8, 2, 5], Action(None, None, false));
  }

  lemma LiteralCounts20()
    requires FaultCount(LiteralActions[..15]) == 7 && Evictions(LiteralActions[..15]) == [8, 2, 5]
    ensures FaultCount(LiteralActions[..20]) == 8 && Evictions(LiteralActions[..20]) == [8, 2, 5, 4]
  {
    CountsAt(LiteralActions, 15, 7, [8, 2, 5], Action(None, None, false));
    CountsAt(LiteralActions, 16, 7, [8, 2, 5], Action(None, None, false));
    CountsAt(LiteralActions, 17, 7, [8, 2, 5], Action(Some(8), Some(4), true));
    CountsAt(LiteralActions, 18, 8, [8, 2, 5, 4], Action(None, None, false));
    CountsAt(LiteralActions, 19, 8, [8, 2, 5, 4], Action(None, None, false));
  }

  lemma LiteralCounts()
    ensures FaultCount(LiteralActions) == 8
    ensures Evictions(LiteralActions) == [8, 2, 5, 4]
  {
    LiteralCounts5();
    LiteralCounts10();
    LiteralCounts15();
    LiteralCounts20();
    assert LiteralActions[..20] == LiteralActions;
  }

  /** The run on the literal inputs: there are 8 faults, the pages 8, 2, 5
      and 4 are evicted in that order, and the frames end as 3, 8, 1, 2. */
  lemma LiteralRun()
    ensures Simulate(PageReferences, FrameSize) == Ok(Run(PageReferences, FrameSize))
    ensures Run(PageReferences, FrameSize).memoryStates == LiteralStates
    ensures Run(PageReferences, FrameSize).actions == LiteralActions
    ensures Run(PageReferences, FrameSize).pageFaults == 8
    ensures Evictions(Run(PageReferences, FrameSize).actions) == [8, 2, 5, 4]
    ensures Run(PageReferences, FrameSize).memory == [3, 8, 1, 2]
  {
    var o := Run(PageReferences, FrameSize);
    assert o.memoryStates == LiteralStates && o.actions == LiteralActions by {
      LiteralRecords();
      RunUnique(PageReferences, LiteralStates, LiteralActions, FrameSize);
    }
    assert o.pageFaults == 8 && Evictions(o.actions) == [8, 2, 5, 4] by {
      LiteralCounts();
      RunCountsFaults(PageReferences, FrameSize);
    }
    assert o.memory == [3, 8, 1, 2] by {
      assert Before(o.memoryStates, 20) == LiteralState(19);
    }
  }
}
