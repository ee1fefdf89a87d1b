/** Least-recently-used page replacement: the per-reference step and the
    trace of a whole run, as pure functions.  The resident set `memory` is
    ordered from the least recently used page (front) to the most recently
    used one (back). */
module Lru {

  datatype Option<T> = None | Some(value: T)

  /** The record appended to `actions` for every reference. */
  datatype Action = Action(inserted: Option<int>, removed: Option<int>, pageFault: bool)

  /** The resident set after one reference, and what that reference did. */
  datatype Step = Step(memory: seq<int>, action: Action)

  /** The four variables the simulation loop maintains. */
  datatype Outcome = Outcome(memory: seq<int>, memoryStates: seq<seq<int>>, actions: seq<Action>, pageFaults: nat)

  predicate NoDup(s: seq<int>)
  {
    forall i, j :: 0 <= i < j < |s| ==> s[i] != s[j]
  }

  /** `s` with every occurrence of `p` dropped, the other pages in their order. */
  function Without(s: seq<int>, p: int): (r: seq<int>)
    ensures |r| <= |s|
  {
    if s == [] then []
    else if s[0] == p then Without(s[1..], p)
    else [s[0]] + Without(s[1..], p)
  }

  /** What `Without` keeps and what it drops. */
  lemma {:induction false} WithoutFacts(s: seq<int>, p: int)
    ensures p !in Without(s, p)
    ensures forall x :: x != p ==> (x in Without(s, p) <==> x in s)
    ensures p !in s ==> Without(s, p) == s
    ensures p in s && NoDup(s) ==> |Without(s, p)| == |s| - 1
    ensures NoDup(s) ==> NoDup(Without(s, p))
  {
    if s != [] {
      WithoutFacts(s[1..], p);
      assert NoDup(s) ==> NoDup(s[1..]) && s[0] !in s[1..];
      assert s == [s[0]] + s[1..];
    }
  }

  lemma {:induction false} WithoutAppend(s: seq<int>, p: int, q: int)
    ensures Without(s + [q], p) == if p == q then Without(s, p) else Without(s, p) + [q]
  {
    if s == [] {
      assert s + [q] == [q];
      assert [q][1..] == [];
    } else {
      assert (s + [q])[1..] == s[1..] + [q];
      WithoutAppend(s[1..], p, q);
    }
  }

  lemma {:induction false} WithoutConcat(a: seq<int>, b: seq<int>, p: int)
    ensures Without(a + b, p) == Without(a, p) + Without(b, p)
  {
    if a == [] {
      assert a + b == b;
    } else {
      assert (a + b)[1..] == a[1..] + b;
      WithoutConcat(a[1..], b, p);
    }
  }

  /** `deque.remove`: drops the first occurrence of a page that is present. */
  function RemoveFirst(s: seq<int>, p: int): (r: seq<int>)
    requires p in s
    ensures |r| == |s| - 1
    // the occurrence dropped is the first one; everything else keeps its order
    ensures DropsFirst(s, p, r)
  {
    if s[0] == p then
      assert s[..0] + s[1..] == s[1..];
      s[1..]
    else
      var t := RemoveFirst(s[1..], p);
      DropsFirstCons(s, p, t);
      [s[0]] + t
  }

  /** `r` is `s` with its first `p` dropped. */
  predicate DropsFirst(s: seq<int>, p: int, r: seq<int>)
  {
    exists k :: 0 <= k < |s| && s[k] == p && p !in s[..k] && r == s[..k] + s[k + 1..]
  }

  /** Keeping a head that is not `p` in front of the tail with its first `p`
      dropped drops the first `p` of the whole sequence. */
  lemma DropsFirstCons(s: seq<int>, p: int, t: seq<int>)
    requires s != [] && s[0] != p && DropsFirst(s[1..], p, t)
    ensures DropsFirst(s, p, [s[0]] + t)
  {
    var k :| 0 <= k < |s[1..]| && s[1..][k] == p && p !in s[1..][..k] && t == s[1..][..k] + s[1..][k + 1..];
    assert s[..k + 1] == [s[0]] + s[1..][..k];
    assert s[k + 2..] == s[1..][k + 1..];
  }

  /** In a duplicate-free sequence the first occurrence is the only one. */
  lemma {:induction false} RemoveFirstIsWithout(s: seq<int>, p: int)
    requires p in s && NoDup(s)
    ensures RemoveFirst(s, p) == Without(s, p)
  {
    assert NoDup(s[1..]);
    if s[0] == p {
      WithoutFacts(s[1..], p);
    } else {
      RemoveFirstIsWithout(s[1..], p);
    }
  }

  /** One iteration of the simulation loop for reference `page`. */
  function LruStep(memory: seq<int>, page: int, frameSize: int): (r: Step)
    requires 1 <= frameSize
    // the reference faults exactly when the page is not resident
    ensures r.action.pageFault <==> page !in memory
    // afterwards the page is resident and is the most recently used one
    ensures |r.memory| > 0 && r.memory[|r.memory| - 1] == page
  {
    if page !in memory then
      if |memory| >= frameSize then
        Step(memory[1..] + [page], Action(Some(page), Some(memory[0]), true))
      else
        Step(memory + [page], Action(Some(page), None, true))
    else
      Step(RemoveFirst(memory, page) + [page], Action(None, None, false))
  }

  /** A hit inserts and removes nothing; the page moves to the back and the
      other resident pages keep their order. */
  lemma StepHit(memory: seq<int>, page: int, frameSize: int)
    requires 1 <= frameSize && NoDup(memory) && page in memory
    ensures LruStep(memory, page, frameSize) == Step(Without(memory, page) + [page], Action(None, None, false))
  {
    RemoveFirstIsWithout(memory, page);
  }

  /** A fault inserts the page; the front (least recently used) page is
      evicted exactly when the set is full, which, within capacity, means
      exactly `frameSize` pages are resident. */
  lemma StepFault(memory: seq<int>, page: int, frameSize: int)
    requires 1 <= frameSize && |memory| <= frameSize && page !in memory
    ensures var r := LruStep(memory, page, frameSize);
            r.action.inserted == Some(page) && r.action.pageFault &&
            (r.action.removed.Some? <==> |memory| == frameSize) &&
            (|memory| == frameSize ==> r.action.removed == Some(memory[0]) && r.memory == memory[1..] + [page]) &&
            (|memory| < frameSize ==> r.memory == memory + [page])
  {
  }

  /** A step keeps the resident set within capacity and free of duplicates. */
  lemma StepInvariant(memory: seq<int>, page: int, frameSize: int)
    requires 1 <= frameSize
    ensures |memory| <= frameSize ==> |LruStep(memory, page, frameSize).memory| <= frameSize
    ensures NoDup(memory) ==> NoDup(LruStep(memory, page, frameSize).memory)
  {
    if NoDup(memory) {
      if page in memory {
        StepHit(memory, page, frameSize);
        WithoutFacts(memory, page);
      } else if |memory| >= frameSize {
        assert NoDup(memory[1..]);
      }
    }
  }

  /** On every step the pages other than the referenced one keep their
      relative order: only the referenced page moves (to the back) and only
      the front page can leave. */
  lemma StepKeepsOrderOfOthers(memory: seq<int>, page: int, frameSize: int)
    requires 1 <= frameSize && NoDup(memory)
    ensures page in memory ==> Without(LruStep(memory, page, frameSize).memory, page) == Without(memory, page)
    ensures page !in memory && |memory| >= frameSize ==>
              Without(LruStep(memory, page, frameSize).memory, page) == memory[1..]
    ensures page !in memory && |memory| < frameSize ==>
              Without(LruStep(memory, page, frameSize).memory, page) == memory
  {
    if page in memory {
      StepHit(memory, page, frameSize);
      WithoutFacts(memory, page);
      WithoutFacts(Without(memory, page), page);
      WithoutAppend(Without(memory, page), page, page);
    } else if |memory| >= frameSize {
      WithoutAppend(memory[1..], page, page);
      WithoutFacts(memory[1..], page);
    } else {
      WithoutAppend(memory, page, page);
      WithoutFacts(memory, page);
    }
  }

  /** A page a step removes is not in the set that step leaves behind, so
      no snapshot shows the page its own record removed. */
  lemma StepRemovedNotResident(memory: seq<int>, page: int, frameSize: int)
    requires 1 <= frameSize && NoDup(memory)
    ensures LruStep(memory, page, frameSize).action.removed.Some? ==>
              LruStep(memory, page, frameSize).action.removed.value !in LruStep(memory, page, frameSize).memory
  {
    if page !in memory && |memory| >= frameSize {
      assert memory[0] !in memory[1..];
    }
  }

  /** The page removed at reference i of a run is absent from snapshot i. */
  lemma RunRemovedNotResident(refs: seq<int>, frameSize: int, i: nat)
    requires 1 <= frameSize && i < |refs|
    ensures Run(refs, frameSize).actions[i].removed.Some? ==>
              Run(refs, frameSize).actions[i].removed.value !in Run(refs, frameSize).memoryStates[i]
  {
    var o := Run(refs, frameSize);
    assert NoDup(Before(o.memoryStates, i)) by {
      RunPrefix(refs, frameSize, i);
      RunInvariant(refs[..i], frameSize);
    }
    assert Recorded(refs, o.memoryStates, o.actions, frameSize, i) by { RunRecords(refs, frameSize); }
    StepRemovedNotResident(Before(o.memoryStates, i), refs[i], frameSize);
  }

  /** Number of records whose `page_fault` is set: the running total shown
      in the animation title is `FaultCount(actions[..i + 1])`. */
  function FaultCount(actions: seq<Action>): (n: nat)
    ensures n <= |actions|
    decreases |actions|
  {
    if actions == [] then 0
    else FaultCount(actions[..|actions| - 1]) + (if actions[|actions| - 1].pageFault then 1 else 0)
  }

  /** The resident set just before reference `i` of a run. */
  function Before(memoryStates: seq<seq<int>>, i: nat): seq<int>
    requires i <= |memoryStates|
  {
    if i == 0 then [] else memoryStates[i - 1]
  }

  /** The simulation loop as a left fold over the reference list. */
  function Run(refs: seq<int>, frameSize: int): (o: Outcome)
    requires 1 <= frameSize
    decreases |refs|
    // one snapshot and one action record per reference
    ensures |o.memoryStates| == |refs| && |o.actions| == |refs|
    // the live resident set is the last snapshot
    ensures o.memory == Before(o.memoryStates, |refs|)
  {
    if refs == [] then Outcome([], [], [], 0)
    else
      var o := Run(refs[..|refs| - 1], frameSize);
      var s := LruStep(o.memory, refs[|refs| - 1], frameSize);
      var o' := Outcome(s.memory, o.memoryStates + [s.memory], o.actions + [s.action],
                        o.pageFaults + (if s.action.pageFault then 1 else 0));
      o'
  }

  /** The resident set of a run never exceeds the frame count and never
      holds a page twice. */
  lemma {:induction false} RunInvariant(refs: seq<int>, frameSize: int)
    requires 1 <= frameSize
    ensures NoDup(Run(refs, frameSize).memory) && |Run(refs, frameSize).memory| <= frameSize
    decreases |refs|
  {
    if refs != [] {
      var front := refs[..|refs| - 1];
      RunInvariant(front, frameSize);
      StepInvariant(Run(front, frameSize).memory, refs[|refs| - 1], frameSize);
      RunSnoc(refs, frameSize);
    }
  }

  /** The fault counter agrees with the action records. */
  lemma {:induction false} RunCountsFaults(refs: seq<int>, frameSize: int)
    requires 1 <= frameSize
    ensures Run(refs, frameSize).pageFaults == FaultCount(Run(refs, frameSize).actions) <= |refs|
    decreases |refs|
  {
    if refs != [] {
      var front := refs[..|refs| - 1];
      RunCountsFaults(front, frameSize);
      var o, o' := Run(refs, frameSize), Run(front, frameSize);
      RunSnoc(refs, frameSize);
      assert o.actions[..|o.actions| - 1] == o'.actions;
    }
  }

  /** Record i is what the step for `refs[i]` does to the snapshot before it. */
  predicate Recorded(refs: seq<int>, memoryStates: seq<seq<int>>, actions: seq<Action>, frameSize: int, i: nat)
    requires 1 <= frameSize && i < |refs| && i < |memoryStates| && i < |actions|
  {
    LruStep(Before(memoryStates, i), refs[i], frameSize) == Step(memoryStates[i], actions[i])
  }

  /** Every record of a run is the step applied to the snapshot before it. */
  lemma {:induction false} RunRecords(refs: seq<int>, frameSize: int)
    requires 1 <= frameSize
    ensures forall i :: 0 <= i < |refs| ==>
              Recorded(refs, Run(refs, frameSize).memoryStates, Run(refs, frameSize).actions, frameSize, i)
    decreases |refs|
  {
    if refs != [] {
      var front := refs[..|refs| - 1];
      RunRecords(front, frameSize);
      var o', o := Run(front, frameSize), Run(refs, frameSize);
      var s := LruStep(o'.memory, refs[|refs| - 1], frameSize);
      assert o.memoryStates == o'.memoryStates + [s.memory] && o.actions == o'.actions + [s.action] by {
        RunSnoc(refs, frameSize);
      }
      forall i | 0 <= i < |refs|
        ensures Recorded(refs, o.memoryStates, o.actions, frameSize, i)
      {
        if i < |refs| - 1 {
          RecordedExtend(front, refs, o'.memoryStates, o'.actions, s, frameSize, i);
        } else {
          assert Before(o.memoryStates, i) == o'.memory;
        }
      }
    }
  }

  /** Appending a record leaves the earlier records as they were. */
  lemma RecordedExtend(front: seq<int>, refs: seq<int>, memoryStates: seq<seq<int>>, actions: seq<Action>,
                       s: Step, frameSize: int, i: nat)
    requires 1 <= frameSize && |front| == |memoryStates| == |actions| && i < |front|
    requires |refs| == |front| + 1 && front == refs[..|front|]
    requires Recorded(front, memoryStates, actions, frameSize, i)
    ensures Recorded(refs, memoryStates + [s.memory], actions + [s.action], frameSize, i)
  {
    assert Before(memoryStates + [s.memory], i) == Before(memoryStates, i);
    assert refs[i] == front[i];
  }

  /** Conversely, the records of a run are the only ones consistent with
      the step: any snapshots and actions in which every record is the step
      applied to the snapshot before it are those of the run. */
  lemma {:induction false} RunUnique(refs: seq<int>, memoryStates: seq<seq<int>>, actions: seq<Action>, frameSize: int)
    requires 1 <= frameSize && |memoryStates| == |refs| && |actions| == |refs|
    requires forall i :: 0 <= i < |refs| ==> Recorded(refs, memoryStates, actions, frameSize, i)
    ensures Run(refs, frameSize).memoryStates == memoryStates && Run(refs, frameSize).actions == actions
    decreases |refs|
  {
    if refs != [] {
      var n := |refs| - 1;
      forall i | 0 <= i < n
        ensures Recorded(refs[..n], memoryStates[..n], actions[..n], frameSize, i)
      {
        RecordedRestrict(refs, memoryStates, actions, frameSize, i);
      }
      RunUnique(refs[..n], memoryStates[..n], actions[..n], frameSize);
      UniqueStep(refs, memoryStates, actions, frameSize);
    }
  }

  /** Dropping the last record leaves the earlier records as they were. */
  lemma RecordedRestrict(refs: seq<int>, memoryStates: seq<seq<int>>, actions: seq<Action>, frameSize: int, i: nat)
    requires 1 <= frameSize && |memoryStates| == |refs| && |actions| == |refs| && i < |refs| - 1
    requires Recorded(refs, memoryStates, actions, frameSize, i)
    ensures Recorded(refs[..|refs| - 1], memoryStates[..|refs| - 1], actions[..|refs| - 1], frameSize, i)
  {
    assert Before(memoryStates[..|refs| - 1], i) == Before(memoryStates, i);
  }

  /** The inductive step of `RunUnique`: a run whose shorter prefix has the
      given records, followed by a record that is the step, has all of them. */
  lemma UniqueStep(refs: seq<int>, memoryStates: seq<seq<int>>, actions: seq<Action>, frameSize: int)
    requires 1 <= frameSize && refs != [] && |memoryStates| == |refs| && |actions| == |refs|
    requires Run(refs[..|refs| - 1], frameSize).memoryStates == memoryStates[..|refs| - 1]
    requires Run(refs[..|refs| - 1], frameSize).actions == actions[..|refs| - 1]
    requires Recorded(refs, memoryStates, actions, frameSize, |refs| - 1)
    ensures Run(refs, frameSize).memoryStates == memoryStates && Run(refs, frameSize).actions == actions
  {
    var n := |refs| - 1;
    var o' := Run(refs[..n], frameSize);
    var s := LruStep(o'.memory, refs[n], frameSize);
    assert s == Step(memoryStates[n], actions[n]) by {
      assert o'.memory == Before(memoryStates, n) by {
        assert Before(memoryStates, n) == Before(memoryStates[..n], n);
      }
      assert Recorded(refs, memoryStates, actions, frameSize, n);
    }
    assert Run(refs, frameSize).memoryStates == o'.memoryStates + [s.memory] &&
           Run(refs, frameSize).actions == o'.actions + [s.action] by {
      RunSnoc(refs, frameSize);
    }
    assert memoryStates == memoryStates[..n] + [memoryStates[n]] by {
      SnocSplit(memoryStates);
    }
    assert actions == actions[..n] + [actions[n]] by {
      SnocSplit(actions);
    }
  }

  lemma SnocSplit<T>(s: seq<T>)
    requires s != []
    ensures s == s[..|s| - 1] + [s[|s| - 1]]
  {
  }

  /** Snapshot i is within capacity, duplicate-free, and ends with the page
      referenced at step i. */
  predicate Snapshot(memoryStates: seq<seq<int>>, refs: seq<int>, frameSize: int, i: nat)
    requires i < |memoryStates| && i < |refs|
  {
    var m := memoryStates[i];
    |m| <= frameSize && NoDup(m) && refs[i] in m && m[|m| - 1] == refs[i]
  }

  /** Every snapshot of a run is within capacity, duplicate-free, and ends
      with the page that was just referenced. */
  lemma RunSnapshots(refs: seq<int>, frameSize: int)
    requires 1 <= frameSize
    ensures forall i :: 0 <= i < |refs| ==> Snapshot(Run(refs, frameSize).memoryStates, refs, frameSize, i)
  {
    var o := Run(refs, frameSize);
    forall i | 0 <= i < |refs|
      ensures Snapshot(o.memoryStates, refs, frameSize, i)
    {
      var before := Before(o.memoryStates, i);
      assert NoDup(before) && |before| <= frameSize by {
        RunPrefix(refs, frameSize, i);
        RunInvariant(refs[..i], frameSize);
      }
      assert LruStep(before, refs[i], frameSize).memory == o.memoryStates[i] by {
        RunRecords(refs, frameSize);
        assert Recorded(refs, o.memoryStates, o.actions, frameSize, i);
      }
      StepInvariant(before, refs[i], frameSize);
    }
  }

  /** How a run grows by one reference: one snapshot and one record are
      appended; the earlier ones are untouched. */
  lemma RunSnoc(refs: seq<int>, frameSize: int)
    requires 1 <= frameSize && refs != []
    ensures var o, o' := Run(refs, frameSize), Run(refs[..|refs| - 1], frameSize);
            var s := LruStep(o'.memory, refs[|refs| - 1], frameSize);
            o.memory == s.memory && o.memoryStates == o'.memoryStates + [s.memory] &&
            o.actions == o'.actions + [s.action] &&
            o.pageFaults == o'.pageFaults + (if s.action.pageFault then 1 else 0)
  {
  }

  /** Running a prefix of the references yields the corresponding prefix of
      the trace: record i depends only on the references up to i. */
  lemma {:induction false} RunPrefix(refs: seq<int>, frameSize: int, n: nat)
    requires 1 <= frameSize && n <= |refs|
    ensures Run(refs[..n], frameSize).memoryStates == Run(refs, frameSize).memoryStates[..n]
    ensures Run(refs[..n], frameSize).actions == Run(refs, frameSize).actions[..n]
    ensures Run(refs[..n], frameSize).memory == Before(Run(refs, frameSize).memoryStates, n)
    decreases |refs|
  {
    if n == |refs| {
      assert refs[..n] == refs;
    } else {
      var front := refs[..|refs| - 1];
      assert front[..n] == refs[..n];
      var o, o' := Run(refs, frameSize), Run(front, frameSize);
      assert o.memoryStates[..n] == o'.memoryStates[..n] && o.actions[..n] == o'.actions[..n] &&
             Before(o.memoryStates, n) == Before(o'.memoryStates, n) by {
        RunSnoc(refs, frameSize);
        SnocPrefix(o'.memoryStates, o.memory, n);
        SnocPrefix(o'.actions, o.actions[|front|], n);
      }
      RunPrefix(front, frameSize, n);
    }
  }

  lemma SnocPrefix<T>(s: seq<T>, x: T, n: nat)
    requires n <= |s|
    ensures (s + [x])[..n] == s[..n]
    ensures 0 < n ==> (s + [x])[n - 1] == s[n - 1]
  {
  }

  /** A reference faults exactly when its page is not resident just before it. */
  lemma RunFaultIffAbsent(refs: seq<int>, frameSize: int, i: nat)
    requires 1 <= frameSize && i < |refs|
    ensures Run(refs, frameSize).actions[i].pageFault <==> refs[i] !in Before(Run(refs, frameSize).memoryStates, i)
  {
    RunRecords(refs, frameSize);
    var o := Run(refs, frameSize);
    assert Recorded(refs, o.memoryStates, o.actions, frameSize, i);
  }

  /** The running total of faults up to and including step i (the figure
      shown in the animation title) is the fault counter of the run of the
      first i + 1 references. */
  lemma RunRunningTotal(refs: seq<int>, frameSize: int, i: nat)
    requires 1 <= frameSize && i < |refs|
    ensures FaultCount(Run(refs, frameSize).actions[..i + 1]) == Run(refs[..i + 1], frameSize).pageFaults
  {
    RunPrefix(refs, frameSize, i + 1);
    RunCountsFaults(refs[..i + 1], frameSize);
  }

  /** The two steps a run over a single repeated page takes: the first fault into empty memory, then hits. */
  lemma StepAlone(page: int, frameSize: int)
    requires 1 <= frameSize
    ensures LruStep([], page, frameSize) == Step([page], Action(Some(page), None, true))
    ensures LruStep([page], page, frameSize) == Step([page], Action(None, None, false))
  {
    assert RemoveFirst([page], page) == [];
  }

  /** A run over a single page repeated: one fault (the first reference),
      no eviction, and the page alone is resident after every step. */
  lemma {:induction false} RunSamePage(refs: seq<int>, frameSize: int, page: int)
    requires 1 <= frameSize && |refs| > 0
    requires forall i :: 0 <= i < |refs| ==> refs[i] == page
    ensures Run(refs, frameSize).pageFaults == 1 && Run(refs, frameSize).memory == [page]
    decreases |refs|
  {
    var front := refs[..|refs| - 1];
    var o, o' := Run(refs, frameSize), Run(front, frameSize);
    var s := LruStep(o'.memory, page, frameSize);
    assert o.memory == s.memory && o.pageFaults == o'.pageFaults + (if s.action.pageFault then 1 else 0) by {
      RunSnoc(refs, frameSize);
    }
    StepAlone(page, frameSize);
    if |refs| > 1 {
      assert forall i :: 0 <= i < |front| ==> front[i] == page;
      RunSamePage(front, frameSize, page);
    }
  }

  /** Every record of a run over one repeated page: nothing is ever evicted
      and the resident set is that page alone. */
  lemma RunSamePageRecords(refs: seq<int>, frameSize: int, page: int)
    requires 1 <= frameSize
    requires forall i :: 0 <= i < |refs| ==> refs[i] == page
    ensures forall i :: 0 <= i < |refs| ==>
              Run(refs, frameSize).actions[i].removed == None && Run(refs, frameSize).memoryStates[i] == [page]
  {
    var o := Run(refs, frameSize);
    forall i | 0 <= i < |refs|
      ensures o.actions[i].removed == None && o.memoryStates[i] == [page]
    {
      assert o.memoryStates[i] == [page] by {
        RunPrefix(refs, frameSize, i + 1);
        var pre := refs[..i + 1];
        assert forall j :: 0 <= j < |pre| ==> pre[j] == page;
        RunSamePage(pre, frameSize, page);
      }
      assert Before(o.memoryStates, i) == [] || Before(o.memoryStates, i) == [page] by {
        if i > 0 {
          RunPrefix(refs, frameSize, i);
          var pre := refs[..i];
          assert forall j :: 0 <= j < |pre| ==> pre[j] == page;
          RunSamePage(pre, frameSize, page);
        }
      }
      assert Recorded(refs, o.memoryStates, o.actions, frameSize, i) by { RunRecords(refs, frameSize); }
      StepAlone(page, frameSize);
    }
  }

  /** What record i of a single-frame run looks like: the resident set is the
      page just referenced, and the reference faults, evicting the previous
      page, exactly when it differs from the previous reference. */
  predicate OneFrameRecord(refs: seq<int>, memoryStates: seq<seq<int>>, actions: seq<Action>, i: nat)
    requires i < |refs| && i < |memoryStates| && i < |actions|
  {
    && memoryStates[i] == [refs[i]]
    && (actions[i].pageFault <==> i == 0 || refs[i] != refs[i - 1])
    && actions[i].removed == (if 0 < i && refs[i] != refs[i - 1] then Some(refs[i - 1]) else None)
  }

  /** With a single frame, the resident set is always the page just
      referenced, and a reference faults exactly when it differs from the
      previous one, evicting that previous page. */
  lemma RunOneFrame(refs: seq<int>)
    ensures forall i :: 0 <= i < |refs| ==> OneFrameRecord(refs, Run(refs, 1).memoryStates, Run(refs, 1).actions, i)
  {
    var o := Run(refs, 1);
    RunSnapshots(refs, 1);
    RunRecords(refs, 1);
    forall i | 0 <= i < |refs|
      ensures OneFrameRecord(refs, o.memoryStates, o.actions, i)
    {
      assert Snapshot(o.memoryStates, refs, 1, i);
      assert Recorded(refs, o.memoryStates, o.actions, 1, i);
      if i > 0 {
        assert Snapshot(o.memoryStates, refs, 1, i - 1);
        assert Before(o.memoryStates, i) == [refs[i - 1]];
      }
    }
  }

  /** The removed pages, in order, as the records hold them. */
  function Evictions(actions: seq<Action>): seq<int>
    decreases |actions|
  {
    if actions == [] then []
    else
      var rest := Evictions(actions[..|actions| - 1]);
      match actions[|actions| - 1].removed
      case Some(q) => rest + [q]
      case None => rest
  }

  /** Counting one more record. */
  lemma CountsSnoc(actions: seq<Action>, n: nat)
    requires n < |actions|
    ensures FaultCount(actions[..n + 1]) == FaultCount(actions[..n]) + if actions[n].pageFault then 1 else 0
    ensures Evictions(actions[..n + 1]) ==
              Evictions(actions[..n]) + match actions[n].removed
                                        case Some(q) => [q]
                                        case None => []
  {
    assert actions[..n + 1][..n] == actions[..n];
  }

  /** Extending the references by one runs one more step on the resident set
      left by the shorter run. */
  lemma RunExtend(refs: seq<int>, frameSize: int, n: nat, s: Step)
    requires 1 <= frameSize && n < |refs|
    requires s == LruStep(Run(refs[..n], frameSize).memory, refs[n], frameSize)
    ensures Run(refs[..n + 1], frameSize) ==
              Outcome(s.memory, Run(refs[..n], frameSize).memoryStates + [s.memory],
                      Run(refs[..n], frameSize).actions + [s.action],
                      Run(refs[..n], frameSize).pageFaults + (if s.action.pageFault then 1 else 0))
  {
    assert refs[..n + 1][..n] == refs[..n];
  }

  datatype Error = PopFromEmptyDeque

  datatype Result<T> = Ok(value: T) | Err(error: Error)

  /** The whole simulation for any `frameSize`.  Nothing checks the frame
      size: when it is below 1 the first reference finds the (empty) set
      "full" and `popleft` fails; with no references there is nothing to do. */
  function Simulate(refs: seq<int>, frameSize: int): (r: Result<Outcome>)
    ensures r.Err? <==> frameSize < 1 && refs != []
    ensures r.Ok? ==> |r.value.memoryStates| == |refs| && |r.value.actions| == |refs|
  {
    if frameSize < 1 then
      if refs == [] then Ok(Outcome([], [], [], 0)) else Err(PopFromEmptyDeque)
    else Ok(Run(refs, frameSize))
  }
}
