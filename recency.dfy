/** An independent description of what least-recently-used replacement
    keeps resident: the `frameSize` distinct pages referenced most recently,
    ordered by the time of their last reference.  The lemmas here tie the
    step-by-step run of module `Lru` to that description. */
module Recency {
  import opened Lru

  /** The distinct pages of `refs`, ordered by their last reference, the
      least recently used first. */
  function Recency(refs: seq<int>): (r: seq<int>)
    decreases |refs|
  {
    if refs == [] then []
    else Without(Recency(refs[..|refs| - 1]), refs[|refs| - 1]) + [refs[|refs| - 1]]
  }

  /** The recency list holds every referenced page exactly once. */
  lemma {:induction false} RecencyFacts(refs: seq<int>)
    ensures NoDup(Recency(refs))
    ensures forall x :: x in Recency(refs) <==> x in refs
    decreases |refs|
  {
    if refs != [] {
      var front, p := refs[..|refs| - 1], refs[|refs| - 1];
      RecencyFacts(front);
      WithoutFacts(Recency(front), p);
      assert refs == front + [p];
      NoDupSnoc(Without(Recency(front), p), p);
    }
  }

  lemma NoDupSnoc(s: seq<int>, p: int)
    requires NoDup(s) && p !in s
    ensures NoDup(s + [p])
  {
  }

  /** The last `n` elements of `s`, or all of them when there are fewer. */
  function LastN(s: seq<int>, n: nat): (r: seq<int>)
    ensures |r| == if |s| <= n then |s| else n
  {
    if |s| <= n then s else s[|s| - n..]
  }

  /** Everything `LastN` keeps is in `s`, and is a suffix of it. */
  lemma LastNSuffix(s: seq<int>, n: nat)
    ensures s == s[..|s| - |LastN(s, n)|] + LastN(s, n)
  {
  }

  lemma LastNConcat(a: seq<int>, b: seq<int>, n: nat)
    requires |b| == n
    ensures LastN(a + b, n) == b
  {
    assert (a + b)[|a + b| - n..] == b;
  }

  lemma LastNSnoc(s: seq<int>, p: int, n: nat)
    requires 1 <= n <= |s|
    ensures LastN(s + [p], n) == LastN(s, n)[1..] + [p]
  {
    assert (s + [p])[|s| + 1 - n..] == s[|s| - n..][1..] + [p];
  }

  /** The resident set of a run is the `frameSize` most recently used
      distinct pages, in the order of their last use. */
  lemma {:induction false} RunIsMostRecent(refs: seq<int>, frameSize: int)
    requires 1 <= frameSize
    ensures Run(refs, frameSize).memory == LastN(Recency(refs), frameSize)
    decreases |refs|
  {
    if refs != [] {
      var front, p := refs[..|refs| - 1], refs[|refs| - 1];
      RunIsMostRecent(front, frameSize);
      var m := Run(front, frameSize).memory;
      assert Run(refs, frameSize).memory == LruStep(m, p, frameSize).memory by {
        RunSnoc(refs, frameSize);
      }
      RecencyFacts(front);
      MostRecentStep(Recency(front), p, frameSize);
    }
  }

  /** The inductive step of `RunIsMostRecent`: one step on the most recent
      pages of a recency list gives the most recent pages of the next one. */
  lemma MostRecentStep(r: seq<int>, p: int, frameSize: int)
    requires 1 <= frameSize && NoDup(r)
    ensures LruStep(LastN(r, frameSize), p, frameSize).memory == LastN(Without(r, p) + [p], frameSize)
  {
    var m := LastN(r, frameSize);
    var a := r[..|r| - |m|];
    assert r == a + m by { LastNSuffix(r, frameSize); }
    assert NoDup(m) && (forall x :: x in a ==> x !in m) by { NoDupSplit(a, m); }
    assert Without(r, p) == Without(a, p) + Without(m, p) by { WithoutConcat(a, m, p); }
    if p in m {
      MostRecentHit(r, a, m, p, frameSize);
    } else if p in r {
      MostRecentEvict(r, a, m, p, frameSize);
    } else {
      WithoutFacts(r, p);
      if |r| >= frameSize {
        LastNSnoc(r, p, frameSize);
      }
    }
  }

  /** A hit: the page moves from among the most recent ones to the back. */
  lemma MostRecentHit(r: seq<int>, a: seq<int>, m: seq<int>, p: int, frameSize: int)
    requires 1 <= frameSize && r == a + m && m == LastN(r, frameSize) && NoDup(m)
    requires p in m && p !in a && Without(r, p) == Without(a, p) + Without(m, p)
    ensures LruStep(m, p, frameSize).memory == LastN(Without(r, p) + [p], frameSize)
  {
    WithoutFacts(m, p);
    WithoutFacts(a, p);
    StepHit(m, p, frameSize);
    assert Without(r, p) + [p] == a + (Without(m, p) + [p]);
    if |r| > frameSize {
      LastNConcat(a, Without(m, p) + [p], frameSize);
    }
  }

  /** A fault on a page used before, but longer ago than the resident ones:
      the least recently used page goes. */
  lemma MostRecentEvict(r: seq<int>, a: seq<int>, m: seq<int>, p: int, frameSize: int)
    requires 1 <= frameSize && r == a + m && m == LastN(r, frameSize)
    requires p !in m && p in r && Without(r, p) == Without(a, p) + Without(m, p)
    ensures LruStep(m, p, frameSize).memory == LastN(Without(r, p) + [p], frameSize)
  {
    WithoutFacts(m, p);
    assert |r| > frameSize && |m| == frameSize;
    assert Without(r, p) + [p] == (Without(a, p) + m[..1]) + (m[1..] + [p]);
    LastNConcat(Without(a, p) + m[..1], m[1..] + [p], frameSize);
  }

  lemma NoDupSplit(a: seq<int>, b: seq<int>)
    requires NoDup(a + b)
    ensures NoDup(b) && forall x :: x in a ==> x !in b
  {
    forall x | x in a
      ensures x !in b
    {
      var i :| 0 <= i < |a| && a[i] == x;
      forall j | 0 <= j < |b|
        ensures b[j] != x
      {
        assert (a + b)[i] == a[i] && (a + b)[|a| + j] == b[j];
      }
    }
    forall i, j | 0 <= i < j < |b|
      ensures b[i] != b[j]
    {
      assert (a + b)[|a| + i] != (a + b)[|a| + j];
    }
  }

  /** The index of the last reference to `x`, or -1 if there is none. */
  function LastUse(refs: seq<int>, x: int): (r: int)
    ensures -1 <= r < |refs|
    decreases |refs|
  {
    if refs == [] then -1
    else if refs[|refs| - 1] == x then |refs| - 1
    else LastUse(refs[..|refs| - 1], x)
  }

  /** `LastUse` is the last index holding `x`. */
  lemma {:induction false} LastUseFacts(refs: seq<int>, x: int)
    ensures LastUse(refs, x) >= 0 <==> x in refs
    ensures LastUse(refs, x) >= 0 ==> refs[LastUse(refs, x)] == x
    ensures forall j :: LastUse(refs, x) < j < |refs| ==> refs[j] != x
    decreases |refs|
  {
    if refs != [] {
      var front := refs[..|refs| - 1];
      LastUseFacts(front, x);
      assert refs == front + [refs[|refs| - 1]];
    }
  }

  /** `s` lists pages in increasing order of their last reference in `refs`. */
  predicate ByLastUse(s: seq<int>, refs: seq<int>)
  {
    forall i, j :: 0 <= i < j < |s| ==> LastUse(refs, s[i]) < LastUse(refs, s[j])
  }

  /** Dropping a page keeps the order of the others. */
  lemma {:induction false} WithoutByLastUse(s: seq<int>, p: int, refs: seq<int>)
    requires ByLastUse(s, refs)
    ensures ByLastUse(Without(s, p), refs)
    decreases |s|
  {
    if s != [] {
      ByLastUseTail(s, refs);
      WithoutByLastUse(s[1..], p, refs);
      if s[0] != p {
        WithoutFacts(s[1..], p);
        ByLastUseCons(s[0], Without(s[1..], p), refs);
      }
    }
  }

  lemma ByLastUseTail(s: seq<int>, refs: seq<int>)
    requires s != [] && ByLastUse(s, refs)
    ensures ByLastUse(s[1..], refs)
    ensures forall y :: y in s[1..] ==> LastUse(refs, s[0]) < LastUse(refs, y)
  {
    var t := s[1..];
    forall i, j | 0 <= i < j < |t|
      ensures LastUse(refs, t[i]) < LastUse(refs, t[j])
    {
      assert t[i] == s[i + 1] && t[j] == s[j + 1];
    }
    forall y | y in t
      ensures LastUse(refs, s[0]) < LastUse(refs, y)
    {
      var k :| 0 <= k < |t| && t[k] == y;
      assert s[k + 1] == y;
    }
  }

  lemma ByLastUseCons(x: int, w: seq<int>, refs: seq<int>)
    requires ByLastUse(w, refs) && forall y :: y in w ==> LastUse(refs, x) < LastUse(refs, y)
    ensures ByLastUse([x] + w, refs)
  {
    var c := [x] + w;
    forall i, j | 0 <= i < j < |c|
      ensures LastUse(refs, c[i]) < LastUse(refs, c[j])
    {
      assert c[j] == w[j - 1] && c[j] in w;
      if i > 0 {
        assert c[i] == w[i - 1];
      }
    }
  }

  /** For a page other than the one just referenced, the last use is the
      same with or without that last reference. */
  lemma LastUseSnoc(refs: seq<int>, x: int)
    requires refs != [] && x != refs[|refs| - 1]
    ensures LastUse(refs, x) == LastUse(refs[..|refs| - 1], x)
  {
  }

  /** The recency list is ordered by last use. */
  lemma {:induction false} RecencyByLastUse(refs: seq<int>)
    ensures ByLastUse(Recency(refs), refs)
    decreases |refs|
  {
    if refs != [] {
      var front, p := refs[..|refs| - 1], refs[|refs| - 1];
      RecencyByLastUse(front);
      var w := Without(Recency(front), p);
      WithoutByLastUse(Recency(front), p, front);
      WithoutFacts(Recency(front), p);
      var r := w + [p];
      forall i, j | 0 <= i < j < |r|
        ensures LastUse(refs, r[i]) < LastUse(refs, r[j])
      {
        assert r[i] == w[i] && r[i] in w;
        LastUseSnoc(refs, r[i]);
        if j < |w| {
          assert r[j] == w[j] && r[j] in w;
          LastUseSnoc(refs, r[j]);
        }
      }
    }
  }

  lemma LastNByLastUse(s: seq<int>, n: nat, refs: seq<int>)
    requires ByLastUse(s, refs)
    ensures ByLastUse(LastN(s, n), refs)
  {
    var m := LastN(s, n);
    var d := |s| - |m|;
    forall i, j | 0 <= i < j < |m|
      ensures LastUse(refs, m[i]) < LastUse(refs, m[j])
    {
      assert m[i] == s[d + i] && m[j] == s[d + j];
    }
  }

  /** The resident set is ordered from the least to the most recently used
      page. */
  lemma RunByLastUse(refs: seq<int>, frameSize: int)
    requires 1 <= frameSize
    ensures ByLastUse(Run(refs, frameSize).memory, refs)
  {
    RunIsMostRecent(refs, frameSize);
    RecencyByLastUse(refs);
    LastNByLastUse(Recency(refs), frameSize, refs);
  }

  /** Every resident page was referenced more recently than every
      referenced page that is not resident. */
  lemma RunKeepsMostRecent(refs: seq<int>, frameSize: int)
    requires 1 <= frameSize
    ensures forall x, y :: x in Run(refs, frameSize).memory && y in refs && y !in Run(refs, frameSize).memory ==>
              LastUse(refs, y) < LastUse(refs, x)
  {
    RunIsMostRecent(refs, frameSize);
    RecencyFacts(refs);
    RecencyByLastUse(refs);
    LastNSuffix(Recency(refs), frameSize);
    SuffixIsLater(Recency(refs), LastN(Recency(refs), frameSize), refs);
  }

  /** In a list ordered by last use, the pages of a suffix were used later
      than the pages before it. */
  lemma SuffixIsLater(r: seq<int>, m: seq<int>, refs: seq<int>)
    requires ByLastUse(r, refs) && |m| <= |r| && r == r[..|r| - |m|] + m
    ensures forall x, y :: x in m && y in r && y !in m ==> LastUse(refs, y) < LastUse(refs, x)
  {
    var d := |r| - |m|;
    assert forall t :: d <= t < |r| ==> r[t] == m[t - d];
    forall x, y | x in m && y in r && y !in m
      ensures LastUse(refs, y) < LastUse(refs, x)
    {
      var j :| 0 <= j < |m| && m[j] == x;
      var i :| 0 <= i < |r| && r[i] == y;
      assert r[d + j] == x;
    }
  }

  /** The resident set holds min(frameSize, number of distinct pages)
      pages, all of them referenced; while fewer distinct pages than frames
      have been referenced, every one of them is resident. */
  lemma RunOccupancy(refs: seq<int>, frameSize: int)
    requires 1 <= frameSize
    ensures |Run(refs, frameSize).memory| == if |Recency(refs)| <= frameSize then |Recency(refs)| else frameSize
    ensures forall x :: x in Run(refs, frameSize).memory ==> x in refs
    ensures |Recency(refs)| <= frameSize ==> forall x :: x in refs ==> x in Run(refs, frameSize).memory
  {
    RunIsMostRecent(refs, frameSize);
    RecencyFacts(refs);
    LastNSuffix(Recency(refs), frameSize);
  }

  /** Only a fault on full frames removes a page, and it removes the front one. */
  lemma StepRemovesFront(memory: seq<int>, page: int, frameSize: int)
    requires 1 <= frameSize
    ensures LruStep(memory, page, frameSize).action.removed.Some? <==> page !in memory && |memory| >= frameSize
    ensures LruStep(memory, page, frameSize).action.removed.Some? ==>
              LruStep(memory, page, frameSize).action.removed.value == memory[0]
  {
  }

  /** When reference i evicts a page, the frames were full, and the page
      evicted is the resident page whose last use lies furthest back. */
  lemma EvictsLeastRecentlyUsed(refs: seq<int>, frameSize: int, i: nat)
    requires 1 <= frameSize && i < |refs| && Run(refs, frameSize).actions[i].removed.Some?
    ensures |Before(Run(refs, frameSize).memoryStates, i)| == frameSize
    ensures Run(refs, frameSize).actions[i].removed.value in Before(Run(refs, frameSize).memoryStates, i)
    ensures forall x :: x in Before(Run(refs, frameSize).memoryStates, i) && x != Run(refs, frameSize).actions[i].removed.value ==>
              LastUse(refs[..i], Run(refs, frameSize).actions[i].removed.value) < LastUse(refs[..i], x)
  {
    var o := Run(refs, frameSize);
    var m := Before(o.memoryStates, i);
    assert m == Run(refs[..i], frameSize).memory by { RunPrefix(refs, frameSize, i); }
    assert LruStep(m, refs[i], frameSize).action == o.actions[i] by {
      RunRecords(refs, frameSize);
      assert Recorded(refs, o.memoryStates, o.actions, frameSize, i);
    }
    StepRemovesFront(m, refs[i], frameSize);
    RunInvariant(refs[..i], frameSize);
    RunByLastUse(refs[..i], frameSize);
    forall x | x in m && x != m[0]
      ensures LastUse(refs[..i], m[0]) < LastUse(refs[..i], x)
    {
      var j :| 0 <= j < |m| && m[j] == x;
    }
  }

  lemma LastNIncluded(s: seq<int>, n: nat)
    ensures forall x :: x in LastN(s, n) ==> x in LastN(s, n + 1)
  {
    if |s| > n + 1 {
      forall x | x in LastN(s, n)
        ensures x in LastN(s, n + 1)
      {
        var j :| 0 <= j < n && s[|s| - n..][j] == x;
        assert s[|s| - n - 1..][j + 1] == x;
      }
    }
  }

  /** LRU is a stack algorithm: with one frame more, the resident set holds
      every page it holds with one frame fewer. */
  lemma RunInclusion(refs: seq<int>, frameSize: int)
    requires 1 <= frameSize
    ensures forall x :: x in Run(refs, frameSize).memory ==> x in Run(refs, frameSize + 1).memory
  {
    RunIsMostRecent(refs, frameSize);
    RunIsMostRecent(refs, frameSize + 1);
    LastNIncluded(Recency(refs), frameSize);
  }

  lemma {:induction false} FaultCountMonotone(a: seq<Action>, b: seq<Action>)
    requires |a| == |b| && forall i :: 0 <= i < |a| ==> a[i].pageFault ==> b[i].pageFault
    ensures FaultCount(a) <= FaultCount(b)
    decreases |a|
  {
    if a != [] {
      FaultCountMonotone(a[..|a| - 1], b[..|b| - 1]);
    }
  }

  /** Reference i faults exactly when its page is missing from the frames
      left by the run of the references before it. */
  lemma FaultAgainstPrefix(refs: seq<int>, frameSize: int, i: nat)
    requires 1 <= frameSize && i < |refs|
    ensures Run(refs, frameSize).actions[i].pageFault <==> refs[i] !in Run(refs[..i], frameSize).memory
  {
    RunFaultIffAbsent(refs, frameSize, i);
    RunPrefix(refs, frameSize, i);
  }

  /** A reference that faults with one frame more also faults with one
      frame fewer. */
  lemma FaultWithFewerFrames(refs: seq<int>, frameSize: int, i: nat)
    requires 1 <= frameSize && i < |refs|
    ensures Run(refs, frameSize + 1).actions[i].pageFault ==> Run(refs, frameSize).actions[i].pageFault
  {
    FaultAgainstPrefix(refs, frameSize + 1, i);
    FaultAgainstPrefix(refs, frameSize, i);
    RunInclusion(refs[..i], frameSize);
    MissingFromLarger(Run(refs, frameSize + 1).actions[i].pageFault, Run(refs, frameSize).actions[i].pageFault,
                      refs[i], Run(refs[..i], frameSize + 1).memory, Run(refs[..i], frameSize).memory);
  }

  lemma MissingFromLarger(faultLarge: bool, faultSmall: bool, page: int, large: seq<int>, small: seq<int>)
    requires (faultLarge <==> page !in large) && (faultSmall <==> page !in small)
    requires page in small ==> page in large
    ensures faultLarge ==> faultSmall
  {
  }

  lemma FaultsWithFewerFrames(refs: seq<int>, frameSize: int)
    requires 1 <= frameSize
    ensures forall i :: 0 <= i < |refs| ==>
              Run(refs, frameSize + 1).actions[i].pageFault ==> Run(refs, frameSize).actions[i].pageFault
  {
    forall i | 0 <= i < |refs|
      ensures Run(refs, frameSize + 1).actions[i].pageFault ==> Run(refs, frameSize).actions[i].pageFault
    {
      FaultWithFewerFrames(refs, frameSize, i);
    }
  }

  /** No Belady anomaly: one frame more never causes more faults. */
  lemma MoreFramesFewerFaults(refs: seq<int>, frameSize: int)
    requires 1 <= frameSize
    ensures Run(refs, frameSize + 1).pageFaults <= Run(refs, frameSize).pageFaults
  {
    RunCountsFaults(refs, frameSize);
    RunCountsFaults(refs, frameSize + 1);
    FaultsWithFewerFrames(refs, frameSize);
    FewerFaults(Run(refs, frameSize + 1), Run(refs, frameSize));
  }

  lemma FewerFaults(large: Outcome, small: Outcome)
    requires |large.actions| == |small.actions|
    requires large.pageFaults == FaultCount(large.actions) && small.pageFaults == FaultCount(small.actions)
    requires forall i :: 0 <= i < |large.actions| ==> large.actions[i].pageFault ==> small.actions[i].pageFault
    ensures large.pageFaults <= small.pageFaults
  {
    FaultCountMonotone(large.actions, small.actions);
  }
}
