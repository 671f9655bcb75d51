/** Cluster chains: a FAT as a map from cluster to 28-bit link. */
module FatChains {
  import opened Bytes

  const END_OF_CHAIN: nat := 0x0FFF_FFF8
  const BAD_CLUSTER: nat := 0x0FFF_FFF7
  const FREE_CLUSTER: nat := 0
  const END_MARK: nat := 0x0FFF_FFFF
  const COUNT_UNKNOWN: nat := 0xFFFF_FFFF

  /** The abstract volume: the decoded FAT, the bytes of each cluster (entries
      below 2 stand for nothing) and the two FSInfo hints. */
  datatype Vol = Vol(clusterSize: nat, fat: seq<nat>, data: seq<seq<u8>>, nextFree: nat, freeCount: nat)

  ghost predicate WellFormed(v: Vol) {
    && 0 < v.clusterSize
    && 2 < |v.fat| < BAD_CLUSTER
    && |v.data| == |v.fat|
    && v.freeCount < U32_LIMIT
    && (forall c :: 2 <= c < |v.fat| ==> |v.data[c]| == v.clusterSize)
  }

  // ---------------------------------------------------------------- chains

  /** The i-th cluster of `s` is in the table and links to the next one, the last
      one to an end-of-chain value. */
  ghost predicate Link(fat: seq<nat>, s: seq<nat>, i: nat)
    requires i < |s|
  {
    && 2 <= s[i] < |fat|
    && (if i + 1 < |s| then fat[s[i]] == s[i + 1] else fat[s[i]] >= END_OF_CHAIN)
  }

  /** `s` lists the clusters of a chain in order. */
  ghost predicate IsChain(fat: seq<nat>, s: seq<nat>) {
    && 0 < |s|
    && |fat| < BAD_CLUSTER
    && forall i :: 0 <= i < |s| ==> Link(fat, s, i)
  }

  ghost predicate IsChainOrNil(fat: seq<nat>, s: seq<nat>) {
    s == [] || IsChain(fat, s)
  }

  /** Reading a chain at one position: its link is the next cluster, and only the
      last one is an end mark. */
  lemma {:induction false} ChainAt(fat: seq<nat>, s: seq<nat>, i: nat)
    requires IsChain(fat, s) && i < |s|
    ensures 2 <= s[i] < |fat| && 2 <= fat[s[i]]
    ensures fat[s[i]] >= END_OF_CHAIN <==> i == |s| - 1
    ensures i < |s| - 1 ==> fat[s[i]] == s[i + 1] < |fat| < BAD_CLUSTER
  {
    assert Link(fat, s, i);
    if i + 1 < |s| {
      assert Link(fat, s, i + 1);
    }
  }

  lemma {:induction false} ChainMember(fat: seq<nat>, s: seq<nat>, c: nat)
    requires IsChainOrNil(fat, s) && c in s
    ensures 2 <= c < |fat| && 2 <= fat[c]
  {
    var i :| 0 <= i < |s| && s[i] == c;
    ChainAt(fat, s, i);
  }

  lemma {:induction false} ChainInRange(fat: seq<nat>, s: seq<nat>)
    requires IsChainOrNil(fat, s)
    ensures forall i :: 0 <= i < |s| ==> 2 <= s[i] < |fat|
  {
    forall i | 0 <= i < |s|
      ensures 2 <= s[i] < |fat|
    {
      assert Link(fat, s, i);
    }
  }

  /** A chain cannot visit a cluster twice: the walk from both visits would be the
      same, and only one of them could meet the end mark. */
  lemma {:induction false} ChainIsAcyclic(fat: seq<nat>, s: seq<nat>, i: nat, j: nat)
    requires IsChain(fat, s)
    requires i < j < |s|
    ensures s[i] != s[j]
    decreases |s| - j
  {
    ChainAt(fat, s, i);
    ChainAt(fat, s, j);
    if s[i] == s[j] && j + 1 < |s| {
      ChainIsAcyclic(fat, s, i + 1, j + 1);
    }
  }

  lemma {:induction false} ChainDistinct(fat: seq<nat>, s: seq<nat>)
    requires IsChainOrNil(fat, s)
    ensures forall i, j :: 0 <= i < j < |s| ==> s[i] != s[j]
  {
    forall i, j | 0 <= i < j < |s|
      ensures s[i] != s[j]
    {
      ChainIsAcyclic(fat, s, i, j);
    }
  }

  /** The first cluster determines the chain. */
  lemma {:induction false} ChainIsUnique(fat: seq<nat>, s: seq<nat>, t: seq<nat>)
    requires IsChain(fat, s) && IsChain(fat, t)
    requires s[0] == t[0]
    ensures s == t
    decreases |s|
  {
    ChainAt(fat, s, 0);
    ChainAt(fat, t, 0);
    if 1 < |s| {
      ChainSuffix(fat, s, 1);
      ChainSuffix(fat, t, 1);
      ChainIsUnique(fat, s[1..], t[1..]);
      assert s == [s[0]] + s[1..] && t == [t[0]] + t[1..];
    }
  }

  lemma {:induction false} ChainFrame(fat: seq<nat>, fat': seq<nat>, s: seq<nat>)
    requires IsChainOrNil(fat, s)
    requires |fat| == |fat'|
    requires forall i :: 0 <= i < |s| ==> s[i] < |fat| && fat'[s[i]] == fat[s[i]]
    ensures IsChainOrNil(fat', s)
  {
    forall i | 0 <= i < |s|
      ensures Link(fat', s, i)
    {
      assert Link(fat, s, i);
    }
  }

  /** Linking a fresh cluster behind the last one extends the chain by it. */
  lemma {:induction false} ChainAppend(fat: seq<nat>, s: seq<nat>, c: nat)
    requires IsChain(fat, s)
    requires 2 <= c < |fat| && c !in s
    requires s[|s| - 1] < |fat|
    ensures IsChain(fat[c := END_MARK][s[|s| - 1] := c], s + [c])
  {
    ChainDistinct(fat, s);
    var fat' := fat[c := END_MARK][s[|s| - 1] := c];
    var s' := s + [c];
    forall i | 0 <= i < |s'|
      ensures Link(fat', s', i)
    {
      if i < |s| {
        ChainAt(fat, s, i);
        assert s[i] in s;
      }
    }
  }

  /** Ending the chain at its k-th cluster leaves its first k clusters as a chain. */
  lemma {:induction false} ChainCut(fat: seq<nat>, s: seq<nat>, k: nat)
    requires IsChain(fat, s) && 0 < k <= |s| && s[k - 1] < |fat|
    ensures IsChain(fat[s[k - 1] := END_MARK], s[..k])
  {
    ChainDistinct(fat, s);
    var fat' := fat[s[k - 1] := END_MARK];
    forall i | 0 <= i < k
      ensures Link(fat', s[..k], i)
    {
      ChainAt(fat, s, i);
    }
  }

  lemma {:induction false} ChainSuffix(fat: seq<nat>, s: seq<nat>, k: nat)
    requires IsChain(fat, s) && k < |s|
    ensures IsChain(fat, s[k..])
  {
    forall i | 0 <= i < |s| - k
      ensures Link(fat, s[k..], i)
    {
      assert Link(fat, s, k + i);
    }
  }

  // ---------------------------------------------------------------- free entries

  /** Number of free entries among clusters n.. of the table. */
  ghost function FreeFrom(fat: seq<nat>, n: nat): nat
    requires n <= |fat|
    decreases |fat| - n
  {
    if n == |fat| then 0
    else (if fat[n] == FREE_CLUSTER then 1 else 0) + FreeFrom(fat, n + 1)
  }

  ghost function FreeEntries(fat: seq<nat>): nat
    requires 2 <= |fat|
  {
    FreeFrom(fat, 2)
  }

  lemma {:induction false} FreeFromUpdate(fat: seq<nat>, n: nat, c: nat, x: nat)
    requires n <= |fat| && c < |fat|
    ensures FreeFrom(fat[c := x], n) ==
            FreeFrom(fat, n) + (if n <= c && x == 0 then 1 else 0) - (if n <= c && fat[c] == 0 then 1 else 0)
    decreases |fat| - n
  {
    if n < |fat| {
      FreeFromUpdate(fat, n + 1, c, x);
    }
  }

  lemma {:induction false} FreeFromBound(fat: seq<nat>, n: nat)
    requires n <= |fat|
    ensures FreeFrom(fat, n) <= |fat| - n
    ensures FreeFrom(fat, n) == 0 <==> forall c :: n <= c < |fat| ==> fat[c] != FREE_CLUSTER
    decreases |fat| - n
  {
    if n < |fat| {
      FreeFromBound(fat, n + 1);
    }
  }

  /** The FSInfo free count is either unknown or exact. */
  ghost predicate CountExact(v: Vol)
    requires 2 <= |v.fat|
  {
    v.freeCount == COUNT_UNKNOWN || v.freeCount == FreeEntries(v.fat)
  }

  // ---------------------------------------------------------------- allocation

  /** Where the circular search starts: the FSInfo hint when it is a cluster. */
  function SearchStart(v: Vol): nat {
    if 2 <= v.nextFree < |v.fat| then v.nextFree else 2
  }

  /** The i-th cluster the circular search looks at. */
  ghost function Candidate(v: Vol, i: nat): (c: nat)
    requires 2 < |v.fat|
    ensures 2 <= c < |v.fat|
  {
    if i == 0 then SearchStart(v)
    else
      var c := Candidate(v, i - 1) + 1;
      if c >= |v.fat| then 2 else c
  }

  /** It is the one the driver's formula computes. */
  lemma {:induction false} CandidateIsFormula(v: Vol, i: nat)
    requires 2 < |v.fat| && i <= |v.fat| - 2
    ensures Candidate(v, i) == 2 + (SearchStart(v) - 2 + i) % (|v.fat| - 2)
  {
    var n := |v.fat| - 2;
    var start := SearchStart(v) - 2;
    WrapOnce(start + i, n);
    if i > 0 {
      CandidateIsFormula(v, i - 1);
      WrapOnce(start + i - 1, n);
    }
  }

  /** `c` is free and every cluster from the hint up to it, in circular order, is taken. */
  ghost predicate IsFirstFree(v: Vol, c: nat)
    requires 2 < |v.fat|
  {
    exists i: nat ::
      && i < |v.fat| - 2
      && c == Candidate(v, i)
      && v.fat[c] == FREE_CLUSTER
      && forall j: nat :: j < i ==> v.fat[Candidate(v, j)] != FREE_CLUSTER
  }

  lemma {:induction false} FirstFreeAt(v: Vol, i: nat, c: nat)
    requires 2 < |v.fat| && i < |v.fat| - 2
    requires c == Candidate(v, i) && v.fat[c] == FREE_CLUSTER
    requires forall j: nat :: j < i ==> v.fat[Candidate(v, j)] != FREE_CLUSTER
    ensures IsFirstFree(v, c)
  {
  }

  function TakeOne(count: nat): nat {
    if count != COUNT_UNKNOWN && 0 < count then count - 1 else count
  }

  /** The volume after cluster `c` was taken, marked as a chain of its own and zeroed. */
  function Allocated(v: Vol, c: nat): Vol
    requires c < |v.fat| == |v.data|
  {
    v.(fat := v.fat[c := END_MARK],
       data := v.data[c := Zeros(v.clusterSize)],
       nextFree := if c + 1 >= |v.fat| then 2 else c + 1,
       freeCount := TakeOne(v.freeCount))
  }

  ghost predicate AllocateStep(v: Vol, v': Vol, ok: bool, c: nat)
    requires 2 < |v.fat| == |v.data|
  {
    if ok then 2 <= c < |v.fat| && IsFirstFree(v, c) && v' == Allocated(v, c)
    else v' == v && FreeEntries(v.fat) == 0
  }

  /** The search visits every cluster: when no candidate is free, nothing is. */
  lemma {:induction false} SearchIsExhaustive(v: Vol)
    requires 2 < |v.fat|
    requires forall j: nat :: j < |v.fat| - 2 ==> v.fat[Candidate(v, j)] != FREE_CLUSTER
    ensures FreeEntries(v.fat) == 0
  {
    var n := |v.fat| - 2;
    var start := SearchStart(v) - 2;
    forall c | 2 <= c < |v.fat|
      ensures v.fat[c] != FREE_CLUSTER
    {
      var j: nat := if start <= c - 2 then c - 2 - start else c - 2 - start + n;
      assert Candidate(v, j) == c by {
        CandidateIsFormula(v, j);
        WrapOnce(start + j, n);
      }
    }
    FreeFromBound(v.fat, 2);
  }

  /** Going up from `start` and on from cluster 2 behind the last one, `d` comes before `c`. */
  predicate ComesBefore(start: nat, d: nat, c: nat) {
    if start <= c then start <= d < c else start <= d || d < c
  }

  /** `c` is the first free cluster from the hint on, or from cluster 2 on when the hint is none. */
  ghost predicate FirstFreeFrom(fat: seq<nat>, hint: nat, c: nat) {
    && 2 <= c < |fat| && fat[c] == FREE_CLUSTER
    && forall d :: 2 <= d < |fat| && ComesBefore(if 2 <= hint < |fat| then hint else 2, d, c) ==> fat[d] != FREE_CLUSTER
  }

  /** The search honours the hint. */
  lemma {:induction false} SearchFollowsHint(v: Vol, c: nat)
    requires 2 < |v.fat| && IsFirstFree(v, c)
    ensures FirstFreeFrom(v.fat, v.nextFree, c)
  {
    var n, start := |v.fat| - 2, SearchStart(v) - 2;
    var i: nat :| i < n && c == Candidate(v, i) && v.fat[c] == FREE_CLUSTER
                  && forall j: nat :: j < i ==> v.fat[Candidate(v, j)] != FREE_CLUSTER;
    CandidateIsFormula(v, i);
    WrapOnce(start + i, n);
    forall d | 2 <= d < |v.fat| && ComesBefore(start + 2, d, c)
      ensures v.fat[d] != FREE_CLUSTER
    {
      var j: nat := if start <= d - 2 then d - 2 - start else d - 2 - start + n;
      CandidateIsFormula(v, j);
      WrapOnce(start + j, n);
    }
  }

  lemma {:induction false} WrapOnce(x: nat, n: nat)
    requires 0 < n && x < 2 * n
    ensures x % n == if x < n then x else x - n
  {
    if n <= x {
      assert x == n + (x - n);
      assert x / n == 1;
    }
  }

  // ---------------------------------------------------------------- freeing

  /** The table with every cluster of `s` released. */
  function Released(fat: seq<nat>, s: seq<nat>): (r: seq<nat>)
    ensures |r| == |fat|
  {
    seq(|fat|, c requires 0 <= c < |fat| => if c in s then FREE_CLUSTER else fat[c])
  }

  function ReturnOne(count: nat): nat {
    if count != COUNT_UNKNOWN then (count + 1) % 0x1_0000_0000 else count
  }

  /** Every link names a cluster of the table or one of the reserved values. */
  ghost predicate LinksStay(fat: seq<nat>) {
    forall c :: 2 <= c < |fat| ==> fat[c] < |fat| || BAD_CLUSTER <= fat[c]
  }

  /** Non-free entries: what bounds a freeing walk even around a cycle. */
  ghost function TakenEntries(fat: seq<nat>): nat
    requires 2 <= |fat|
  {
    FreeFromBound(fat, 2);
    |fat| - 2 - FreeEntries(fat)
  }

  lemma {:induction false} ReleaseShrinks(fat: seq<nat>, c: nat)
    requires 2 <= c < |fat| && fat[c] != FREE_CLUSTER
    ensures TakenEntries(fat[c := FREE_CLUSTER]) == TakenEntries(fat) - 1
  {
    FreeFromUpdate(fat, 2, c, FREE_CLUSTER);
  }

  /** What freeing the chain at `current` does on any table whose links stay in it:
      release, count and follow until a reserved, free or bad link. */
  ghost function FreeWalk(v: Vol, current: nat): (w: Vol)
    requires 2 < |v.fat| && LinksStay(v.fat)
    requires current < |v.fat| || BAD_CLUSTER <= current
    requires current != BAD_CLUSTER
    ensures |w.fat| == |v.fat|
    decreases TakenEntries(v.fat), if current < |v.fat| then 1 else 0
  {
    if current < 2 || END_OF_CHAIN <= current then v
    else
      var next := v.fat[current];
      var w := v.(fat := v.fat[current := FREE_CLUSTER], freeCount := ReturnOne(v.freeCount));
      if next == BAD_CLUSTER || next == FREE_CLUSTER then w
      else
        ReleaseShrinks(v.fat, current);
        FreeWalk(w, next)
  }

  /** On a well-formed chain the walk releases exactly that chain, and keeps an
      exact free count exact. */
  lemma {:induction false} FreeWalkReleasesChain(v: Vol, s: seq<nat>)
    requires WellFormed(v) && LinksStay(v.fat) && IsChain(v.fat, s)
    ensures s[0] < |v.fat|
    ensures var w := FreeWalk(v, s[0]);
            && w == v.(fat := Released(v.fat, s), freeCount := w.freeCount)
            && WellFormed(w)
            && FreeEntries(w.fat) == FreeEntries(v.fat) + |s|
            && (CountExact(v) ==> CountExact(w))
    decreases |s|
  {
    ChainAt(v.fat, s, 0);
    var w := v.(fat := v.fat[s[0] := FREE_CLUSTER], freeCount := ReturnOne(v.freeCount));
    ReleaseOneCounts(v, s[0]);
    if |s| == 1 {
      ReleasedSingle(v.fat, s);
      assert FreeWalk(w, v.fat[s[0]]) == w;
    } else {
      var t := s[1..];
      ChainDistinct(v.fat, s);
      ChainInRange(v.fat, s);
      ChainSuffix(v.fat, s, 1);
      ChainFrame(v.fat, w.fat, t);
      FreeWalkReleasesChain(w, t);
      ReleasedStep(v.fat, s);
    }
  }

  /** The walk comes to a cluster that is free already: its own, on a cyclic chain. */
  ghost predicate MeetsFree(v: Vol, current: nat)
    requires 2 < |v.fat| && LinksStay(v.fat)
    requires current < |v.fat| || BAD_CLUSTER <= current
    requires current != BAD_CLUSTER
    decreases TakenEntries(v.fat), if current < |v.fat| then 1 else 0
  {
    if current < 2 || END_OF_CHAIN <= current then false
    else
      var next := v.fat[current];
      var w := v.(fat := v.fat[current := FREE_CLUSTER], freeCount := ReturnOne(v.freeCount));
      next == FREE_CLUSTER ||
      (next != BAD_CLUSTER && (ReleaseShrinks(v.fat, current); MeetsFree(w, next)))
  }

  /** The i-th cluster of `p` is taken and links to the next one, the last one to an end
      mark, the bad mark or 1. */
  ghost predicate CleanAt(fat: seq<nat>, p: seq<nat>, i: nat)
    requires i < |p|
  {
    && 2 <= p[i] < |fat| && fat[p[i]] != FREE_CLUSTER
    && (if i + 1 < |p| then fat[p[i]] == p[i + 1]
        else fat[p[i]] == 1 || BAD_CLUSTER <= fat[p[i]])
  }

  /** `p` lists different clusters that the links lead through from `current` to an end. */
  ghost predicate CleanPath(fat: seq<nat>, current: nat, p: seq<nat>) {
    && (if current < 2 || END_OF_CHAIN <= current then p == [] else p != [] && p[0] == current)
    && (forall i :: 0 <= i < |p| ==> CleanAt(fat, p, i))
    && (forall i, j :: 0 <= i < j < |p| ==> p[i] != p[j])
  }

  /** The links from `current` come to an end, through taken clusters only. */
  ghost predicate RunsClean(fat: seq<nat>, current: nat) {
    exists p :: CleanPath(fat, current, p)
  }

  lemma {:induction false} CleanPathMeetsNone(v: Vol, current: nat, p: seq<nat>)
    requires 2 < |v.fat| < BAD_CLUSTER && LinksStay(v.fat)
    requires (current < |v.fat| || BAD_CLUSTER <= current) && current != BAD_CLUSTER
    requires CleanPath(v.fat, current, p)
    ensures !MeetsFree(v, current)
    decreases |p|
  {
    if p != [] {
      assert CleanAt(v.fat, p, 0);
      var next := v.fat[current];
      if next != BAD_CLUSTER {
        var w := v.(fat := v.fat[current := FREE_CLUSTER], freeCount := ReturnOne(v.freeCount));
        ReleaseShrinks(v.fat, current);
        var t := p[1..];
        forall i | 0 <= i < |t|
          ensures CleanAt(w.fat, t, i)
        {
          assert CleanAt(v.fat, p, i + 1);
        }
        assert |p| > 1 ==> CleanAt(v.fat, p, 1);
        CleanPathMeetsNone(w, next, t);
      }
    }
  }

  lemma {:induction false} MeetsNoneCleanPath(v: Vol, current: nat) returns (p: seq<nat>)
    requires 2 < |v.fat| < BAD_CLUSTER && LinksStay(v.fat)
    requires (current < |v.fat| || BAD_CLUSTER <= current) && current != BAD_CLUSTER
    requires !MeetsFree(v, current)
    ensures CleanPath(v.fat, current, p)
    decreases TakenEntries(v.fat), if current < |v.fat| then 1 else 0
  {
    if current < 2 || END_OF_CHAIN <= current {
      return [];
    }
    var next := v.fat[current];
    if next == BAD_CLUSTER {
      return [current];
    }
    var w := v.(fat := v.fat[current := FREE_CLUSTER], freeCount := ReturnOne(v.freeCount));
    ReleaseShrinks(v.fat, current);
    var t := MeetsNoneCleanPath(w, next);
    p := [current] + t;
    forall i | 0 <= i < |p|
      ensures CleanAt(v.fat, p, i) && (i > 0 ==> p[i] != current)
    {
      if i > 0 {
        assert CleanAt(w.fat, t, i - 1);
      }
    }
  }

  /** On any table whose links stay in it, cyclic ones included, freeing keeps an exact
      free count exact precisely when the links from the first cluster come to an end
      through taken clusters; otherwise the count ends one too high. */
  lemma {:induction false} FreeWalkExactIff(v: Vol, current: nat)
    requires WellFormed(v) && LinksStay(v.fat) && v.freeCount == FreeEntries(v.fat)
    requires (current < |v.fat| || BAD_CLUSTER <= current) && current != BAD_CLUSTER
    ensures var w := FreeWalk(v, current);
            |w.fat| == |v.fat| && w.freeCount == FreeEntries(w.fat) + if RunsClean(v.fat, current) then 0 else 1
  {
    FreeWalkCounts(v, current);
    if MeetsFree(v, current) {
      forall p
        ensures !CleanPath(v.fat, current, p)
      {
        if CleanPath(v.fat, current, p) {
          CleanPathMeetsNone(v, current, p);
        }
      }
    } else {
      var p := MeetsNoneCleanPath(v, current);
    }
  }

  lemma {:induction false} FreeWalkCounts(v: Vol, current: nat)
    requires WellFormed(v) && LinksStay(v.fat) && v.freeCount == FreeEntries(v.fat)
    requires (current < |v.fat| || BAD_CLUSTER <= current) && current != BAD_CLUSTER
    ensures var w := FreeWalk(v, current);
            |w.fat| == |v.fat| && w.freeCount == FreeEntries(w.fat) + if MeetsFree(v, current) then 1 else 0
    decreases TakenEntries(v.fat), if current < |v.fat| then 1 else 0
  {
    FreeFromBound(v.fat, 2);
    if 2 <= current < END_OF_CHAIN {
      var next := v.fat[current];
      var w := v.(fat := v.fat[current := FREE_CLUSTER], freeCount := ReturnOne(v.freeCount));
      if next == FREE_CLUSTER {
        assert v.fat[current := FREE_CLUSTER] == v.fat;
      } else {
        ReleaseOneCounts(v, current);
        if next != BAD_CLUSTER {
          ReleaseShrinks(v.fat, current);
          FreeWalkCounts(w, next);
        }
      }
    }
  }

  /** The i-th cluster of `s` links to the next one, the last one back to cluster `back` of it. */
  ghost predicate LassoAt(fat: seq<nat>, s: seq<nat>, back: nat, i: nat)
    requires i < |s| && back < |s|
  {
    2 <= s[i] < |fat| && fat[s[i]] == if i + 1 < |s| then s[i + 1] else s[back]
  }

  /** No chain that runs into a circle ends: freeing it leaves the count one too high. */
  lemma {:induction false} CyclicChainMiscounts(v: Vol, s: seq<nat>, back: nat)
    requires WellFormed(v) && LinksStay(v.fat) && v.freeCount == FreeEntries(v.fat)
    requires back < |s| && forall i :: 0 <= i < |s| ==> LassoAt(v.fat, s, back, i)
    ensures s[0] < |v.fat| && FreeWalk(v, s[0]).freeCount == FreeEntries(FreeWalk(v, s[0]).fat) + 1
  {
    assert LassoAt(v.fat, s, back, 0);
    forall p
      ensures !CleanPath(v.fat, s[0], p)
    {
      if CleanPath(v.fat, s[0], p) {
        LassoHasNoEnd(v.fat, s, back, p, |p| - 1);
      }
    }
    FreeWalkExactIff(v, s[0]);
  }

  /** A path along the links never leaves the lasso, so no cluster on it is a last one. */
  lemma {:induction false} LassoHasNoEnd(fat: seq<nat>, s: seq<nat>, back: nat, p: seq<nat>, n: nat)
    requires |fat| < BAD_CLUSTER && n + 1 == |p|
    requires back < |s| && p[0] == s[0] && forall j :: 0 <= j < |s| ==> LassoAt(fat, s, back, j)
    requires forall j :: 0 <= j < n ==> CleanAt(fat, p, j)
    ensures !CleanAt(fat, p, n)
  {
    var k := PathStaysInLasso(fat, s, back, p, n);
    assert LassoAt(fat, s, back, k);
    assert LassoAt(fat, s, back, if k + 1 < |s| then k + 1 else back);
  }

  lemma {:induction false} PathStaysInLasso(fat: seq<nat>, s: seq<nat>, back: nat, p: seq<nat>, i: nat) returns (k: nat)
    requires back < |s| && forall j :: 0 <= j < |s| ==> LassoAt(fat, s, back, j)
    requires i < |p| && p[0] == s[0] && forall j :: 0 <= j < i ==> CleanAt(fat, p, j)
    ensures k < |s| && p[i] == s[k]
  {
    if i == 0 {
      return 0;
    }
    k := PathStaysInLasso(fat, s, back, p, i - 1);
    assert CleanAt(fat, p, i - 1) && LassoAt(fat, s, back, k);
    k := if k + 1 < |s| then k + 1 else back;
  }

  /** Two clusters linked in a circle: two are free afterwards and three are counted. */
  lemma {:induction false} CircleCountsTwice(v: Vol)
    requires WellFormed(v) && v.fat == [0x0FFF_FFF8, 0x0FFF_FFFF, 3, 2] && v.freeCount == 0
    ensures FreeEntries(v.fat) == 0 && LinksStay(v.fat)
    ensures FreeEntries(FreeWalk(v, 2).fat) == 2 && FreeWalk(v, 2).freeCount == 3
  {
    ReleaseShrinks(v.fat, 2);
    var w := v.(fat := v.fat[2 := FREE_CLUSTER], freeCount := ReturnOne(v.freeCount));
    ReleaseShrinks(w.fat, 3);
    var x := w.(fat := w.fat[3 := FREE_CLUSTER], freeCount := ReturnOne(w.freeCount));
    var y := x.(freeCount := ReturnOne(x.freeCount));
    assert x.fat[2 := FREE_CLUSTER] == x.fat;
    assert FreeWalk(x, 2) == y;
    assert FreeWalk(w, 3) == y;
    assert FreeFrom(y.fat, 3) == 1;
  }

  lemma {:induction false} ReleaseOneCounts(v: Vol, c: nat)
    requires WellFormed(v) && 2 <= c < |v.fat| && v.fat[c] != FREE_CLUSTER
    ensures var w := v.(fat := v.fat[c := FREE_CLUSTER], freeCount := ReturnOne(v.freeCount));
            && WellFormed(w)
            && FreeEntries(w.fat) == FreeEntries(v.fat) + 1
            && (CountExact(v) ==> CountExact(w))
  {
    FreeFromUpdate(v.fat, 2, c, FREE_CLUSTER);
    FreeFromBound(v.fat[c := FREE_CLUSTER], 2);
  }

  lemma {:induction false} ReleasedSingle(fat: seq<nat>, s: seq<nat>)
    requires |s| == 1 && s[0] < |fat|
    ensures Released(fat, s) == fat[s[0] := FREE_CLUSTER]
  {
  }

  lemma {:induction false} ReleasedStep(fat: seq<nat>, s: seq<nat>)
    requires 0 < |s| && s[0] < |fat|
    ensures Released(fat, s) == Released(fat[s[0] := FREE_CLUSTER], s[1..])
  {
    assert s == [s[0]] + s[1..];
  }

  // ---------------------------------------------------------------- the obligation of one file operation

  /** What an operation that turns a file's chain `s` into `s'` owes to cluster `c`:
      outside both chains its entry stays and, unless it was free, its bytes too; a
      cluster gained was free, a cluster dropped is free. */
  ghost predicate Kept(v: Vol, s: seq<nat>, v': Vol, s': seq<nat>, c: nat)
    requires c < |v.fat| == |v'.fat| && |v.data| == |v.fat| && |v'.data| == |v'.fat|
  {
    && (c !in s && c !in s' ==> v'.fat[c] == v.fat[c] && (v.fat[c] != FREE_CLUSTER ==> v'.data[c] == v.data[c]))
    && (c in s' && c !in s ==> v.fat[c] == FREE_CLUSTER)
    && (c in s && c !in s' ==> v'.fat[c] == FREE_CLUSTER)
  }

  /** What every operation on one file owes: its chain is again a chain, every
      cluster is kept, and no cluster is created or lost. */
  ghost predicate FileStep(v: Vol, s: seq<nat>, v': Vol, s': seq<nat>) {
    && WellFormed(v) && WellFormed(v')
    && v'.clusterSize == v.clusterSize && |v'.fat| == |v.fat|
    && IsChainOrNil(v'.fat, s')
    && (forall c :: 0 <= c < |v.fat| ==> Kept(v, s, v', s', c))
    && FreeEntries(v'.fat) + |s'| == FreeEntries(v.fat) + |s|
    && (CountExact(v) ==> CountExact(v'))
  }

  lemma {:induction false} FileStepRefl(v: Vol, s: seq<nat>)
    requires WellFormed(v) && IsChainOrNil(v.fat, s)
    ensures FileStep(v, s, v, s)
  {
  }

  lemma {:induction false} FileStepTrans(v: Vol, s: seq<nat>, v1: Vol, s1: seq<nat>, v2: Vol, s2: seq<nat>)
    requires FileStep(v, s, v1, s1) && FileStep(v1, s1, v2, s2)
    ensures FileStep(v, s, v2, s2)
  {
    forall c | 0 <= c < |v.fat|
      ensures Kept(v, s, v2, s2, c)
    {
      assert Kept(v, s, v1, s1, c) && Kept(v1, s1, v2, s2, c);
    }
  }

  /** Links that stayed in the table still do. */
  lemma {:induction false} FileStepKeepsLinks(v: Vol, s: seq<nat>, v': Vol, s': seq<nat>)
    requires FileStep(v, s, v', s') && LinksStay(v.fat)
    ensures LinksStay(v'.fat)
  {
    forall c | 2 <= c < |v'.fat|
      ensures v'.fat[c] < |v'.fat| || BAD_CLUSTER <= v'.fat[c]
    {
      assert Kept(v, s, v', s', c);
      if c in s' {
        ChainLinkStays(v'.fat, s', c);
      }
    }
  }

  lemma {:induction false} ChainLinkStays(fat: seq<nat>, s: seq<nat>, c: nat)
    requires IsChainOrNil(fat, s) && c in s
    ensures c < |fat| && (fat[c] < |fat| || BAD_CLUSTER <= fat[c])
  {
    var i :| 0 <= i < |s| && s[i] == c;
    ChainAt(fat, s, i);
  }

  lemma {:induction false} FreeIsOutside(fat: seq<nat>, s: seq<nat>, c: nat)
    requires IsChainOrNil(fat, s) && c < |fat| && fat[c] == FREE_CLUSTER
    ensures c !in s
  {
    if c in s {
      ChainMember(fat, s, c);
    }
  }

  /** The volume after the fresh cluster `c` was allocated and linked behind `s`. */
  function Linked(v: Vol, s: seq<nat>, c: nat): Vol
    requires c < |v.fat| == |v.data|
    requires s != [] ==> s[|s| - 1] < |v.fat|
  {
    var a := Allocated(v, c);
    if s == [] then a else a.(fat := a.fat[s[|s| - 1] := c])
  }

  /** Allocation of a first cluster and extension of a chain keep the bargain. */
  lemma {:induction false} LinkedIsFileStep(v: Vol, s: seq<nat>, c: nat)
    requires WellFormed(v) && IsChainOrNil(v.fat, s)
    requires 2 <= c < |v.fat| && v.fat[c] == FREE_CLUSTER
    ensures s != [] ==> s[|s| - 1] < |v.fat|
    ensures FileStep(v, s, Linked(v, s, c), s + [c])
  {
    FreeIsOutside(v.fat, s, c);
    var a := Allocated(v, c);
    FreeFromUpdate(v.fat, 2, c, END_MARK);
    FreeFromBound(v.fat, 2);
    if s == [] {
      assert Link(a.fat, [c], 0);
    } else {
      ChainAt(v.fat, s, |s| - 1);
      FreeFromUpdate(a.fat, 2, s[|s| - 1], c);
      ChainAppend(v.fat, s, c);
    }
  }

  /** Freeing: the chain becomes empty. */
  lemma {:induction false} ReleaseIsFileStep(v: Vol, s: seq<nat>)
    requires WellFormed(v) && LinksStay(v.fat) && IsChain(v.fat, s)
    ensures s[0] < |v.fat|
    ensures FileStep(v, s, FreeWalk(v, s[0]), [])
  {
    FreeWalkReleasesChain(v, s);
  }
}
