/** Retention: after an upload the agent keeps the five greatest snapshot
    names and deletes the rest, oldest first, stopping at the first delete
    that fails (the failure escapes to the one handler around the whole
    create step). */
module Retention {
  import opened Strings
  import opened Seqs
  import opened Sorting
  import opened Naming
  import opened Remote

  /** How many snapshots survive pruning. */
  const Window: nat := 5

  /** `snaps[:len(snaps)-5]` when there are more than five, else nothing. */
  function Excess(sorted: seq<string>): (v: seq<string>)
    ensures v <= sorted
    ensures |sorted| - |v| == if |sorted| > Window then Window else |sorted|
  {
    if |sorted| > Window then sorted[..|sorted| - Window] else []
  }

  /** The names chosen for deletion from a listing's snapshots are exactly
      the `n - 5` smallest, each once, in ascending order; with five or
      fewer there are none. */
  lemma ExcessIsOldest(snaps: seq<string>)
    requires NoDup(snaps)
    ensures var v := Excess(Sort(snaps));
      && |v| == (if |snaps| > Window then |snaps| - Window else 0)
      && Sorted(v) && NoDup(v)
      && (forall x :: x in v ==> x in snaps)
      && (forall x, y :: x in v && y in snaps && y !in v ==> Less(x, y))
  {
    var sorted := Sort(snaps);
    var v := Excess(sorted);
    assert v == sorted[..|v|];
    PermutationNoDup(snaps, sorted);
    NoDupPrefix(sorted, |v|);
    forall x | x in v
      ensures x in snaps
    {
      assert x in multiset(sorted);
    }
    forall x, y | x in v && y in snaps && y !in v
      ensures Less(x, y)
    {
      assert y in multiset(sorted);
      PrefixBelow(sorted, |v|, x, y);
    }
  }

  /** In a sorted list, a name in the first `k` places is smaller than any
      name that does not occur there. */
  lemma PrefixBelow(sorted: seq<string>, k: nat, x: string, y: string)
    requires Sorted(sorted) && k <= |sorted|
    requires x in sorted[..k] && y in sorted && y !in sorted[..k]
    ensures Less(x, y)
  {
    var i :| 0 <= i < k && sorted[..k][i] == x;
    var j :| 0 <= j < |sorted| && sorted[j] == y;
    assert forall m :: 0 <= m < k ==> sorted[..k][m] == sorted[m];
    assert sorted[i] == x;
  }

  /** How a pruning pass ended. */
  datatype Stop = AllCleaned | CleanFailed(name: string)

  /** Directory after pruning, the entries actually deleted, and how it ended. */
  datatype Pruning = Pruning(dir: seq<string>, removed: seq<string>, stop: Stop)

  /** Deleting one more victim in front of a prefix of the rest gives a
      prefix of all the victims. */
  lemma ConsPrefix(victims: seq<string>, rest: seq<string>)
    requires |victims| > 0 && |rest| < |victims|
    requires rest == victims[1..][..|rest|]
    ensures [victims[0]] + rest == victims[..|rest| + 1]
  {
  }

  /** Counting entries after deleting `g` and then the names `rest`. */
  lemma ConsRemoved(dir: seq<string>, g: string, d: seq<string>, left: seq<string>, rest: seq<string>)
    requires forall x :: multiset(d)[x] == if x == g then 0 else multiset(dir)[x]
    requires forall x :: multiset(left)[x] == if x in rest then 0 else multiset(d)[x]
    ensures forall x :: multiset(left)[x] == if x in [g] + rest then 0 else multiset(dir)[x]
  {
    forall x
      ensures multiset(left)[x] == if x in [g] + rest then 0 else multiset(dir)[x]
    {
      assert x in [g] + rest <==> x == g || x in rest;
    }
  }

  /** `for g in victims: client.clean(g)`, where deleting a name in
      `failing` raises and ends the loop. */
  function CleanAll(dir: seq<string>, victims: seq<string>, failing: set<string>): (p: Pruning)
    ensures |p.removed| <= |victims| && p.removed == victims[..|p.removed|]
    ensures p.stop.AllCleaned? <==> |p.removed| == |victims|
    ensures p.stop.CleanFailed? ==> && |p.removed| < |victims|
                                    && victims[|p.removed|] == p.stop.name
                                    && p.stop.name in failing
    ensures forall g :: g in p.removed ==> g !in failing
    ensures forall x :: multiset(p.dir)[x] == if x in p.removed then 0 else multiset(dir)[x]
    decreases |victims|
  {
    if |victims| == 0 then Pruning(dir, [], AllCleaned)
    else if victims[0] in failing then Pruning(dir, [], CleanFailed(victims[0]))
    else
      var g := victims[0];
      var d := Remove(dir, g);
      var rest := CleanAll(d, victims[1..], failing);
      var removed := [g] + rest.removed;
      ConsPrefix(victims, rest.removed);
      ConsRemoved(dir, g, d, rest.dir, rest.removed);
      Pruning(rest.dir, removed, rest.stop)
  }

  /** Deleting entries never creates a repeated name. */
  lemma {:induction false} CleanAllNoDup(dir: seq<string>, victims: seq<string>, failing: set<string>)
    ensures NoDup(dir) ==> NoDup(CleanAll(dir, victims, failing).dir)
    decreases |victims|
  {
    if |victims| > 0 && victims[0] !in failing {
      CleanAllNoDup(Remove(dir, victims[0]), victims[1..], failing);
    }
  }

  /** A pruning pass deletes exactly the names it reports as removed. */
  lemma CleanAllMembership(dir: seq<string>, victims: seq<string>, failing: set<string>)
    ensures var p := CleanAll(dir, victims, failing);
      forall x :: x in p.dir <==> x in dir && x !in p.removed
  {
    var p := CleanAll(dir, victims, failing);
    forall x
      ensures x in p.dir <==> x in dir && x !in p.removed
    {
      assert x in p.dir <==> x in multiset(p.dir);
      assert x in dir <==> x in multiset(dir);
    }
  }

  /** The delete requests a pruning pass sent, in order: one per removed
      name, then the one that failed, if any. */
  function CleanCalls(p: Pruning): (calls: seq<Call>)
    ensures |calls| == |p.removed| + (if p.stop.CleanFailed? then 1 else 0)
    ensures forall i :: 0 <= i < |p.removed| ==> calls[i] == Clean(p.removed[i])
    ensures p.stop.CleanFailed? ==> calls[|calls| - 1] == Clean(p.stop.name)
    decreases |p.removed|
  {
    if |p.removed| == 0 then (if p.stop.CleanFailed? then [Clean(p.stop.name)] else [])
    else [Clean(p.removed[0])] + CleanCalls(Pruning(p.dir, p.removed[1..], p.stop))
  }

  /** The delete requests of a pass go through the victims in order. */
  lemma CleanCallsFollowVictims(dir: seq<string>, v: seq<string>, failing: set<string>)
    ensures var calls := CleanCalls(CleanAll(dir, v, failing));
      && |calls| <= |v|
      && forall i :: 0 <= i < |calls| ==> calls[i] == Clean(v[i])
  {
    var p := CleanAll(dir, v, failing);
    var calls := CleanCalls(p);
    forall i | 0 <= i < |calls|
      ensures calls[i] == Clean(v[i])
    {
      if i < |p.removed| {
        assert calls[i] == Clean(p.removed[i]);
        assert p.removed[i] == v[..|p.removed|][i];
      } else {
        assert p.stop.CleanFailed? && i == |p.removed|;
        assert calls[i] == Clean(p.stop.name);
      }
    }
  }

  /** A pass stops right after the first delete that fails: every request
      but the last succeeded, and the pass ends before its victims run out
      only on a failure. */
  lemma CleanCallsStopAtFirstFailure(dir: seq<string>, v: seq<string>, failing: set<string>)
    ensures var calls := CleanCalls(CleanAll(dir, v, failing));
      && (forall i :: 0 <= i < |calls| - 1 ==> v[i] !in failing)
      && (|calls| < |v| ==> |calls| > 0 && v[|calls| - 1] in failing)
      && (CleanAll(dir, v, failing).stop.CleanFailed? <==> |calls| > 0 && v[|calls| - 1] in failing)
  {
    var p := CleanAll(dir, v, failing);
    var calls := CleanCalls(p);
    CleanCallsFollowVictims(dir, v, failing);
    forall i | 0 <= i < |calls| - 1
      ensures v[i] !in failing
    {
      assert calls[i] == Clean(p.removed[i]);
      assert p.removed[i] in p.removed;
    }
    if p.stop.AllCleaned? && |calls| > 0 {
      assert calls[|calls| - 1] == Clean(p.removed[|calls| - 1]);
      assert p.removed[|calls| - 1] in p.removed;
    }
  }

  /** Pruning as the agent runs it on a fresh listing. */
  function Prune(listing: seq<string>, failing: set<string>): (p: Pruning)
    ensures forall x :: x in p.removed ==> x in listing && IsSnapshot(x)
    ensures forall x :: x in p.dir <==> x in listing && x !in p.removed
    ensures p.stop.AllCleaned? <==>
      |p.removed| == if |Snapshots(listing)| > Window then |Snapshots(listing)| - Window else 0
  {
    ListingVictims(listing);
    CleanAllMembership(listing, Excess(Sort(Snapshots(listing))), failing);
    CleanAll(listing, Excess(Sort(Snapshots(listing))), failing)
  }

  /** The victims of a listing are listed snapshots, `n - 5` of them. */
  lemma ListingVictims(listing: seq<string>)
    ensures forall x :: x in Excess(Sort(Snapshots(listing))) ==> x in listing && IsSnapshot(x)
    ensures |Excess(Sort(Snapshots(listing)))| ==
      if |Snapshots(listing)| > Window then |Snapshots(listing)| - Window else 0
  {
    var sorted := Sort(Snapshots(listing));
    assert |sorted| == |multiset(sorted)| == |Snapshots(listing)|;
    forall x | x in Excess(sorted)
      ensures x in listing && IsSnapshot(x)
    {
      assert x in sorted;
      assert x in multiset(sorted);
    }
  }

  /** With at most five snapshots listed, pruning sends no request and
      leaves the directory as it was. */
  lemma PruneFewKeepsAll(listing: seq<string>, failing: set<string>)
    requires |Snapshots(listing)| <= Window
    ensures Prune(listing, failing) == Pruning(listing, [], AllCleaned)
    ensures CleanCalls(Prune(listing, failing)) == []
  {
    assert Excess(Sort(Snapshots(listing))) == [];
  }

  /** Counting one name across a split of the sorted list into deleted head
      and kept tail: a name occurring at most once cannot be in both. */
  lemma SplitCount(sorted: seq<string>, cut: nat, x: string, inListing: nat, left: nat, snapshot: bool)
    requires cut <= |sorted|
    requires inListing <= 1
    requires multiset(sorted)[x] == if snapshot then inListing else 0
    requires left == if x in sorted[..cut] then 0 else inListing
    ensures (if snapshot then left else 0) == multiset(sorted[cut..])[x]
  {
    assert sorted == sorted[..cut] + sorted[cut..];
    assert multiset(sorted)[x] == multiset(sorted[..cut])[x] + multiset(sorted[cut..])[x];
    if x in sorted[..cut] {
      assert x in multiset(sorted[..cut]);
    }
  }

  /** One name's count after a complete prune, for `KeptMultiset`. */
  lemma KeptCount(listing: seq<string>, failing: set<string>, x: string)
    requires NoDup(listing)
    requires Prune(listing, failing).stop.AllCleaned?
    ensures var sorted := Sort(Snapshots(listing));
      multiset(Snapshots(Prune(listing, failing).dir))[x] == multiset(sorted[|Excess(sorted)|..])[x]
  {
    var snaps := Snapshots(listing);
    var sorted := Sort(snaps);
    var v := Excess(sorted);
    var p := CleanAll(listing, v, failing);
    assert p.removed == v by {
      assert |p.removed| == |v|;
    }
    var inListing := multiset(listing)[x];
    assert inListing <= 1 by {
      NoDupCounts(listing);
    }
    assert multiset(sorted)[x] == multiset(snaps)[x];
    assert multiset(snaps)[x] == if IsSnapshot(x) then inListing else 0;
    assert multiset(p.dir)[x] == if x in v then 0 else inListing;
    assert multiset(Snapshots(p.dir))[x] == if IsSnapshot(x) then multiset(p.dir)[x] else 0;
    assert v == sorted[..|v|];
    SplitCount(sorted, |v|, x, inListing, multiset(p.dir)[x], IsSnapshot(x));
  }

  /** The multiset of snapshot names left after a complete prune is that of
      the kept tail of the sorted list. */
  lemma KeptMultiset(listing: seq<string>, failing: set<string>)
    requires NoDup(listing)
    requires Prune(listing, failing).stop.AllCleaned?
    ensures var sorted := Sort(Snapshots(listing));
      multiset(Snapshots(Prune(listing, failing).dir)) == multiset(sorted[|Excess(sorted)|..])
  {
    var sorted := Sort(Snapshots(listing));
    var left := multiset(Snapshots(Prune(listing, failing).dir));
    var kept := multiset(sorted[|Excess(sorted)|..]);
    forall x
      ensures left[x] == kept[x]
    {
      KeptCount(listing, failing, x);
    }
    MultisetExtensional(left, kept);
  }

  /** After a complete prune `min(n, 5)` snapshots are left. */
  lemma PruneLeavesWindow(listing: seq<string>, failing: set<string>)
    requires NoDup(listing)
    requires Prune(listing, failing).stop.AllCleaned?
    ensures var n := |Snapshots(listing)|;
      |Snapshots(Prune(listing, failing).dir)| == if n > Window then Window else n
  {
    var sorted := Sort(Snapshots(listing));
    var kept := sorted[|Excess(sorted)|..];
    KeptMultiset(listing, failing);
    assert |Snapshots(Prune(listing, failing).dir)| == |multiset(kept)| == |kept|;
  }

  /** After a complete prune the snapshots left are exactly the greatest
      names: the tail of the sorted list beyond the excess. */
  lemma PruneKeepsTail(listing: seq<string>, failing: set<string>)
    requires NoDup(listing)
    requires Prune(listing, failing).stop.AllCleaned?
    ensures var sorted := Sort(Snapshots(listing));
            var left := Prune(listing, failing).dir;
      forall x :: x in left && IsSnapshot(x) <==> x in sorted[|Excess(sorted)|..]
  {
    var sorted := Sort(Snapshots(listing));
    var kept := sorted[|Excess(sorted)|..];
    var left := Prune(listing, failing).dir;
    KeptMultiset(listing, failing);
    forall x
      ensures x in left && IsSnapshot(x) <==> x in kept
    {
      assert x in Snapshots(left) <==> x in multiset(Snapshots(left));
      assert x in kept <==> x in multiset(kept);
    }
  }

  /** A deletion pass over victims that are all older than every other
      candidate leaves only candidates newer than anything it deleted. */
  lemma CleanAllOlderFirst(listing: seq<string>, v: seq<string>, failing: set<string>, snaps: seq<string>)
    requires forall y :: y in listing && IsSnapshot(y) ==> y in snaps
    requires forall x, y :: x in v && y in snaps && y !in v ==> Less(x, y)
    requires CleanAll(listing, v, failing).stop.AllCleaned?
    ensures var left := CleanAll(listing, v, failing).dir;
      forall x, y :: x in listing && x !in left && y in left && IsSnapshot(y) ==> Less(x, y)
  {
    var p := CleanAll(listing, v, failing);
    CleanAllMembership(listing, v, failing);
    forall x, y | x in listing && x !in p.dir && y in p.dir && IsSnapshot(y)
      ensures Less(x, y)
    {
      assert p.removed == v;
      assert x in v && y !in v;
    }
  }

  /** Pruning, complete or not, deletes only snapshots; when it is complete
      each deleted snapshot is older than every snapshot left. */
  lemma PruneDeletesOldest(listing: seq<string>, failing: set<string>)
    requires NoDup(listing)
    ensures var left := Prune(listing, failing).dir;
      && (forall x :: x in listing && !IsSnapshot(x) ==> x in left)
      && (Prune(listing, failing).stop.AllCleaned? ==>
            forall x, y :: x in listing && IsSnapshot(x) && x !in left && y in left && IsSnapshot(y) ==> Less(x, y))
  {
    var snaps := Snapshots(listing);
    var v := Excess(Sort(snaps));
    ExcessIsOldest(snaps);
    CleanAllMembership(listing, v, failing);
    if CleanAll(listing, v, failing).stop.AllCleaned? {
      CleanAllOlderFirst(listing, v, failing, snaps);
    }
  }

  /** The retention invariant: when every delete succeeds, the snapshots left
      are exactly the `min(n, 5)` greatest names of the listing, every
      deleted snapshot is older than every kept one, and entries that are
      not snapshots are never touched. */
  lemma PruneKeepsNewest(listing: seq<string>, failing: set<string>)
    requires NoDup(listing)
    requires Prune(listing, failing).stop.AllCleaned?
    ensures var n := |Snapshots(listing)|;
            var sorted := Sort(Snapshots(listing));
            var left := Prune(listing, failing).dir;
      && |Snapshots(left)| == (if n > Window then Window else n)
      && (forall x :: x in left && IsSnapshot(x) <==> x in sorted[|Excess(sorted)|..])
      && (forall x, y :: x in listing && IsSnapshot(x) && x !in left && y in left && IsSnapshot(y) ==> Less(x, y))
      && (forall x :: x in listing && !IsSnapshot(x) ==> x in left)
  {
    PruneLeavesWindow(listing, failing);
    PruneKeepsTail(listing, failing);
    PruneDeletesOldest(listing, failing);
  }
}
