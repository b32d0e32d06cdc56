/** The snapshot lifecycle: restoring the latest snapshot into the local
    data directory at start-up, and taking, uploading and pruning a snapshot
    on every cycle. Each remote or local step that can raise is an input
    flag; an exception ends the operation at that step, is logged, and is
    never passed on to the caller. */
module Manager {
  import opened Strings
  import opened Seqs
  import opened Sorting
  import opened Naming
  import opened Remote
  import opened Retention

  /** The local data directory: absent, or present with its files
      (relative path to contents). */
  datatype Workspace = Missing | Present(files: map<string, string>)

  /** What extracting the downloaded archive gives: the whole tree, or a
      partial tree written before the archive turned out to be unreadable. */
  datatype Payload = Intact(files: map<string, string>) | Damaged(partial: map<string, string>)

  /** The download of the chosen snapshot: it raised (the request, or writing
      the body to the temporary file), or it answered with a status. */
  datatype Fetch = Raised | Response(status: int, payload: Payload)

  /** How the environment behaves during one restore. */
  datatype RestoreIo = RestoreIo(listFails: bool, fetch: Fetch)

  datatype RestoreOutcome =
    | ListingFailed
    | NoSnapshot
    | DownloadFailed(name: string)
    | NotFetched(name: string, status: int)
    | Restored(name: string)
    | ExtractFailed(name: string)

  datatype Restoration = Restoration(workspace: Workspace, calls: seq<Call>, outcome: RestoreOutcome)

  /** `restore_snapshot`: list, pick the greatest snapshot name, download
      it, and on status 200 wipe the data directory and extract into it.
      Restore only lists and downloads; it never writes to the directory. */
  function RestoreSnapshot(dir: seq<string>, ws: Workspace, io: RestoreIo): (r: Restoration)
    ensures r.calls == [List] || (|r.calls| == 2 && r.calls[0] == List && r.calls[1].Get?)
    // the one download, if any, is of the greatest snapshot name
    ensures |r.calls| == 2 ==> && r.calls[1].name in Snapshots(dir)
                               && forall x :: x in Snapshots(dir) ==> LessEq(x, r.calls[1].name)
    // the workspace is only touched after a download answered 200
    ensures r.workspace != ws ==> |r.calls| == 2 && io.fetch.Response? && io.fetch.status == 200
  {
    if io.listFails then Restoration(ws, [List], ListingFailed)
    else
      var snaps := Snapshots(dir);
      if |snaps| == 0 then Restoration(ws, [List], NoSnapshot)
      else
        var latest := Latest(snaps);
        var calls := [List, Get(latest)];
        match io.fetch
        case Raised => Restoration(ws, calls, DownloadFailed(latest))
        case Response(status, payload) =>
          if status != 200 then Restoration(ws, calls, NotFetched(latest, status))
          else
            match payload
            case Intact(files) => Restoration(Present(files), calls, Restored(latest))
            case Damaged(partial) => Restoration(Present(partial), calls, ExtractFailed(latest))
  }

  /** A failed listing, or a listing without snapshots, is a fresh start:
      no download, and the workspace stays as it was. */
  lemma RestoreWithoutSnapshots(dir: seq<string>, ws: Workspace, io: RestoreIo)
    requires io.listFails || |Snapshots(dir)| == 0
    ensures RestoreSnapshot(dir, ws, io).workspace == ws
    ensures RestoreSnapshot(dir, ws, io).calls == [List]
  {
  }

  /** With snapshots listed, exactly one download is attempted: of the
      latest one. */
  lemma RestoreDownloadsLatest(dir: seq<string>, ws: Workspace, io: RestoreIo)
    requires !io.listFails && |Snapshots(dir)| > 0
    ensures RestoreSnapshot(dir, ws, io).calls == [List, Get(Latest(Snapshots(dir)))]
  {
  }

  /** A download that raises or answers anything but 200 leaves the
      workspace untouched. */
  lemma RestoreKeepsWorkspaceOnFailure(dir: seq<string>, ws: Workspace, io: RestoreIo)
    requires io.fetch.Raised? || io.fetch.status != 200
    ensures RestoreSnapshot(dir, ws, io).workspace == ws
    ensures !RestoreSnapshot(dir, ws, io).outcome.Restored?
  {
  }

  /** After a 200 the workspace is replaced wholesale, whatever it held:
      by the archive's tree, or by what extraction wrote before failing. */
  lemma RestoreReplacesWorkspace(dir: seq<string>, ws: Workspace, io: RestoreIo)
    requires !io.listFails && |Snapshots(dir)| > 0
    requires io.fetch.Response? && io.fetch.status == 200
    ensures var r := RestoreSnapshot(dir, ws, io);
      && (io.fetch.payload.Intact? ==> r.workspace == Present(io.fetch.payload.files) && r.outcome == Restored(Latest(Snapshots(dir))))
      && (io.fetch.payload.Damaged? ==> r.workspace == Present(io.fetch.payload.partial) && r.outcome == ExtractFailed(Latest(Snapshots(dir))))
  {
  }

  /** How the environment behaves during one create: which steps raise.
      `removeFails` is the removal of the local archive after the upload. */
  datatype CreateIo = CreateIo(archiveFails: bool, uploadFails: bool, removeFails: bool, listFails: bool, failingCleans: set<string>)

  datatype CreateOutcome =
    | NoData
    | ArchiveFailed(name: string)
    | UploadFailed(name: string)
    | RemoveFailed(name: string)
    | RelistFailed(name: string)
    | PruneFailed(name: string, failed: string)
    | Synced(name: string)

  datatype Creation = Creation(dir: seq<string>, calls: seq<Call>, outcome: CreateOutcome)

  /** `create_snapshot` at stamp `ts`: archive the data directory, upload it,
      re-list, and delete all but the five greatest snapshot names. Whatever
      fails, the only entry that can appear is the new snapshot and only
      snapshots can disappear. */
  function CreateSnapshot(dir: seq<string>, data: Workspace, ts: string, io: CreateIo): (r: Creation)
    ensures forall x :: x in r.dir ==> x in dir || x == SnapshotName(ts)
    ensures forall x :: x in dir && !IsSnapshot(x) ==> x in r.dir
    ensures NoDup(dir) ==> NoDup(r.dir)
  {
    if data.Missing? then Creation(dir, [], NoData)
    else
      var name := SnapshotName(ts);
      if io.archiveFails then Creation(dir, [], ArchiveFailed(name))
      else if io.uploadFails then Creation(dir, [Put(name)], UploadFailed(name))
      else
        var uploaded := Upload(dir, name);
        if io.removeFails then Creation(uploaded, [Put(name)], RemoveFailed(name))
        else if io.listFails then Creation(uploaded, [Put(name), List], RelistFailed(name))
        else
          var p := Prune(uploaded, io.failingCleans);
          PruneSparesOthers(uploaded, io.failingCleans);
          CleanAllNoDup(uploaded, Excess(Sort(Snapshots(uploaded))), io.failingCleans);
          Creation(p.dir, [Put(name), List] + CleanCalls(p),
                   if p.stop.CleanFailed? then PruneFailed(name, p.stop.name) else Synced(name))
  }

  /** Pruning never deletes an entry that is not a snapshot and never adds one. */
  lemma PruneSparesOthers(listing: seq<string>, failing: set<string>)
    ensures var p := Prune(listing, failing);
      && (forall x :: x in listing && !IsSnapshot(x) ==> x in p.dir)
      && (forall x :: x in p.dir ==> x in listing)
  {
    var v := Excess(Sort(Snapshots(listing)));
    CleanAllMembership(listing, v, failing);
    ListingVictims(listing);
  }

  /** The archive is opaque to the share: which files were archived never
      changes what a create leaves on the share. */
  lemma CreateShareIgnoresFiles(dir: seq<string>, f1: map<string, string>, f2: map<string, string>, ts: string, io: CreateIo)
    ensures CreateSnapshot(dir, Present(f1), ts, io).dir == CreateSnapshot(dir, Present(f2), ts, io).dir
    ensures CreateSnapshot(dir, Present(f1), ts, io).calls == CreateSnapshot(dir, Present(f2), ts, io).calls
  {
  }

  /** Without a data directory create sends nothing and changes nothing. */
  lemma CreateWithoutData(dir: seq<string>, ts: string, io: CreateIo)
    ensures CreateSnapshot(dir, Missing, ts, io) == Creation(dir, [], NoData)
  {
  }

  /** If archiving or uploading raises, the directory is unchanged and no
      re-listing and no delete is sent: a failed archive sends nothing, a
      failed upload sends only its own upload. */
  lemma CreateUploadFailureSkipsPrune(dir: seq<string>, data: Workspace, ts: string, io: CreateIo)
    requires io.archiveFails || io.uploadFails
    ensures CreateSnapshot(dir, data, ts, io).dir == dir
    ensures forall c :: c in CreateSnapshot(dir, data, ts, io).calls ==> !c.Clean?
    ensures CreateSnapshot(dir, data, ts, io).calls ==
              if data.Missing? || io.archiveFails then [] else [Put(SnapshotName(ts))]
  {
  }

  /** Every request a pruning pass sends is a delete of a snapshot name. */
  lemma PruneCallsDeleteSnapshots(listing: seq<string>, failing: set<string>)
    ensures forall c :: c in CleanCalls(Prune(listing, failing)) ==> c.Clean? && IsSnapshot(c.name)
  {
    var v := Excess(Sort(Snapshots(listing)));
    var calls := CleanCalls(Prune(listing, failing));
    CleanCallsFollowVictims(listing, v, failing);
    assert forall x :: x in v ==> IsSnapshot(x) by { ListingVictims(listing); }
    forall i | 0 <= i < |calls|
      ensures calls[i].Clean? && IsSnapshot(calls[i].name)
    {
      assert v[i] in v;
    }
  }

  /** If removing the local archive raises after the upload, the share
      holds the new snapshot but is neither re-listed nor pruned. */
  lemma CreateRemoveFailureSkipsPrune(dir: seq<string>, data: Workspace, ts: string, io: CreateIo)
    requires data.Present? && !io.archiveFails && !io.uploadFails && io.removeFails
    ensures CreateSnapshot(dir, data, ts, io) == Creation(Upload(dir, SnapshotName(ts)), [Put(SnapshotName(ts))], RemoveFailed(SnapshotName(ts)))
  {
  }

  /** Once archived and uploaded, the new snapshot's upload is the first
      request and the re-listing, sent only once the local archive is
      removed, the second; deletes come only after them and only for
      snapshot names. */
  lemma CreateUploadsThenPrunes(dir: seq<string>, data: Workspace, ts: string, io: CreateIo)
    requires data.Present? && !io.archiveFails && !io.uploadFails
    ensures var r := CreateSnapshot(dir, data, ts, io);
      && |r.calls| >= 1 && r.calls[0] == Put(SnapshotName(ts))
      && (io.removeFails ==> r.calls == [Put(SnapshotName(ts))])
      && (!io.removeFails ==> |r.calls| >= 2 && r.calls[1] == List)
      && (!io.removeFails && io.listFails ==> r.calls == [Put(SnapshotName(ts)), List])
      && (forall i :: 2 <= i < |r.calls| ==> r.calls[i].Clean? && IsSnapshot(r.calls[i].name))
  {
    var name := SnapshotName(ts);
    var uploaded := Upload(dir, name);
    var r := CreateSnapshot(dir, data, ts, io);
    if io.removeFails {
      assert r.calls == [Put(name)];
    } else if io.listFails {
      assert r.calls == [Put(name), List];
    } else {
      var calls := CleanCalls(Prune(uploaded, io.failingCleans));
      PruneCallsDeleteSnapshots(uploaded, io.failingCleans);
      assert r.calls == [Put(name), List] + calls;
      forall i | 2 <= i < |r.calls|
        ensures r.calls[i].Clean? && IsSnapshot(r.calls[i].name)
      {
        assert r.calls[i] == calls[i - 2];
        assert calls[i - 2] in calls;
      }
    }
  }

  /** After archiving, uploading, removing the local archive and
      re-listing succeed, create is the
      upload followed by a pruning pass over the uploaded-to listing: its
      requests, resulting directory and outcome are the pass's. */
  lemma CreatePrunesAfterUpload(dir: seq<string>, data: Workspace, ts: string, io: CreateIo)
    requires data.Present? && !io.archiveFails && !io.uploadFails && !io.removeFails && !io.listFails
    ensures var r := CreateSnapshot(dir, data, ts, io);
            var p := Prune(Upload(dir, SnapshotName(ts)), io.failingCleans);
      && r.calls == [Put(SnapshotName(ts)), List] + CleanCalls(p)
      && r.dir == p.dir
      && (r.outcome == Synced(SnapshotName(ts)) <==> p.stop.AllCleaned?)
      && (p.stop.CleanFailed? ==> r.outcome == PruneFailed(SnapshotName(ts), p.stop.name))
  {
  }

  /** Uploading a snapshot name not yet listed adds exactly one snapshot;
      re-uploading a listed name adds none. */
  lemma UploadAddsSnapshot(dir: seq<string>, name: string)
    requires IsSnapshot(name)
    ensures |Snapshots(Upload(dir, name))| == |Snapshots(dir)| + (if name in dir then 0 else 1)
  {
    if name !in dir {
      var d := Upload(dir, name);
      assert d == dir + [name];
      assert multiset(d) == multiset(dir) + multiset{name};
      forall x
        ensures multiset(Snapshots(d))[x] == (multiset(Snapshots(dir)) + multiset{name})[x]
      {
      }
      MultisetExtensional(multiset(Snapshots(d)), multiset(Snapshots(dir)) + multiset{name});
      assert |Snapshots(d)| == |multiset(Snapshots(d))| == |multiset(Snapshots(dir))| + 1 == |Snapshots(dir)| + 1;
    }
  }

  /** A create that ends `Synced` went through every step. */
  lemma SyncedMeansAllStepsRan(dir: seq<string>, data: Workspace, ts: string, io: CreateIo)
    requires CreateSnapshot(dir, data, ts, io).outcome.Synced?
    ensures data.Present? && !io.archiveFails && !io.uploadFails && !io.removeFails && !io.listFails
    ensures Prune(Upload(dir, SnapshotName(ts)), io.failingCleans).stop.AllCleaned?
    ensures CreateSnapshot(dir, data, ts, io).dir == Prune(Upload(dir, SnapshotName(ts)), io.failingCleans).dir
  {
  }

  /** The retention invariant after a create that went through: at most
      five snapshots are left, exactly `min(n, 5)` of the `n` there were
      once the new one was uploaded, and every snapshot that went is older
      than every snapshot that stayed. */
  lemma CreateKeepsWindow(dir: seq<string>, data: Workspace, ts: string, io: CreateIo)
    requires NoDup(dir)
    requires CreateSnapshot(dir, data, ts, io).outcome.Synced?
    ensures var left := CreateSnapshot(dir, data, ts, io).dir;
            var n := |Snapshots(dir)| + (if SnapshotName(ts) in dir then 0 else 1);
      && |Snapshots(left)| == (if n > Window then Window else n)
      && forall x, y :: (x == SnapshotName(ts) || (x in dir && IsSnapshot(x))) && x !in left && y in left && IsSnapshot(y) ==> Less(x, y)
  {
    var uploaded := Upload(dir, SnapshotName(ts));
    SyncedMeansAllStepsRan(dir, data, ts, io);
    UploadAddsSnapshot(dir, SnapshotName(ts));
    PruneLeavesWindow(uploaded, io.failingCleans);
    PruneDeletesOldest(uploaded, io.failingCleans);
  }

  /** A snapshot newer than every listed one always survives its own
      create's pruning. */
  lemma CreateKeepsNewSnapshot(dir: seq<string>, data: Workspace, ts: string, io: CreateIo)
    requires NoDup(dir)
    requires CreateSnapshot(dir, data, ts, io).outcome.Synced?
    requires forall x :: x in dir && IsSnapshot(x) ==> Less(x, SnapshotName(ts))
    ensures SnapshotName(ts) in CreateSnapshot(dir, data, ts, io).dir
  {
    var name := SnapshotName(ts);
    var uploaded := Upload(dir, name);
    SyncedMeansAllStepsRan(dir, data, ts, io);
    var sorted := Sort(Snapshots(uploaded));
    assert name in multiset(sorted);
    var last := sorted[|sorted| - 1];
    assert last in multiset(sorted);
    LastIsMaximum(sorted, name);
    LessEqAntisymmetric(name, last);
    PruneKeepsTail(uploaded, io.failingCleans);
    assert last in sorted[|Excess(sorted)|..];
  }

  /** Environment behaviour in which no step raises. */
  const Reliable: CreateIo := CreateIo(false, false, false, false, {})

  /** The names of the snapshots taken at the given stamps. */
  function Names(stamps: seq<string>): (names: seq<string>)
    ensures |names| == |stamps|
    ensures forall i :: 0 <= i < |stamps| ==> names[i] == SnapshotName(stamps[i])
  {
    seq(|stamps|, i requires 0 <= i < |stamps| => SnapshotName(stamps[i]))
  }

  /** One create per stamp, in order, against the same data directory. */
  function CreateEach(dir: seq<string>, files: map<string, string>, stamps: seq<string>): seq<string>
    decreases |stamps|
  {
    if |stamps| == 0 then dir
    else CreateSnapshot(CreateEach(dir, files, stamps[..|stamps| - 1]), Present(files), stamps[|stamps| - 1], Reliable).dir
  }

  /** Without failures every create goes through. */
  lemma ReliableCreateSyncs(dir: seq<string>, files: map<string, string>, ts: string)
    ensures CreateSnapshot(dir, Present(files), ts, Reliable).outcome.Synced?
  {
    var p := Prune(Upload(dir, SnapshotName(ts)), {});
    assert !p.stop.CleanFailed?;
  }

  /** A stamp not used before gives a name no earlier create uploaded. */
  lemma FreshStampFreshName(stamps: seq<string>, before: seq<string>)
    requires NoDup(stamps) && |stamps| > 0
    requires forall x :: x in before && IsSnapshot(x) ==> x in Names(stamps[..|stamps| - 1])
    ensures SnapshotName(stamps[|stamps| - 1]) !in before
  {
    var k := |stamps| - 1;
    var earlier := Names(stamps[..k]);
    forall i | 0 <= i < k
      ensures earlier[i] != SnapshotName(stamps[k])
    {
      NameInjective(stamps[i], stamps[k]);
    }
  }

  /** The names of a prefix of the stamps are among the names of all. */
  lemma NamesGrow(stamps: seq<string>, x: string)
    requires |stamps| > 0
    requires x in Names(stamps[..|stamps| - 1]) || x == SnapshotName(stamps[|stamps| - 1])
    ensures x in Names(stamps)
  {
    var k := |stamps| - 1;
    if x == SnapshotName(stamps[k]) {
      assert Names(stamps)[k] == x;
    } else {
      var i :| 0 <= i < k && Names(stamps[..k])[i] == x;
      assert Names(stamps)[i] == x;
    }
  }

  /** One reliable create on a directory with `c` snapshots, none of them
      named like the new one: `min(c + 1, 5)` snapshots remain, each either
      the new one or one that was there before. */
  lemma ReliableCreateStep(before: seq<string>, files: map<string, string>, ts: string)
    requires NoDup(before) && SnapshotName(ts) !in before
    ensures var left := CreateSnapshot(before, Present(files), ts, Reliable).dir;
      && NoDup(left)
      && |Snapshots(left)| == (if |Snapshots(before)| + 1 > Window then Window else |Snapshots(before)| + 1)
      && forall x :: x in left && IsSnapshot(x) ==> x in before || x == SnapshotName(ts)
  {
    ReliableCreateSyncs(before, files, ts);
    CreateKeepsWindow(before, Present(files), ts, Reliable);
  }

  /** The names of all the stamps are those of the earlier stamps and the
      last one's. */
  lemma NamesOfLast(stamps: seq<string>, x: string)
    requires |stamps| > 0 && x in Names(stamps)
    ensures x in Names(stamps[..|stamps| - 1]) || x == SnapshotName(stamps[|stamps| - 1])
    ensures IsSnapshot(x)
  {
    var k := |stamps| - 1;
    var i :| 0 <= i < |stamps| && Names(stamps)[i] == x;
    if i < k {
      assert Names(stamps[..k])[i] == x;
    }
  }

  /** While there is room for the new snapshot, a reliable create only
      uploads: nothing is deleted. */
  lemma ReliableCreateRoom(before: seq<string>, files: map<string, string>, ts: string)
    requires |Snapshots(before)| < Window
    ensures CreateSnapshot(before, Present(files), ts, Reliable).dir == Upload(before, SnapshotName(ts))
  {
    var uploaded := Upload(before, SnapshotName(ts));
    UploadAddsSnapshot(before, SnapshotName(ts));
    PruneFewKeepsAll(uploaded, {});
  }

  /** With more than five snapshots after the upload, a successful create
      deletes at least one of them: the returned name. */
  lemma CreateDeletesWhenFull(dir: seq<string>, data: Workspace, ts: string, io: CreateIo) returns (z: string)
    requires CreateSnapshot(dir, data, ts, io).outcome.Synced?
    requires |Snapshots(Upload(dir, SnapshotName(ts)))| > Window
    ensures z in dir || z == SnapshotName(ts)
    ensures IsSnapshot(z) && z !in CreateSnapshot(dir, data, ts, io).dir
  {
    var uploaded := Upload(dir, SnapshotName(ts));
    SyncedMeansAllStepsRan(dir, data, ts, io);
    var v := Excess(Sort(Snapshots(uploaded)));
    var p := CleanAll(uploaded, v, io.failingCleans);
    ListingVictims(uploaded);
    CleanAllMembership(uploaded, v, io.failingCleans);
    assert |v| > 0;
    z := v[0];
    assert p.removed == v by {
      assert |p.removed| == |v|;
    }
    assert z in p.removed;
  }

  /** What a directory looks like after reliable creates at `stamps`,
      starting from no snapshots: no duplicate entries; `min(k, 5)`
      snapshots for `k` stamps, each taken at one of the stamps; while
      `k <= 5` all of them; and every snapshot taken but gone is older than
      every snapshot left, so those left are the greatest names taken. */
  predicate Retained(left: seq<string>, stamps: seq<string>) {
    && NoDup(left)
    && |Snapshots(left)| == (if |stamps| > Window then Window else |stamps|)
    && (forall x :: x in left && IsSnapshot(x) ==> x in Names(stamps))
    && (|stamps| <= Window ==> forall x :: x in Names(stamps) ==> x in left)
    && (forall x, y :: x in Names(stamps) && x !in left && y in left && IsSnapshot(y) ==> Less(x, y))
  }

  /** While at most five stamps were used, every snapshot taken is still
      listed after the next create. */
  lemma RetainedRoomStep(before: seq<string>, files: map<string, string>, stamps: seq<string>, x: string)
    requires |stamps| > 0 && |stamps| <= Window
    requires Retained(before, stamps[..|stamps| - 1])
    requires x in Names(stamps)
    ensures x in CreateSnapshot(before, Present(files), stamps[|stamps| - 1], Reliable).dir
  {
    ReliableCreateRoom(before, files, stamps[|stamps| - 1]);
    NamesOfLast(stamps, x);
  }

  /** A snapshot taken but gone after the next create is older than every
      snapshot that create leaves. */
  lemma RetainedOrderStep(before: seq<string>, files: map<string, string>, stamps: seq<string>, x: string, y: string)
    requires |stamps| > 0 && NoDup(stamps)
    requires Retained(before, stamps[..|stamps| - 1])
    requires SnapshotName(stamps[|stamps| - 1]) !in before
    requires var left := CreateSnapshot(before, Present(files), stamps[|stamps| - 1], Reliable).dir;
      x in Names(stamps) && x !in left && y in left && IsSnapshot(y)
    ensures Less(x, y)
  {
    var ts := stamps[|stamps| - 1];
    var name := SnapshotName(ts);
    ReliableCreateSyncs(before, files, ts);
    CreateKeepsWindow(before, Present(files), ts, Reliable);
    NamesOfLast(stamps, x);
    if x != name && x !in before {
      var left := CreateSnapshot(before, Present(files), ts, Reliable).dir;
      if y != name {
        assert y in before;
      } else {
        UploadAddsSnapshot(before, name);
        var z := CreateDeletesWhenFull(before, Present(files), ts, Reliable);
        assert z in before;
        LessTransitive(x, z, y);
      }
    }
  }

  /** After the next create all snapshots taken are still listed, while at
      most five stamps were used. */
  lemma RetainedRoom(before: seq<string>, files: map<string, string>, stamps: seq<string>)
    requires |stamps| > 0
    requires Retained(before, stamps[..|stamps| - 1])
    ensures |stamps| <= Window ==>
      forall x :: x in Names(stamps) ==> x in CreateSnapshot(before, Present(files), stamps[|stamps| - 1], Reliable).dir
  {
    if |stamps| <= Window {
      forall x | x in Names(stamps)
        ensures x in CreateSnapshot(before, Present(files), stamps[|stamps| - 1], Reliable).dir
      {
        RetainedRoomStep(before, files, stamps, x);
      }
    }
  }

  /** After the next create every snapshot taken but gone is older than
      every snapshot left. */
  lemma RetainedOrder(before: seq<string>, files: map<string, string>, stamps: seq<string>)
    requires |stamps| > 0 && NoDup(stamps)
    requires Retained(before, stamps[..|stamps| - 1])
    ensures var left := CreateSnapshot(before, Present(files), stamps[|stamps| - 1], Reliable).dir;
      forall x, y :: x in Names(stamps) && x !in left && y in left && IsSnapshot(y) ==> Less(x, y)
  {
    FreshStampFreshName(stamps, before);
    var left := CreateSnapshot(before, Present(files), stamps[|stamps| - 1], Reliable).dir;
    forall x, y | x in Names(stamps) && x !in left && y in left && IsSnapshot(y)
      ensures Less(x, y)
    {
      RetainedOrderStep(before, files, stamps, x, y);
    }
  }

  /** After the next create the snapshots listed number `min(k, 5)` and
      were all taken at the stamps. */
  lemma RetainedCount(before: seq<string>, files: map<string, string>, stamps: seq<string>)
    requires |stamps| > 0 && NoDup(stamps)
    requires Retained(before, stamps[..|stamps| - 1])
    ensures var left := CreateSnapshot(before, Present(files), stamps[|stamps| - 1], Reliable).dir;
      && NoDup(left)
      && |Snapshots(left)| == (if |stamps| > Window then Window else |stamps|)
      && forall x :: x in left && IsSnapshot(x) ==> x in Names(stamps)
  {
    var ts := stamps[|stamps| - 1];
    FreshStampFreshName(stamps, before);
    ReliableCreateStep(before, files, ts);
    var left := CreateSnapshot(before, Present(files), ts, Reliable).dir;
    forall x | x in left && IsSnapshot(x)
      ensures x in Names(stamps)
    {
      NamesGrow(stamps, x);
    }
  }

  /** A create at a fresh stamp carries the invariant from the earlier
      stamps to all of them. */
  lemma RetainedStep(before: seq<string>, files: map<string, string>, stamps: seq<string>)
    requires |stamps| > 0 && NoDup(stamps)
    requires Retained(before, stamps[..|stamps| - 1])
    ensures Retained(CreateSnapshot(before, Present(files), stamps[|stamps| - 1], Reliable).dir, stamps)
  {
    RetainedCount(before, files, stamps);
    RetainedRoom(before, files, stamps);
    RetainedOrder(before, files, stamps);
  }

  /** The retention invariant over a run: starting from a directory with no
      snapshots, after snapshots at `k` distinct stamps exactly `min(k, 5)`
      snapshots are listed, all taken by those creates, and they are the
      greatest names taken: every one that is gone is older than every one
      left. */
  lemma {:induction false} RetentionOverCycles(dir: seq<string>, files: map<string, string>, stamps: seq<string>)
    requires NoDup(dir) && |Snapshots(dir)| == 0
    requires NoDup(stamps)
    ensures Retained(CreateEach(dir, files, stamps), stamps)
    decreases |stamps|
  {
    if |stamps| > 0 {
      NoDupPrefix(stamps, |stamps| - 1);
      RetentionOverCycles(dir, files, stamps[..|stamps| - 1]);
      RetainedStep(CreateEach(dir, files, stamps[..|stamps| - 1]), files, stamps);
    }
  }
}
