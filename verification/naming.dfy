/** Which remote entries are snapshots, how a new snapshot is named, and
    which snapshot counts as the latest. */
module Naming {
  import opened Strings
  import opened Seqs
  import opened Sorting
  import Timestamp

  const SnapshotPrefix: string := "snap_core_"
  const ArchiveSuffix: string := ".tar.gz"

  /** An entry is a snapshot when it starts with the prefix and ends with
      the archive suffix; everything else in the directory is ignored. */
  function IsSnapshot(name: string): (b: bool)
    ensures b ==> |name| >= |SnapshotPrefix| + |ArchiveSuffix|
  {
    if StartsWith(name, SnapshotPrefix) && EndsWith(name, ArchiveSuffix) then
      PrefixSuffixApart(name);
      true
    else false
  }

  /** The prefix and the suffix cannot overlap in a name: the suffix begins
      with a `.`, which the prefix does not contain. */
  lemma PrefixSuffixApart(name: string)
    requires StartsWith(name, SnapshotPrefix) && EndsWith(name, ArchiveSuffix)
    ensures |name| >= |SnapshotPrefix| + |ArchiveSuffix|
  {
    var j := |name| - |ArchiveSuffix|;
    assert name[j] == ArchiveSuffix[0] == '.';
    assert forall i :: 0 <= i < |SnapshotPrefix| ==> name[i] == SnapshotPrefix[i] != '.';
  }

  /** Every snapshot name is the prefix, a middle part and the suffix. */
  lemma SnapshotShape(name: string)
    requires IsSnapshot(name)
    ensures name == SnapshotPrefix + name[|SnapshotPrefix|..|name| - |ArchiveSuffix|] + ArchiveSuffix
  {
    assert name == name[..|SnapshotPrefix|] + name[|SnapshotPrefix|..|name| - |ArchiveSuffix|] + name[|name| - |ArchiveSuffix|..];
  }

  /** The snapshot entries of a listing (the comprehension used by both
      restore and create). */
  function Snapshots(entries: seq<string>): (snaps: seq<string>)
    ensures forall x :: x in snaps <==> x in entries && IsSnapshot(x)
    ensures forall x :: multiset(snaps)[x] == if IsSnapshot(x) then multiset(entries)[x] else 0
    ensures NoDup(entries) ==> NoDup(snaps)
  {
    FilterNoDup(entries, IsSnapshot);
    Filter(entries, IsSnapshot)
  }

  /** The name a snapshot taken at stamp `ts` is uploaded under. It is always
      recognised as a snapshot, whatever the stamp. */
  function SnapshotName(ts: string): (name: string)
    ensures IsSnapshot(name)
    ensures |name| == |SnapshotPrefix| + |ts| + |ArchiveSuffix|
  {
    var name := SnapshotPrefix + ts + ArchiveSuffix;
    assert name[..|SnapshotPrefix|] == SnapshotPrefix;
    assert name[|name| - |ArchiveSuffix|..] == ArchiveSuffix;
    name
  }

  /** A name is the prefix followed by the stamp and the suffix. */
  lemma NameSplit(ts: string)
    ensures SnapshotName(ts) == SnapshotPrefix + (ts + ArchiveSuffix)
    ensures SnapshotName(ts)[|SnapshotPrefix|..|SnapshotPrefix| + |ts|] == ts
  {
  }

  /** Names built from stamps of one width compare as the stamps do, and
      distinct stamps give distinct names. */
  lemma NameOrder(ts1: string, ts2: string)
    requires |ts1| == |ts2|
    ensures Less(SnapshotName(ts1), SnapshotName(ts2)) <==> Less(ts1, ts2)
    ensures SnapshotName(ts1) == SnapshotName(ts2) <==> ts1 == ts2
  {
    NameSplit(ts1);
    NameSplit(ts2);
    LessConcat(SnapshotPrefix, SnapshotPrefix, ts1 + ArchiveSuffix, ts2 + ArchiveSuffix);
    LessConcat(ts1, ts2, ArchiveSuffix, ArchiveSuffix);
    LessIrreflexive(ArchiveSuffix);
  }

  /** Distinct stamps always give distinct names. */
  lemma NameInjective(ts1: string, ts2: string)
    requires ts1 != ts2
    ensures SnapshotName(ts1) != SnapshotName(ts2)
  {
    if |ts1| == |ts2| {
      NameOrder(ts1, ts2);
    }
  }

  /** Snapshots taken at two valid local wall-clock readings sort by name
      in the order of the readings; a clock set back makes a later
      snapshot sort first. */
  lemma NamesSortChronologically(a: Timestamp.DateTime, b: Timestamp.DateTime)
    requires Timestamp.Valid(a) && Timestamp.Valid(b)
    ensures Less(SnapshotName(Timestamp.Format(a)), SnapshotName(Timestamp.Format(b))) <==> Timestamp.Before(a, b)
    ensures SnapshotName(Timestamp.Format(a)) == SnapshotName(Timestamp.Format(b)) <==> a == b
  {
    Timestamp.FormatOrder(a, b);
    NameOrder(Timestamp.Format(a), Timestamp.Format(b));
  }

  /** `snaps.sort(); snaps[-1]`: the greatest name. */
  function Latest(snaps: seq<string>): (latest: string)
    requires |snaps| > 0
    ensures latest in snaps
    ensures forall x :: x in snaps ==> LessEq(x, latest)
  {
    var sorted := Sort(snaps);
    assert sorted[|sorted| - 1] in multiset(snaps);
    assert forall x :: x in snaps ==> LessEq(x, sorted[|sorted| - 1]) by {
      forall x | x in snaps
        ensures LessEq(x, sorted[|sorted| - 1])
      {
        assert x in multiset(sorted);
        LastIsMaximum(sorted, x);
      }
    }
    sorted[|sorted| - 1]
  }

  /** The greatest snapshot name is the only one that is at least all others. */
  lemma LatestUnique(snaps: seq<string>, y: string)
    requires y in snaps
    requires forall x :: x in snaps ==> LessEq(x, y)
    ensures y == Latest(snaps)
  {
    LessEqAntisymmetric(y, Latest(snaps));
  }

  /** An unrelated file is dropped by the snapshot filter, while names
      built by `SnapshotName` are kept, in listing order. */
  lemma FilterDropsOtherFiles(older: string, newer: string)
    requires IsSnapshot(older) && IsSnapshot(newer)
    ensures Snapshots([older, newer, "other.txt"]) == [older, newer]
  {
    var entries := [older, newer, "other.txt"];
    assert !IsSnapshot("other.txt");
    assert entries[1..] == [newer, "other.txt"] && entries[1..][1..] == ["other.txt"];
    assert Filter(["other.txt"], IsSnapshot) == [] by {
      assert ["other.txt"][1..] == [];
    }
    assert Filter(entries[1..], IsSnapshot) == [newer];
  }

  /** Of two daily snapshots and an unrelated file, the later snapshot is
      the one picked. */
  lemma LatestOfTwoDays()
    ensures Latest(Snapshots([SnapshotName("20240101_000000"), SnapshotName("20240102_000000"), "other.txt"]))
            == SnapshotName("20240102_000000")
  {
    var older, newer := SnapshotName("20240101_000000"), SnapshotName("20240102_000000");
    FilterDropsOtherFiles(older, newer);
    assert Less(older, newer) by {
      assert DiffersAt("20240101_000000", "20240102_000000", 7);
      DiffersAtGivesLess("20240101_000000", "20240102_000000", 7);
      NameOrder("20240101_000000", "20240102_000000");
    }
    LatestUnique([older, newer], newer);
  }
}
