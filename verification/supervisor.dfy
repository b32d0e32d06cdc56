/** The agent's `main`: optionally restore, start the child process, then
    alternate polling the child, sleeping one cycle and taking a snapshot
    until the child exits or the loop is interrupted. The child is an
    exited/alive flag per poll, and the endless loop runs over a finite
    script of ticks that tells, for each cycle, how the environment
    behaves. */
module Supervisor {
  import opened Seqs
  import opened Naming
  import opened Remote
  import opened Manager

  /** One cycle's environment: whether `proc.poll()` reports an exit,
      whether the sleep is interrupted (an exception the loop's bare
      `except` catches), the stamp of the clock after the sleep, the data
      directory as the child left it, and how the create's I/O behaves. */
  datatype Tick = Tick(exited: bool, interrupted: bool, ts: string, data: Workspace, io: CreateIo)

  /** What the loop does, in order. */
  datatype Event = Poll(exited: bool) | Sleep | Snapshot(outcome: CreateOutcome)

  /** Why the loop ended; `ScriptEnd` only means the ticks ran out. */
  datatype Exit = ChildExited | Interrupted | ScriptEnd

  datatype Run = Run(dir: seq<string>, events: seq<Event>, cycles: nat, exit: Exit)

  /** Some cycle before `n` took the snapshot named `x`. */
  predicate TakenBefore(ticks: seq<Tick>, n: nat, x: string)
    requires n <= |ticks|
  {
    exists i :: 0 <= i < n && x == SnapshotName(ticks[i].ts)
  }

  /** The directory after one full cycle: a snapshot is created only when
      a client is configured. */
  function CycleDir(hasClient: bool, d: seq<string>, t: Tick): (d2: seq<string>)
    ensures forall x :: x in d2 ==> x in d || x == SnapshotName(t.ts)
    ensures forall x :: x in d && !IsSnapshot(x) ==> x in d2
    ensures NoDup(d) ==> NoDup(d2)
    ensures !hasClient ==> d2 == d
  {
    if hasClient then CreateSnapshot(d, t.data, t.ts, t.io).dir else d
  }

  /** The directory after the given full cycles, one after the other. */
  function Cycles(hasClient: bool, dir: seq<string>, ticks: seq<Tick>): seq<string>
    decreases |ticks|
  {
    if |ticks| == 0 then dir
    else CycleDir(hasClient, Cycles(hasClient, dir, ticks[..|ticks| - 1]), ticks[|ticks| - 1])
  }

  /** The outcome of the create in the full cycle at tick `t` on directory `d`. */
  function CycleOutcome(d: seq<string>, t: Tick): CreateOutcome {
    CreateSnapshot(d, t.data, t.ts, t.io).outcome
  }

  /** Events per full cycle. */
  function Width(hasClient: bool): nat {
    if hasClient then 3 else 2
  }

  /** What one full cycle does: poll, sleep and, with a client, create. */
  function CycleEvents(hasClient: bool, d: seq<string>, t: Tick): (events: seq<Event>)
    ensures |events| == Width(hasClient)
  {
    [Poll(false), Sleep] + (if hasClient then [Snapshot(CycleOutcome(d, t))] else [])
  }

  /** The events of the given full cycles, one block per cycle. */
  function Blocks(hasClient: bool, dir: seq<string>, ticks: seq<Tick>): (blocks: seq<seq<Event>>)
    ensures |blocks| == |ticks|
    decreases |ticks|
  {
    if |ticks| == 0 then []
    else
      Blocks(hasClient, dir, ticks[..|ticks| - 1])
        + [CycleEvents(hasClient, Cycles(hasClient, dir, ticks[..|ticks| - 1]), ticks[|ticks| - 1])]
  }

  /** The blocks laid end to end. */
  function Flatten(blocks: seq<seq<Event>>): seq<Event> {
    if |blocks| == 0 then [] else Flatten(blocks[..|blocks| - 1]) + blocks[|blocks| - 1]
  }

  /** The events after the last full cycle. */
  function TailEvents(exit: Exit): seq<Event> {
    match exit
    case ChildExited => [Poll(true)]
    case Interrupted => [Poll(false), Sleep]
    case ScriptEnd => []
  }

  /** Block `c` of a run polls, sleeps and, with a client, creates a
      snapshot on the directory the first `c` cycles left. */
  lemma {:induction false} BlocksAreCycles(hasClient: bool, dir: seq<string>, ticks: seq<Tick>)
    ensures forall c :: 0 <= c < |ticks| ==>
      Blocks(hasClient, dir, ticks)[c] == CycleEvents(hasClient, Cycles(hasClient, dir, ticks[..c]), ticks[c])
    decreases |ticks|
  {
    if |ticks| > 0 {
      var front := ticks[..|ticks| - 1];
      BlocksAreCycles(hasClient, dir, front);
      forall c | 0 <= c < |ticks|
        ensures Blocks(hasClient, dir, ticks)[c] == CycleEvents(hasClient, Cycles(hasClient, dir, ticks[..c]), ticks[c])
      {
        if c < |front| {
          assert front[..c] == ticks[..c] && front[c] == ticks[c];
        }
      }
    }
  }

  /** The supervision loop. A create's own failures never end it: only an
      exited child or an interrupt does, at the first tick that has one.
      Every full cycle polls, sleeps and, with a client, creates a snapshot
      on the directory the earlier cycles left (`Blocks`, `Cycles`). */
  method Supervise(hasClient: bool, dir: seq<string>, ticks: seq<Tick>) returns (r: Run)
    ensures r.cycles <= |ticks|
    ensures forall i :: 0 <= i < r.cycles ==> !ticks[i].exited && !ticks[i].interrupted
    ensures r.exit == ScriptEnd <==> r.cycles == |ticks|
    ensures r.exit == ChildExited ==> r.cycles < |ticks| && ticks[r.cycles].exited
    ensures r.exit == Interrupted ==> r.cycles < |ticks| && !ticks[r.cycles].exited && ticks[r.cycles].interrupted
    ensures r.events == Flatten(Blocks(hasClient, dir, ticks[..r.cycles])) + TailEvents(r.exit)
    ensures r.dir == Cycles(hasClient, dir, ticks[..r.cycles])
    ensures |r.events| == Width(hasClient) * r.cycles + |TailEvents(r.exit)|
    ensures CreatesFollowSleeps(r.events)
    ensures !hasClient ==> r.dir == dir && forall e :: e in r.events ==> !e.Snapshot?
    ensures forall x :: x in r.dir ==> x in dir || TakenBefore(ticks, r.cycles, x)
    ensures forall x :: x in dir && !IsSnapshot(x) ==> x in r.dir
    ensures NoDup(dir) ==> NoDup(r.dir)
  {
    var i := 0;
    var exit := ScriptEnd;
    while i < |ticks|
      invariant i <= |ticks|
      invariant forall j :: 0 <= j < i ==> !ticks[j].exited && !ticks[j].interrupted
    {
      if ticks[i].exited {
        exit := ChildExited;
        break;
      }
      if ticks[i].interrupted {
        exit := Interrupted;
        break;
      }
      i := i + 1;
    }
    r := Run(Cycles(hasClient, dir, ticks[..i]), Flatten(Blocks(hasClient, dir, ticks[..i])) + TailEvents(exit), i, exit);
    RunShape(hasClient, dir, ticks, r);
  }

  /** The facts about a run that follow from its directory and events being
      those of its full cycles. */
  lemma RunShape(hasClient: bool, dir: seq<string>, ticks: seq<Tick>, r: Run)
    requires r.cycles <= |ticks|
    requires r.events == Flatten(Blocks(hasClient, dir, ticks[..r.cycles])) + TailEvents(r.exit)
    requires r.dir == Cycles(hasClient, dir, ticks[..r.cycles])
    ensures |r.events| == Width(hasClient) * r.cycles + |TailEvents(r.exit)|
    ensures CreatesFollowSleeps(r.events)
    ensures !hasClient ==> r.dir == dir && forall e :: e in r.events ==> !e.Snapshot?
    ensures forall x :: x in r.dir ==> x in dir || TakenBefore(ticks, r.cycles, x)
    ensures forall x :: x in dir && !IsSnapshot(x) ==> x in r.dir
    ensures NoDup(dir) ==> NoDup(r.dir)
  {
    var n := r.cycles;
    var f := Flatten(Blocks(hasClient, dir, ticks[..n]));
    FlattenBlocks(hasClient, dir, ticks[..n]);
    AppendTail(f, r.exit);
    CyclesShare(hasClient, dir, ticks, n);
  }

  /** The final poll or interrupted sleep holds no create. */
  lemma AppendTail(f: seq<Event>, exit: Exit)
    requires CreatesFollowSleeps(f)
    ensures CreatesFollowSleeps(f + TailEvents(exit))
    ensures forall e :: e in f + TailEvents(exit) ==> e in f || !e.Snapshot?
  {
    var all := f + TailEvents(exit);
    forall i | 0 <= i < |all| && all[i].Snapshot?
      ensures 0 < i && all[i - 1] == Sleep
    {
      assert i < |f| && all[i] == f[i];
    }
  }

  /** What the first `n` cycles of a run keep, stated against the whole
      script of ticks. */
  lemma CyclesShare(hasClient: bool, dir: seq<string>, ticks: seq<Tick>, n: nat)
    requires n <= |ticks|
    ensures !hasClient ==> Cycles(hasClient, dir, ticks[..n]) == dir
    ensures forall x :: x in Cycles(hasClient, dir, ticks[..n]) ==> x in dir || TakenBefore(ticks, n, x)
    ensures forall x :: x in dir && !IsSnapshot(x) ==> x in Cycles(hasClient, dir, ticks[..n])
    ensures NoDup(dir) ==> NoDup(Cycles(hasClient, dir, ticks[..n]))
  {
    CyclesKeep(hasClient, dir, ticks[..n]);
    assert forall x :: TakenBefore(ticks[..n], n, x) ==> TakenBefore(ticks, n, x);
  }

  /** What any number of cycles keeps: names they did not create come from
      the starting directory, other files stay, names stay distinct, and
      without a client nothing changes. */
  lemma {:induction false} CyclesKeep(hasClient: bool, dir: seq<string>, ticks: seq<Tick>)
    ensures forall x :: x in Cycles(hasClient, dir, ticks) ==> x in dir || TakenBefore(ticks, |ticks|, x)
    ensures forall x :: x in dir && !IsSnapshot(x) ==> x in Cycles(hasClient, dir, ticks)
    ensures NoDup(dir) ==> NoDup(Cycles(hasClient, dir, ticks))
    ensures !hasClient ==> Cycles(hasClient, dir, ticks) == dir
    decreases |ticks|
  {
    if |ticks| > 0 {
      var front := ticks[..|ticks| - 1];
      CyclesKeep(hasClient, dir, front);
      forall x | x in Cycles(hasClient, dir, ticks)
        ensures x in dir || TakenBefore(ticks, |ticks|, x)
      {
        if !(x in dir) && x != SnapshotName(ticks[|ticks| - 1].ts) {
          var j :| 0 <= j < |front| && x == SnapshotName(front[j].ts);
          assert front[j] == ticks[j];
        }
      }
    }
  }

  /** Every create in the events comes right after a sleep. */
  predicate CreatesFollowSleeps(events: seq<Event>) {
    forall i :: 0 <= i < |events| && events[i].Snapshot? ==> 0 < i && events[i - 1] == Sleep
  }

  /** Appending one cycle's block keeps every create right after a sleep. */
  lemma AppendBlock(f: seq<Event>, hasClient: bool, d: seq<string>, t: Tick)
    requires CreatesFollowSleeps(f)
    ensures CreatesFollowSleeps(f + CycleEvents(hasClient, d, t))
  {
    var all := f + CycleEvents(hasClient, d, t);
    forall i | 0 <= i < |all| && all[i].Snapshot?
      ensures 0 < i && all[i - 1] == Sleep
    {
      if i >= |f| {
        assert i == |f| + 2;
      } else {
        assert all[i] == f[i];
      }
    }
  }

  /** The blocks of `n` cycles hold `Width * n` events, every create comes
      right after a sleep, and without a client there is none. */
  lemma {:induction false} FlattenBlocks(hasClient: bool, dir: seq<string>, ticks: seq<Tick>)
    ensures |Flatten(Blocks(hasClient, dir, ticks))| == Width(hasClient) * |ticks|
    ensures CreatesFollowSleeps(Flatten(Blocks(hasClient, dir, ticks)))
    ensures !hasClient ==> forall e :: e in Flatten(Blocks(hasClient, dir, ticks)) ==> !e.Snapshot?
    decreases |ticks|
  {
    if |ticks| > 0 {
      var front := ticks[..|ticks| - 1];
      var f := Flatten(Blocks(hasClient, dir, front));
      var t := ticks[|ticks| - 1];
      var d := Cycles(hasClient, dir, front);
      FlattenBlocks(hasClient, dir, front);
      assert Flatten(Blocks(hasClient, dir, ticks)) == f + CycleEvents(hasClient, d, t) by {
        var blocks := Blocks(hasClient, dir, ticks);
        assert blocks[..|blocks| - 1] == Blocks(hasClient, dir, front);
      }
      MulSucc(Width(hasClient), |front|);
      AppendBlock(f, hasClient, d, t);
    }
  }

  lemma MulSucc(w: nat, n: nat)
    ensures w * (n + 1) == w * n + w
  {
  }

  /** The stamps of the given ticks. */
  function Stamps(ticks: seq<Tick>): (stamps: seq<string>)
    ensures |stamps| == |ticks|
    ensures forall i :: 0 <= i < |ticks| ==> stamps[i] == ticks[i].ts
  {
    seq(|ticks|, i requires 0 <= i < |ticks| => ticks[i].ts)
  }

  /** Every tick finds a data directory, whatever the child wrote into
      it, and no step raises. */
  predicate ReliableTicks(ticks: seq<Tick>) {
    forall i :: 0 <= i < |ticks| ==> ticks[i].data.Present? && ticks[i].io == Reliable
  }

  /** With a client and reliable ticks, the loop's cycles are the creates
      at the ticks' stamps, one after the other; the files archived do not
      matter to the share, so any `files` will do. */
  lemma {:induction false} ReliableCyclesCreateEach(dir: seq<string>, files: map<string, string>, ticks: seq<Tick>)
    requires ReliableTicks(ticks)
    ensures Cycles(true, dir, ticks) == CreateEach(dir, files, Stamps(ticks))
    decreases |ticks|
  {
    if |ticks| > 0 {
      var k := |ticks| - 1;
      ReliableTicksPrefix(ticks, k);
      ReliableCyclesCreateEach(dir, files, ticks[..k]);
      StampsPrefix(ticks, k);
      ReliableCycle(Cycles(true, dir, ticks[..k]), ticks[k], files);
    }
  }

  /** A prefix of reliable ticks is reliable. */
  lemma ReliableTicksPrefix(ticks: seq<Tick>, k: nat)
    requires k <= |ticks| && ReliableTicks(ticks)
    ensures ReliableTicks(ticks[..k])
  {
    forall i | 0 <= i < k
      ensures ticks[..k][i].data.Present? && ticks[..k][i].io == Reliable
    {
      assert ticks[..k][i] == ticks[i];
    }
  }

  /** The stamps of a prefix of the ticks are a prefix of the stamps. */
  lemma StampsPrefix(ticks: seq<Tick>, k: nat)
    requires k <= |ticks|
    ensures Stamps(ticks)[..k] == Stamps(ticks[..k])
  {
    var a := Stamps(ticks)[..k];
    var b := Stamps(ticks[..k]);
    assert |a| == |b|;
    forall i | 0 <= i < k
      ensures a[i] == b[i]
    {
      assert ticks[..k][i] == ticks[i];
    }
  }

  /** A reliable tick's cycle is the create at its stamp, whatever files
      the child left. */
  lemma ReliableCycle(prev: seq<string>, t: Tick, files: map<string, string>)
    requires t.data.Present? && t.io == Reliable
    ensures CycleDir(true, prev, t) == CreateSnapshot(prev, Present(files), t.ts, Reliable).dir
  {
    CreateShareIgnoresFiles(prev, t.data.files, files, t.ts, Reliable);
  }

  /** The retention invariant for the loop: run with a client from a share
      without snapshots, over reliable ticks at distinct stamps, the loop
      leaves exactly `min(k, 5)` snapshots after `k` cycles, the greatest
      names it took. */
  lemma SupervisedRetention(dir: seq<string>, ticks: seq<Tick>)
    requires NoDup(dir) && |Snapshots(dir)| == 0
    requires ReliableTicks(ticks) && NoDup(Stamps(ticks))
    ensures Retained(Cycles(true, dir, ticks), Stamps(ticks))
  {
    ReliableCyclesCreateEach(dir, map[], ticks);
    RetentionOverCycles(dir, map[], Stamps(ticks));
  }

  /** One step of start-up: a request to the remote, or starting the child. */
  datatype Step = Request(call: Call) | Launch

  datatype Startup = Startup(workspace: Workspace, steps: seq<Step>)

  /** The start-up steps that send the given requests. */
  function Requests(calls: seq<Call>): (steps: seq<Step>)
    ensures |steps| == |calls|
    ensures forall i :: 0 <= i < |calls| ==> steps[i] == Request(calls[i])
  {
    seq(|calls|, i requires 0 <= i < |calls| => Request(calls[i]))
  }

  /** Start-up: restore only when a client is configured, then start the
      child in every case, after the restore has finished. With a client
      the requests before the launch are exactly the restore's and the data
      directory is what the restore left. */
  function Start(hasClient: bool, dir: seq<string>, ws: Workspace, io: RestoreIo): (s: Startup)
    ensures |s.steps| > 0 && s.steps[|s.steps| - 1] == Launch
    ensures forall i :: 0 <= i < |s.steps| - 1 ==> s.steps[i].Request?
    ensures !hasClient ==> s.steps == [Launch] && s.workspace == ws
    ensures hasClient ==> var r := RestoreSnapshot(dir, ws, io);
      && s.workspace == r.workspace
      && |s.steps| == |r.calls| + 1
      && forall i :: 0 <= i < |r.calls| ==> s.steps[i] == Request(r.calls[i])
    ensures s.workspace != ws ==> hasClient && s.steps[0] == Request(List) && s.steps[1].Request? && s.steps[1].call.Get?
  {
    if hasClient then
      var r := RestoreSnapshot(dir, ws, io);
      Startup(r.workspace, Requests(r.calls) + [Launch])
    else Startup(ws, [Launch])
  }

  /** With a client and snapshots listed, start-up lists, downloads the
      latest snapshot, and only then starts the child. */
  lemma StartRestoresLatest(dir: seq<string>, ws: Workspace, io: RestoreIo)
    requires !io.listFails && |Snapshots(dir)| > 0
    ensures Start(true, dir, ws, io).steps == [Request(List), Request(Get(Latest(Snapshots(dir)))), Launch]
    ensures Start(true, dir, ws, io).workspace == RestoreSnapshot(dir, ws, io).workspace
  {
    RestoreDownloadsLatest(dir, ws, io);
  }
}
