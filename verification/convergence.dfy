/** What one sync achieves, whatever webhooks and controller edits land while it is in flight. */
module Convergence {
  import opened Records
  import opened Tables
  import opened Batches
  import opened Replica
  import opened Client
  import opened Protocol

  /* ---------- one sync in flight ---------- */

  /** The actions between a sync's start and its end. */
  predicate InFlight(mid: seq<Action>) {
    forall a | a in mid :: !a.Finish?
  }

  /** The reply in hand is a rejected one, or the controller's own about some version that was
      current at or after the start of the sync. */
  predicate ReplyFrom(history: seq<Version>, floor: int, since: string, reply: Reply) {
    || Judge(since, reply).Failed?
    || exists j: nat | floor <= j < |history| :: reply == Contract(history[j], since)
  }

  /** What holds of a state while the sync started in s0 is in flight. */
  predicate MidSync(s0: State, s: State) {
    && s0.history <= s.history
    && s.node.hash == s0.node.hash
    && s.node.base == s0.node.base
    && !s.phase.Idle?
    && s.phase.since == s0.node.hash
    && (s.phase.Holding? ==> ReplyFrom(s.history, |s0.history| - 1, s.phase.since, s.phase.reply))
  }

  lemma ReplyFromGrows(history: seq<Version>, v: Version, floor: int, since: string, reply: Reply)
    requires ReplyFrom(history, floor, since, reply)
    ensures ReplyFrom(history + [v], floor, since, reply)
  {
    hide Judge, Contract;
    if !Judge(since, reply).Failed? {
      var j: nat :| floor <= j < |history| && reply == Contract(history[j], since);
      assert (history + [v])[j] == history[j];
    }
  }

  lemma MidSyncStep(env: Env, s0: State, s: State, a: Action)
    requires s0.history != [] && MidSync(s0, s)
    requires !a.Finish?
    requires a.Deliver? ==> Honest(s, a.reply)
    ensures MidSync(s0, Next(env, s, a))
  {
    hide Judge, Contract, EditOf, ApplyEdit;
    match a {
      case Edit(v) =>
        if s.phase.Holding? {
          ReplyFromGrows(s.history, v, |s0.history| - 1, s.phase.since, s.phase.reply);
        }
      case Deliver(reply) =>
        if s.phase.Asking? && !Judge(s.phase.since, reply).Failed? {
          assert reply == Contract(s.history[|s.history| - 1], s.phase.since);
        }
      case _ =>
    }
  }

  /** From its start to the moment before its end, a sync keeps these bounds. */
  lemma {:induction false} MidSyncRun(env: Env, s0: State, mid: seq<Action>)
    requires s0.history != [] && s0.phase.Idle? && InFlight(mid) && HonestRun(env, s0, [Start] + mid)
    ensures MidSync(s0, Run(env, s0, [Start] + mid))
    ensures Run(env, s0, [Start] + mid).node == WriteAll(env, s0.node, Landings(HooksIn(mid)))
    ensures (forall a | a in mid :: !a.Edit?) ==> Run(env, s0, [Start] + mid).history == s0.history
  {
    if mid == [] {
      assert [Start] + mid == [Start];
      assert [Start][..0] == [];
      assert Landings([]) == [];
    } else {
      var front, last := mid[..|mid| - 1], mid[|mid| - 1];
      var acts := [Start] + mid;
      assert acts[..|acts| - 1] == [Start] + front;
      assert acts[|acts| - 1] == last;
      assert mid == front + [last];
      MidSyncRun(env, s0, front);
      MidSyncStep(env, s0, Run(env, s0, [Start] + front), last);
      LandingsOneMore(env, s0.node, HooksIn(front), last);
      hide MidSync, Honest, WriteTo;
    }
  }

  lemma LandingsOneMore(env: Env, n: Node, hooks: seq<Batch>, a: Action)
    ensures a.Hook? ==>
      WriteAll(env, n, Landings(hooks + [a.batch])) == WriteTo(env, WriteAll(env, n, Landings(hooks)), Land(a.batch))
    ensures hooks + [] == hooks
  {
    hide WriteTo;
    if a.Hook? {
      assert Landings(hooks + [a.batch])[..|hooks|] == Landings(hooks);
    }
  }

  /* ---------- verdicts on the controller's own replies ---------- */

  lemma JudgeContract(v: Version, since: string)
    ensures var verdict := Judge(since, Contract(v, since));
      if since != "" && since == v.hash then verdict == Unchanged
      else if v.zone == "" || v.hash == "" then verdict.Failed?
      else verdict == Changed(DNSSnapshot(v.zone, v.hash, v.records))
  {
  }

  /** The cache as an install of this version leaves it. */
  function Rebuilt(env: Env, v: Version): Node {
    Node(Build(env, v.records), v.hash, v.records, [])
  }

  /** The verdict the end of a sync acts on. */
  function Outcome(s: State): Verdict {
    if s.phase.Holding? then Judge(s.phase.since, s.phase.reply) else Failed(RequestFailed)
  }

  /** A sync that ends well leaves the cache at some version that was current no earlier than the
      sync's own start: either it installs that version, or it already held its hash. */
  lemma SyncReachesVersion(env: Env, s0: State, mid: seq<Action>) returns (j: nat)
    requires s0.history != [] && s0.phase.Idle? && InFlight(mid) && HonestRun(env, s0, [Start] + mid)
    requires !Outcome(Run(env, s0, [Start] + mid)).Failed?
    ensures var s := Run(env, s0, [Start] + mid);
      var end := Next(env, s, Finish);
      && |s0.history| - 1 <= j < |s.history|
      && s0.history <= s.history
      && end.history == s.history
      && end.node.hash == s.history[j].hash != ""
      && (if s.history[j].hash == s0.node.hash then end.node == s.node
          else end.node == Rebuilt(env, s.history[j]))
  {
    MidSyncRun(env, s0, mid);
    hide Run, Build;
    var s := Run(env, s0, [Start] + mid);
    var floor := |s0.history| - 1;
    j :| floor <= j < |s.history| && s.phase.reply == Contract(s.history[j], s.phase.since);
    JudgeContract(s.history[j], s.phase.since);
    hide Judge, Contract;
  }

  /* ---------- convergence ---------- */

  /** The hash decides the records. */
  predicate HashDetermines(history: seq<Version>) {
    forall i, j | 0 <= i < |history| && 0 <= j < |history| && history[i].hash == history[j].hash ::
      history[i].records == history[j].records
  }

  /** What the cache holds came from some version of the controller, or nothing came yet. */
  predicate Sourced(s: State) {
    s.node.hash != "" ==>
      exists i | 0 <= i < |s.history| :: s.history[i].hash == s.node.hash && s.history[i].records == s.node.base
  }

  /** The newest word of the log about a key, if there is one, is what the records say. */
  predicate Confirms(env: Env, records: seq<DNSRecord>, log: seq<Batch>, k: Key) {
    Affirms(EditsOf(env, log), CellsOf(env, records), k)
  }

  /** Webhook drift is invisible exactly when the log confirms the records key by key. */
  lemma NoDriftIffConfirmed(env: Env, records: seq<DNSRecord>, log: seq<Batch>)
    ensures Apply(env, Build(env, records), log) == Build(env, records)
            <==> forall k :: Confirms(env, records, log, k)
  {
    CellsOfOk(env, records);
    EditsOfOk(env, log);
    hide CellsOf, EditsOf, CellsOk, EditsOk, Solid, SolidEdits, Load, ApplyEdits, Affirms;
    NoDriftIffAffirmed(CellsOf(env, records), EditsOf(env, log));
    assert forall k :: Confirms(env, records, log, k) == Affirms(EditsOf(env, log), CellsOf(env, records), k);
  }

  /** A batch that agrees with records: it repeats some of them, or deletes what they lack. */
  predicate AgreesWith(env: Env, b: Batch, records: seq<DNSRecord>) {
    match b
    case Updates(rs) => forall r | r in rs :: r in records
    case Deletes(ds) =>
      forall d | d in ds :: DeleteKey(d).Some? ==> Scan(CellsOf(env, records), DeleteKey(d).value) == []
  }

  lemma AgreeingRepeats(env: Env, b: Batch, records: seq<DNSRecord>)
    requires AgreesWith(env, b, records)
    ensures Repeats(EditOf(env, b), CellsOf(env, records))
  {
    hide CellOf, DeleteKey;
    var cells := CellsOf(env, records);
    match b {
      case Updates(rs) =>
        forall i | 0 <= i < |rs|
          ensures CellOf(env, rs[i]) in cells
        {
          assert rs[i] in rs;
          var j :| 0 <= j < |records| && records[j] == rs[i];
          assert cells[j] == CellOf(env, rs[i]);
        }
      case Deletes(ds) =>
        forall i | 0 <= i < |ds| && DeleteKey(ds[i]).Some?
          ensures Scan(cells, DeleteKey(ds[i]).value) == []
        {
          assert ds[i] in ds;
        }
    }
  }

  /** With distinct keys, a log of batches that all agree with the records confirms them. */
  lemma AgreeingLogConfirms(env: Env, records: seq<DNSRecord>, log: seq<Batch>, k: Key)
    requires DistinctKeys(CellsOf(env, records))
    requires forall b | b in log :: AgreesWith(env, b, records)
    ensures Confirms(env, records, log, k)
  {
    CellsOfOk(env, records);
    hide CellsOf, CellsOk, EditOf, AgreesWith, Repeats, DistinctKeys, Solid, Affirms;
    var edits := EditsOf(env, log);
    forall e | e in edits
      ensures Repeats(e, CellsOf(env, records))
    {
      var i :| 0 <= i < |edits| && edits[i] == e;
      assert log[i] in log;
      AgreeingRepeats(env, log[i], records);
    }
    RepeatsAffirm(edits, CellsOf(env, records), k);
  }

  /** A sync that finds its hash current keeps the log, on top of the records that hash names. */
  lemma UnchangedKeepsLog(env: Env, s0: State, hooks: seq<Batch>)
    requires s0.history != [] && Coherent(env, s0.node) && Sourced(s0) && HashDetermines(s0.history)
    requires s0.node.hash != "" && s0.node.hash == Current(s0).hash
    ensures WriteAll(env, s0.node, Landings(hooks)).table
            == Apply(env, Build(env, Current(s0).records), s0.node.log + hooks)
  {
    hide Build, Apply, WriteAll;
    var i :| 0 <= i < |s0.history| && s0.history[i].hash == s0.node.hash && s0.history[i].records == s0.node.base;
    assert s0.node.base == Current(s0).records;
    LandAll(env, s0.node, hooks);
    ApplyAppend(env, Build(env, s0.node.base), s0.node.log, hooks);
  }

  /** Convergence. While the controller is quiet, one sync that ends well leaves the cache equal to
      the controller's records if the hashes differed beforehand, whatever webhooks did; if they
      were equal, it leaves the webhook log on top of those records, so that the cache equals them
      exactly when the log confirms them. */
  lemma Converges(env: Env, s0: State, mid: seq<Action>)
    requires s0.history != [] && s0.phase.Idle? && InFlight(mid) && HonestRun(env, s0, [Start] + mid)
    requires forall a | a in mid :: !a.Edit?
    requires Coherent(env, s0.node) && Sourced(s0) && HashDetermines(s0.history)
    requires !Outcome(Run(env, s0, [Start] + mid)).Failed?
    ensures var c, n := Current(s0), Next(env, Run(env, s0, [Start] + mid), Finish).node;
      var log := s0.node.log + HooksIn(mid);
      && n.hash == c.hash
      && (s0.node.hash != c.hash ==> n == Rebuilt(env, c))
      && (s0.node.hash == c.hash ==>
            && n.table == Apply(env, Build(env, c.records), log)
            && (n.table == Build(env, c.records) <==> forall k :: Confirms(env, c.records, log, k)))
  {
    hide Coherent, Sourced, HashDetermines, Run, HonestRun, Build, Apply, MidSync, Outcome, Confirms, WriteAll, Next;
    MidSyncRun(env, s0, mid);
    var j := SyncReachesVersion(env, s0, mid);
    var c, log := Current(s0), s0.node.log + HooksIn(mid);
    assert j == |s0.history| - 1;
    if s0.node.hash == c.hash {
      UnchangedKeepsLog(env, s0, HooksIn(mid));
      NoDriftIffConfirmed(env, c.records, log);
    }
  }

  /* ---------- versions ---------- */

  predicate UniqueHashes(history: seq<Version>) {
    forall i, j | 0 <= i < j < |history| :: history[i].hash != history[j].hash
  }

  /** The newest version with a hash, or -1. */
  function IndexOf(history: seq<Version>, hash: string): (i: int)
    ensures -1 <= i < |history|
    ensures i >= 0 ==> history[i].hash == hash
    ensures forall j | i < j < |history| :: history[j].hash != hash
  {
    if history == [] then -1
    else if history[|history| - 1].hash == hash then |history| - 1
    else IndexOf(history[..|history| - 1], hash)
  }

  /** The controller version the cache was last installed from, or -1 before any install. */
  function InstalledVersion(s: State): int {
    if s.node.hash == "" then -1 else IndexOf(s.history, s.node.hash)
  }

  /** A good sync brings the cache to a version at least as new as any that the controller had when
      the sync started, and rebuilds it from that version if it was behind. */
  lemma SyncCatchesUp(env: Env, s0: State, mid: seq<Action>, described: nat)
    requires s0.phase.Idle? && InFlight(mid) && HonestRun(env, s0, [Start] + mid)
    requires described < |s0.history| && Sourced(s0)
    requires UniqueHashes(Run(env, s0, [Start] + mid).history)
    requires !Outcome(Run(env, s0, [Start] + mid)).Failed?
    ensures var s := Run(env, s0, [Start] + mid);
      var end := Next(env, s, Finish);
      && InstalledVersion(end) >= described
      && (end.node == s.node || end.node == Rebuilt(env, end.history[InstalledVersion(end)]))
      && (InstalledVersion(s0) < described ==> end.node == Rebuilt(env, end.history[InstalledVersion(end)]))
  {
    hide Run, HonestRun, Build, Outcome, Next;
    var j := SyncReachesVersion(env, s0, mid);
    var s := Run(env, s0, [Start] + mid);
    if s.history[j].hash == s0.node.hash {
      var i :| 0 <= i < |s0.history| && s0.history[i].hash == s0.node.hash && s0.history[i].records == s0.node.base;
      assert s.history[i] == s0.history[i];
      assert i == j;
    }
  }

  /** Repair of lost updates. A batch lands at the p-th action of a run, and describes a version that
      the controller already had; later a sync runs and ends well. If no install came between, the
      batch is still at work when the sync starts. If one did, the batch is gone from the log, and
      when that left the cache behind the version the batch describes, the sync rebuilds the cache
      from a version at least as new. Either way the cache ends at such a version. */
  lemma NextSyncRepairs(env: Env, v: Version, acts: seq<Action>, p: nat, described: nat, mid: seq<Action>)
    requires HonestRun(env, Initial(v), acts + ([Start] + mid)) && InFlight(mid)
    requires p < |acts| && acts[p].Hook? && described < |Run(env, Initial(v), acts[..p]).history|
    requires Run(env, Initial(v), acts).phase.Idle?
    requires UniqueHashes(Run(env, Initial(v), acts + ([Start] + mid)).history)
    requires !Outcome(Run(env, Initial(v), acts + ([Start] + mid))).Failed?
    ensures var s0, s := Run(env, Initial(v), acts), Run(env, Initial(v), acts + ([Start] + mid));
      var end := Next(env, s, Finish);
      && InstalledVersion(end) >= described
      && (end.node == s.node || end.node == Rebuilt(env, end.history[InstalledVersion(end)]))
      && (InstalledVersion(s0) < described ==> end.node == Rebuilt(env, end.history[InstalledVersion(end)]))
      && (if Overwritten(env, Initial(v), acts, p) then
            exists i | p < i < |acts| ::
              && InstalledBy(env, Initial(v), acts, i).Some?
              && Explains(env, Initial(v), acts, i + 1) && s0.node.log == HooksIn(acts[i + 1..])
          else
            EndsWith(s0.node.log, [acts[p].batch] + HooksIn(acts[p + 1..])))
  {
    var s0 := Run(env, Initial(v), acts);
    RunAppend(env, Initial(v), acts, [Start] + mid);
    ReachableIsSourced(env, v, acts);
    HistoryGrows(env, v, acts, p);
    BatchLives(env, Initial(v), acts, p);
    hide Run, HonestRun, Outcome, Next, InstalledBy, Explains, HooksIn, EndsWith, Sourced, Overwritten, Rebuilt;
    SyncCatchesUp(env, s0, mid, described);
  }

  lemma HistoryGrows(env: Env, v: Version, acts: seq<Action>, p: nat)
    requires p <= |acts| && HonestRun(env, Initial(v), acts)
    ensures Run(env, Initial(v), acts[..p]).history <= Run(env, Initial(v), acts).history
  {
    assert acts == acts[..p] + acts[p..];
    RunAppend(env, Initial(v), acts[..p], acts[p..]);
    var i := VersionRun(env, Initial(v), -1, acts[..p]);
    var _ := VersionRun(env, Run(env, Initial(v), acts[..p]), i, acts[p..]);
  }

  /** The cache holds version i (-1: none yet), and a reply in hand is about i or a later one. */
  predicate HoldsVersion(s: State, i: int) {
    && -1 <= i < |s.history|
    && (if i == -1 then s.node.hash == "" && s.node.base == []
        else s.node.hash != "" && s.history[i].hash == s.node.hash && s.history[i].records == s.node.base)
    && (!s.phase.Idle? ==> s.phase.since == s.node.hash)
    && (s.phase.Holding? ==> ReplyFrom(s.history, i, s.phase.since, s.phase.reply))
  }

  lemma FinishVersion(env: Env, s: State, i: int) returns (j: int)
    requires s.history != [] && HoldsVersion(s, i)
    ensures i <= j && HoldsVersion(Next(env, s, Finish), j)
  {
    hide Build;
    j := i;
    if s.phase.Holding? && Judge(s.phase.since, s.phase.reply).Changed? {
      j :| 0 <= j && i <= j < |s.history| && s.phase.reply == Contract(s.history[j], s.phase.since);
      JudgeContract(s.history[j], s.phase.since);
      hide Judge, Contract;
    }
  }

  lemma VersionStep(env: Env, s: State, i: int, a: Action) returns (j: int)
    requires s.history != [] && HoldsVersion(s, i)
    requires a.Deliver? ==> Honest(s, a.reply)
    ensures i <= j && HoldsVersion(Next(env, s, a), j) && s.history <= Next(env, s, a).history
  {
    j := i;
    hide Judge, Contract, EditOf, ApplyEdit, Build;
    match a {
      case Edit(v) =>
        if s.phase.Holding? {
          ReplyFromGrows(s.history, v, i, s.phase.since, s.phase.reply);
        }
      case Deliver(reply) =>
        if s.phase.Asking? && !Judge(s.phase.since, reply).Failed? {
          assert reply == Contract(s.history[|s.history| - 1], s.phase.since);
        }
      case Finish => j := FinishVersion(env, s, i);
      case _ =>
    }
  }

  lemma {:induction false} VersionRun(env: Env, s: State, i: int, acts: seq<Action>) returns (j: int)
    requires s.history != [] && HoldsVersion(s, i) && HonestRun(env, s, acts)
    ensures i <= j && HoldsVersion(Run(env, s, acts), j) && s.history <= Run(env, s, acts).history
  {
    hide HoldsVersion, Honest, Next;
    j := i;
    if acts != [] {
      j := VersionRun(env, s, i, acts[..|acts| - 1]);
      j := VersionStep(env, Run(env, s, acts[..|acts| - 1]), j, acts[|acts| - 1]);
    }
  }

  lemma {:induction false} RunAppend(env: Env, s: State, x: seq<Action>, y: seq<Action>)
    ensures Run(env, s, x + y) == Run(env, Run(env, s, x), y)
    ensures HonestRun(env, s, x + y) <==> HonestRun(env, s, x) && HonestRun(env, Run(env, s, x), y)
  {
    hide Next, Honest;
    if y == [] {
      assert x + y == x;
    } else {
      RunAppend(env, s, x, y[..|y| - 1]);
      assert (x + y)[..|x + y| - 1] == x + y[..|y| - 1];
      assert (x + y)[|x + y| - 1] == y[|y| - 1];
    }
  }

  lemma VersionIsIndex(s: State, i: int)
    requires HoldsVersion(s, i) && UniqueHashes(s.history)
    ensures InstalledVersion(s) == i
  {
  }

  /** Over any run with honest replies and hashes never reused, installed versions never go back. */
  lemma NeverBackwards(env: Env, v: Version, x: seq<Action>, y: seq<Action>)
    requires HonestRun(env, Initial(v), x + y)
    requires UniqueHashes(Run(env, Initial(v), x + y).history)
    ensures InstalledVersion(Run(env, Initial(v), x)) <= InstalledVersion(Run(env, Initial(v), x + y))
  {
    RunAppend(env, Initial(v), x, y);
    var i := VersionRun(env, Initial(v), -1, x);
    var middle := Run(env, Initial(v), x);
    var j := VersionRun(env, middle, i, y);
    hide HonestRun, Run;
    VersionIsIndex(middle, i);
    VersionIsIndex(Run(env, middle, y), j);
  }

  /** Every reachable state meets what convergence asks of the state it starts from. */
  lemma ReachableIsSourced(env: Env, v: Version, acts: seq<Action>)
    requires HonestRun(env, Initial(v), acts)
    ensures var s := Run(env, Initial(v), acts);
      s.history != [] && Sourced(s) && Coherent(env, s.node)
  {
    var i := VersionRun(env, Initial(v), -1, acts);
    EmptyCoherent(env);
    RunCoherent(env, Initial(v), acts);
    hide Coherent, HonestRun, Run;
  }

  lemma RunOneMore(env: Env, s: State, acts: seq<Action>, a: Action)
    ensures Run(env, s, acts + [a]) == Next(env, Run(env, s, acts), a)
    ensures HonestRun(env, s, acts + [a]) <==>
            HonestRun(env, s, acts) && (a.Deliver? ==> Honest(Run(env, s, acts), a.reply))
  {
    hide Next, Honest;
    assert (acts + [a])[..|acts|] == acts;
  }

  /** An update can be lost until the next sync, so the case of an older install after the batch does
      occur: the reply about the old version is in flight
      when the controller moves on and its batch lands; the install then undoes the batch. */
  lemma UpdateCanBeLost(env: Env, v0: Version, v1: Version)
    requires v0.zone != "" && v0.hash != ""
    ensures var acts := [Start] + [Deliver(Contract(v0, ""))] + [Edit(v1)] + [Hook(Updates(v1.records))] + [Finish];
      && HonestRun(env, Initial(v0), acts)
      && Run(env, Initial(v0), acts).node == Rebuilt(env, v0)
      && Run(env, Initial(v0), acts).history == [v0, v1]
  {
    hide Run, HonestRun, Build, EditOf, ApplyEdit;
    var s, reply, hook := Initial(v0), Contract(v0, ""), Hook(Updates(v1.records));
    RunNone(env, s);
    RunOneMore(env, s, [], Start);
    assert [] + [Start] == [Start];
    RunOneMore(env, s, [Start], Deliver(reply));
    RunOneMore(env, s, [Start] + [Deliver(reply)], Edit(v1));
    RunOneMore(env, s, [Start] + [Deliver(reply)] + [Edit(v1)], hook);
    RunOneMore(env, s, [Start] + [Deliver(reply)] + [Edit(v1)] + [hook], Finish);
    JudgeContract(v0, "");
  }

  lemma RunNone(env: Env, s: State)
    ensures Run(env, s, []) == s && HonestRun(env, s, [])
  {
  }

  function HookActions(hooks: seq<Batch>): seq<Action> {
    if hooks == [] then [] else HookActions(hooks[..|hooks| - 1]) + [Hook(hooks[|hooks| - 1])]
  }

  lemma {:induction false} HookActionsRun(env: Env, s: State, hooks: seq<Batch>)
    ensures Run(env, s, HookActions(hooks)) == s.(node := WriteAll(env, s.node, Landings(hooks)))
  {
    hide WriteTo;
    if hooks == [] {
      assert Landings(hooks) == [];
    } else {
      var front, last := hooks[..|hooks| - 1], hooks[|hooks| - 1];
      HookActionsRun(env, s, front);
      RunOneMore(env, s, HookActions(front), Hook(last));
      assert Landings(hooks)[..|front|] == Landings(front);
    }
  }

  /** A whole sync of the plugin is a run of the protocol. */
  lemma SyncNodeIsRun(env: Env, s: State, hooks: seq<Batch>, reply: Reply)
    requires s.phase.Idle?
    ensures Run(env, s, [Start] + HookActions(hooks) + [Deliver(reply)] + [Finish])
            == s.(node := SyncNode(env, s.node, hooks, reply))
  {
    hide Run, WriteAll, Judge, Settle;
    RunNone(env, s);
    RunOneMore(env, s, [], Start);
    assert [] + [Start] == [Start];
    var asking := Next(env, s, Start);
    RunAppend(env, s, [Start], HookActions(hooks));
    HookActionsRun(env, asking, hooks);
    RunOneMore(env, s, [Start] + HookActions(hooks), Deliver(reply));
    RunOneMore(env, s, [Start] + HookActions(hooks) + [Deliver(reply)], Finish);
  }

  /* ---------- graceful degradation ---------- */

  /** Steps that bring no news: no webhook, and no install. */
  predicate NoNews(env: Env, s: State, acts: seq<Action>) {
    forall i | 0 <= i < |acts| :: !acts[i].Hook? && InstalledBy(env, s, acts, i).None?
  }

  /** Across failed and unchanged syncs and controller edits, the cache does not change at all. */
  lemma {:induction false} DegradesGracefully(env: Env, s: State, acts: seq<Action>)
    requires NoNews(env, s, acts)
    ensures Run(env, s, acts).node == s.node
  {
    if acts != [] {
      var front := acts[..|acts| - 1];
      OriginPrefix(env, s, acts, 0);
      NodeWithoutInstall(env, s, acts);
      hide Run, InstalledBy;
      DegradesGracefully(env, s, front);
    }
  }

  lemma ReadyStep(env: Env, s: State, a: Action)
    requires s.node.hash != ""
    ensures Next(env, s, a).node.hash != ""
  {
    NextNode(env, s, a);
    if s.phase.Holding? {
      AcceptedIsIdentified(s.phase.since, s.phase.reply);
    }
    hide Next, Judge, EditOf, ApplyEdit, Build;
  }

  /** Once the cache has a hash it keeps one, whatever replies arrive. */
  lemma {:induction false} ReadyForever(env: Env, s: State, acts: seq<Action>)
    requires s.node.hash != ""
    ensures Run(env, s, acts).node.hash != ""
  {
    hide Next;
    if acts != [] {
      ReadyForever(env, s, acts[..|acts| - 1]);
      ReadyStep(env, Run(env, s, acts[..|acts| - 1]), acts[|acts| - 1]);
    }
  }
}
