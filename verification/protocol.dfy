/** The synchronisation protocol as a transition system. Controller edits, the steps of the one
    sync in flight, and webhook mutations interleave freely; each action is atomic because the
    code holds the cache lock for it, or touches no shared state. */
module Protocol {
  import opened Names
  import opened Records
  import opened Tables
  import opened Batches
  import opened Replica
  import opened Client

  /** A state of the controller's data. */
  datatype Version = Version(zone: string, hash: string, records: seq<DNSRecord>)

  /** The sync in flight: none, asking since a hash, or holding the reply before its install. */
  datatype Phase = Idle | Asking(since: string) | Holding(since: string, reply: Reply)

  /** The controller's versions up to now, the last being current; the cache; the sync. */
  datatype State = State(history: seq<Version>, node: Node, phase: Phase)

  datatype Action =
    | Edit(version: Version)
    | Start
    | Deliver(reply: Reply)
    | Finish
    | Hook(batch: Batch)

  /** The locked end of a sync. */
  function Settle(env: Env, n: Node, v: Verdict): Node {
    match v
    case Changed(snapshot) => WriteTo(env, n, Install(snapshot))
    case Failed(_) => n
    case Unchanged => n
  }

  /** One step; an action that is not enabled changes nothing. */
  function Next(env: Env, s: State, a: Action): State {
    match a
    case Edit(v) => s.(history := s.history + [v])
    case Start => if s.phase.Idle? then s.(phase := Asking(s.node.hash)) else s
    case Deliver(reply) => if s.phase.Asking? then s.(phase := Holding(s.phase.since, reply)) else s
    case Finish =>
      if s.phase.Holding? then s.(node := Settle(env, s.node, Judge(s.phase.since, s.phase.reply)), phase := Idle)
      else s
    case Hook(b) => s.(node := WriteTo(env, s.node, Land(b)))
  }

  function Run(env: Env, s: State, acts: seq<Action>): State {
    if acts == [] then s
    else Next(env, Run(env, s, acts[..|acts| - 1]), acts[|acts| - 1])
  }

  /** What one whole sync does to the cache when some batches land while it is in flight. */
  function SyncNode(env: Env, n: Node, hooks: seq<Batch>, reply: Reply): Node {
    Settle(env, WriteAll(env, n, Landings(hooks)), Judge(n.hash, reply))
  }

  function Initial(v: Version): State {
    State([v], EMPTY, Idle)
  }

  /** The controller's side of the contract: equal hash, no body; otherwise everything. */
  function Contract(v: Version, since: string): Reply {
    if since != "" && since == v.hash then Response(STATUS_NOT_MODIFIED, Unreadable)
    else Response(STATUS_OK, Decoded(Payload(false, v.zone, v.hash, v.records)))
  }

  function Current(s: State): Version
    requires s.history != []
  {
    s.history[|s.history| - 1]
  }

  /** A reply the network may hand over: the controller's own, or one the client rejects. */
  predicate Honest(s: State, reply: Reply) {
    s.phase.Asking? && s.history != [] ==>
      reply == Contract(Current(s), s.phase.since) || Judge(s.phase.since, reply).Failed?
  }

  predicate HonestRun(env: Env, s: State, acts: seq<Action>) {
    acts != [] ==>
      var front, last := acts[..|acts| - 1], acts[|acts| - 1];
      && HonestRun(env, s, front)
      && (last.Deliver? ==> Honest(Run(env, s, front), last.reply))
  }

  function HooksIn(acts: seq<Action>): seq<Batch> {
    if acts == [] then []
    else
      var last := acts[|acts| - 1];
      HooksIn(acts[..|acts| - 1]) + if last.Hook? then [last.batch] else []
  }

  /* ---------- the cache is the webhook log over the installed snapshot ---------- */

  lemma NextCoherent(env: Env, s: State, a: Action)
    requires Coherent(env, s.node)
    ensures Coherent(env, Next(env, s, a).node)
  {
    hide Coherent, WriteTo, Judge;
    match a {
      case Hook(b) => WriteCoherent(env, s.node, Land(b));
      case Finish =>
        if s.phase.Holding? && Judge(s.phase.since, s.phase.reply).Changed? {
          WriteCoherent(env, s.node, Install(Judge(s.phase.since, s.phase.reply).snapshot));
        }
      case _ =>
    }
  }

  lemma {:induction false} RunCoherent(env: Env, s: State, acts: seq<Action>)
    requires Coherent(env, s.node)
    ensures Coherent(env, Run(env, s, acts).node)
  {
    hide Coherent, Next;
    if acts != [] {
      RunCoherent(env, s, acts[..|acts| - 1]);
      NextCoherent(env, Run(env, s, acts[..|acts| - 1]), acts[|acts| - 1]);
    }
  }

  /** The snapshot that the i-th action of a run installs, if it installs one. */
  function InstalledBy(env: Env, s: State, acts: seq<Action>, i: nat): Option<DNSSnapshot>
    requires i < |acts|
  {
    var before := Run(env, s, acts[..i]);
    if acts[i].Finish? && before.phase.Holding? then
      var v := Judge(before.phase.since, before.phase.reply);
      if v.Changed? then Some(v.snapshot) else None
    else None
  }

  lemma NextNode(env: Env, s: State, a: Action)
    ensures var n := Next(env, s, a).node;
      n == if a.Hook? then WriteTo(env, s.node, Land(a.batch))
           else if a.Finish? && s.phase.Holding? then Settle(env, s.node, Judge(s.phase.since, s.phase.reply))
           else s.node
  {
    hide WriteTo, Settle, Judge;
  }

  /** The cache right after the first i actions, read off the install that ends them, or off the
      starting state when i is 0. */
  function OriginAt(env: Env, s: State, acts: seq<Action>, i: nat): Option<Node>
    requires i <= |acts|
  {
    if i == 0 then Some(s.node)
    else
      match InstalledBy(env, s, acts, i - 1)
      case None => None
      case Some(snapshot) => Some(Node(Build(env, snapshot.records), snapshot.versionHash, snapshot.records, []))
  }

  /** A cache with more batches landed on it. */
  function Landed(env: Env, n: Node, log: seq<Batch>): Node {
    n.(table := Apply(env, n.table, log), log := n.log + log)
  }

  /** From the i-th action on there is no install, and the run's cache is the origin at i with
      the batches since then applied in lock order. */
  predicate Explains(env: Env, s: State, acts: seq<Action>, i: nat)
    requires i <= |acts|
  {
    && OriginAt(env, s, acts, i).Some?
    && (forall j | i <= j < |acts| :: InstalledBy(env, s, acts, j).None?)
    && Run(env, s, acts).node == Landed(env, OriginAt(env, s, acts, i).value, HooksIn(acts[i..]))
  }

  lemma OriginPrefix(env: Env, s: State, acts: seq<Action>, i: nat)
    requires i < |acts|
    ensures OriginAt(env, s, acts, i) == OriginAt(env, s, acts[..|acts| - 1], i)
    ensures forall j | i <= j < |acts| - 1 :: InstalledBy(env, s, acts, j) == InstalledBy(env, s, acts[..|acts| - 1], j)
  {
    hide Run, Judge, Build;
    forall j | 0 <= j < |acts| - 1
      ensures InstalledBy(env, s, acts, j) == InstalledBy(env, s, acts[..|acts| - 1], j)
    {
      assert acts[..|acts| - 1][..j] == acts[..j];
    }
  }

  /** Without an install, only a hook changes the cache. */
  lemma NodeWithoutInstall(env: Env, s: State, acts: seq<Action>)
    requires acts != [] && InstalledBy(env, s, acts, |acts| - 1).None?
    ensures var mid, last := Run(env, s, acts[..|acts| - 1]).node, acts[|acts| - 1];
      Run(env, s, acts).node == if last.Hook? then WriteTo(env, mid, Land(last.batch)) else mid
  {
    hide WriteTo, Judge;
    NextNode(env, Run(env, s, acts[..|acts| - 1]), acts[|acts| - 1]);
  }

  lemma HooksOneMore(acts: seq<Action>, i: nat)
    requires i < |acts|
    ensures var last := acts[|acts| - 1];
      HooksIn(acts[i..]) == HooksIn(acts[..|acts| - 1][i..]) + if last.Hook? then [last.batch] else []
  {
    assert acts[i..][..|acts| - i - 1] == acts[..|acts| - 1][i..];
  }

  lemma ExplainsByInstall(env: Env, s: State, acts: seq<Action>)
    requires acts != [] && InstalledBy(env, s, acts, |acts| - 1).Some?
    ensures Explains(env, s, acts, |acts|)
  {
    var front := acts[..|acts| - 1];
    NextNode(env, Run(env, s, front), acts[|acts| - 1]);
    assert acts[|acts|..] == [];
    LandedNone(env, OriginAt(env, s, acts, |acts|).value);
    hide Build, Judge, Landed;
  }

  lemma LandedNone(env: Env, n: Node)
    ensures Landed(env, n, []) == n
  {
    ApplyNone(env, n.table);
    hide Apply;
    assert n.log + [] == n.log;
  }

  lemma ExplainsOneMore(env: Env, s: State, acts: seq<Action>, i: nat)
    requires acts != [] && InstalledBy(env, s, acts, |acts| - 1).None?
    requires i < |acts| && Explains(env, s, acts[..|acts| - 1], i)
    ensures Explains(env, s, acts, i)
  {
    hide Apply, Run, OriginAt, InstalledBy, HooksIn, WriteTo;
    var front, last := acts[..|acts| - 1], acts[|acts| - 1];
    NodeWithoutInstall(env, s, acts);
    OriginPrefix(env, s, acts, i);
    HooksOneMore(acts, i);
    var origin, hooks := OriginAt(env, s, acts, i).value, HooksIn(front[i..]);
    if last.Hook? {
      LandOneMore(env, origin, hooks, last.batch);
    } else {
      assert hooks + [] == hooks;
    }
  }

  /** The cache a run ends with, read off its actions: find the last install; the table is the
      build of that snapshot with the batches that landed since, in lock order, and the hash is
      that snapshot's. With no install, the batches apply to what was there at the start. */
  lemma {:induction false} CacheFromActions(env: Env, s: State, acts: seq<Action>) returns (i: nat)
    ensures i <= |acts| && Explains(env, s, acts, i)
  {
    if acts == [] {
      i := 0;
    } else if InstalledBy(env, s, acts, |acts| - 1).Some? {
      i := |acts|;
      ExplainsByInstall(env, s, acts);
    } else {
      i := CacheFromActions(env, s, acts[..|acts| - 1]);
      ExplainsOneMore(env, s, acts, i);
    }
  }

  /* ---------- what becomes of one webhook batch ---------- */

  /** Some install comes after the p-th action. */
  predicate Overwritten(env: Env, s: State, acts: seq<Action>, p: nat) {
    exists i | p < i < |acts| :: InstalledBy(env, s, acts, i).Some?
  }

  predicate EndsWith(log: seq<Batch>, tail: seq<Batch>) {
    |tail| <= |log| && log[|log| - |tail|..] == tail
  }

  lemma {:induction false} HooksAppend(x: seq<Action>, y: seq<Action>)
    ensures HooksIn(x + y) == HooksIn(x) + HooksIn(y)
  {
    if y == [] {
      assert x + y == x;
    } else {
      HooksAppend(x, y[..|y| - 1]);
      assert (x + y)[..|x + y| - 1] == x + y[..|y| - 1];
      assert (x + y)[|x + y| - 1] == y[|y| - 1];
    }
  }

  /** The batch that lands at the p-th action is still at work at the end of the run, with all the
      batches after it, if no install follows it; otherwise the cache is the build of an install
      made after it, under batches that landed after that install. */
  lemma BatchLives(env: Env, s: State, acts: seq<Action>, p: nat)
    requires p < |acts| && acts[p].Hook?
    ensures var log := Run(env, s, acts).node.log;
      if Overwritten(env, s, acts, p) then
        exists i | p < i < |acts| ::
          InstalledBy(env, s, acts, i).Some? && Explains(env, s, acts, i + 1) && log == HooksIn(acts[i + 1..])
      else
        EndsWith(log, [acts[p].batch] + HooksIn(acts[p + 1..]))
  {
    var i := CacheFromActions(env, s, acts);
    hide Run, Apply, Judge, Build;
    if i > p {
      assert InstalledBy(env, s, acts, i - 1).Some?;
      assert [] + HooksIn(acts[i..]) == HooksIn(acts[i..]);
      assert acts[i - 1 + 1..] == acts[i..];
      assert p < i - 1;
    } else {
      assert acts[i..] == acts[i..p] + ([acts[p]] + acts[p + 1..]);
      HooksAppend(acts[i..p], [acts[p]] + acts[p + 1..]);
      HooksAppend([acts[p]], acts[p + 1..]);
      assert [acts[p]][..0] == [];
      assert HooksIn([acts[p]]) == [acts[p].batch];
      var origin := OriginAt(env, s, acts, i).value;
      var rest := [acts[p].batch] + HooksIn(acts[p + 1..]);
      assert origin.log + (HooksIn(acts[i..p]) + rest) == (origin.log + HooksIn(acts[i..p])) + rest;
    }
  }
}
