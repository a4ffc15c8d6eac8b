/** The plugin object: start-up, the background syncs, readiness, and the query path. */
module Plugin {
  import opened Names
  import opened Records
  import opened Tables
  import opened Batches
  import opened Replica
  import opened Cache
  import opened Client
  import opened Protocol
  import opened Query
  import Convergence

  const SUCCESS := "success"
  const FAILED := "failed"
  const INITIAL := "initial"

  /** The outcome of the last sync and when it was stamped. */
  class SyncStatus {
    var lastSyncTime: int
    var lastSyncStatus: string
    var lastError: Option<ClientError>

    constructor ()
      ensures lastSyncStatus == INITIAL && lastError == None
    {
      lastSyncTime, lastSyncStatus, lastError := 0, INITIAL, None;
    }

    /** Stamps the time on every outcome, failures included. */
    method Update(status: string, error: Option<ClientError>, now: int)
      modifies this
      ensures lastSyncTime == now && lastSyncStatus == status && lastError == error
    {
      lastSyncTime := now;
      lastSyncStatus := status;
      lastError := error;
    }

    method Get() returns (time: int, status: string, error: Option<ClientError>)
      ensures time == lastSyncTime && status == lastSyncStatus && error == lastError
    {
      return lastSyncTime, lastSyncStatus, lastError;
    }
  }

  /** One tick of the background loop: the batches that land while it is in flight, the reply it
      gets, and when it ends. */
  datatype Cycle = Cycle(hooks: seq<Batch>, reply: Reply, end: int)

  function AfterCycles(env: Env, n: Node, cycles: seq<Cycle>): Node {
    if cycles == [] then n
    else
      var last := cycles[|cycles| - 1];
      SyncNode(env, AfterCycles(env, n, cycles[..|cycles| - 1]), last.hooks, last.reply)
  }

  class Elchi {
    const env: Env
    const syncInterval: int
    const through: string -> bool
    var cache: RecordCache?
    var syncStatus: SyncStatus?

    constructor (env: Env, syncInterval: int, through: string -> bool)
      ensures this.env == env && this.syncInterval == syncInterval && this.through == through
      ensures cache == null && syncStatus == null
    {
      this.env, this.syncInterval, this.through := env, syncInterval, through;
      cache, syncStatus := null, null;
    }

    ghost predicate Running()
      reads this, cache
    {
      cache != null && syncStatus != null && cache.Valid() && cache.env == env
    }

    /** Ready as soon as some snapshot has been installed. */
    method Ready() returns (ready: bool)
      ensures ready <==> cache != null && cache.AsNode().hash != ""
    {
      if cache == null {
        return false;
      }
      var hash := cache.GetVersionHash();
      return hash != "";
    }

    /** Creates the cache and attempts a first snapshot; webhooks may land before it arrives. */
    method InitClient(hooks: seq<Batch>, reply: Reply, now: int)
      modifies this
      ensures Running() && fresh(cache) && fresh(syncStatus)
      ensures cache.AsNode() == SyncNode(env, EMPTY, hooks, reply)
      ensures syncStatus.lastSyncTime == now
      ensures syncStatus.lastSyncStatus == if Delivers("", reply) then "success" else "failed"
      ensures syncStatus.lastError == if Delivers("", reply) then None else Some(Judge("", reply).error)
    {
      JudgeIff("", reply);
      hide RecordCache.Valid, WriteAll, WriteTo;
      cache := new RecordCache(env);
      syncStatus := new SyncStatus();
      cache.Interleave(Landings(hooks), now);
      var snapshot := FetchSnapshot(reply);
      if snapshot.Err? {
        syncStatus.Update(FAILED, Some(snapshot.error), now);
      } else {
        var result := cache.ReplaceFromSnapshot(Some(snapshot.value), now);
        syncStatus.Update(SUCCESS, None, now);
      }
    }

    /** One sync: read the hash under the lock, talk to the controller with no lock held while
        webhooks may land, then install under the lock. */
    method PerformSync(hooks: seq<Batch>, reply: Reply, now: int)
      requires Running()
      modifies cache, syncStatus
      ensures Running()
      ensures cache.AsNode() == SyncNode(env, old(cache.AsNode()), hooks, reply)
      ensures syncStatus.lastSyncTime == now
      ensures var since := old(cache.AsNode()).hash;
        && (syncStatus.lastSyncStatus == "failed" <==> !SaysUnchanged(since, reply) && !Delivers(since, reply))
        && (syncStatus.lastSyncStatus == "success" <==> SaysUnchanged(since, reply) || Delivers(since, reply))
        && syncStatus.lastError == if Judge(since, reply).Failed? then Some(Judge(since, reply).error) else None
    {
      JudgeIff(cache.AsNode().hash, reply);
      hide RecordCache.Valid, WriteAll, WriteTo;
      var currentHash := cache.GetVersionHash();
      cache.Interleave(Landings(hooks), now);
      if currentHash == "" {
        var snapshot := FetchSnapshot(reply);
        if snapshot.Err? {
          syncStatus.Update(FAILED, Some(snapshot.error), now);
          return;
        }
        var _ := cache.ReplaceFromSnapshot(Some(snapshot.value), now);
        syncStatus.Update(SUCCESS, None, now);
        return;
      }
      var changes := CheckChanges(reply);
      if changes.Err? {
        syncStatus.Update(FAILED, Some(changes.error), now);
        return;
      }
      if changes.value.noChange {
        syncStatus.Update(SUCCESS, None, now);
        return;
      }
      var snapshot := DNSSnapshot(changes.value.zone, changes.value.versionHash, changes.value.records);
      var _ := cache.ReplaceFromSnapshot(Some(snapshot), now);
      syncStatus.Update(SUCCESS, None, now);
    }

    /** The background loop up to its shutdown, one sync a tick. */
    method BackgroundSync(cycles: seq<Cycle>)
      requires Running()
      modifies cache, syncStatus
      ensures Running()
      ensures cache.AsNode() == AfterCycles(env, old(cache.AsNode()), cycles)
      ensures cycles != [] ==>
        var front, last := cycles[..|cycles| - 1], cycles[|cycles| - 1];
        && syncStatus.lastSyncTime == last.end
        && var since := AfterCycles(env, old(cache.AsNode()), front).hash;
          syncStatus.lastSyncStatus
          == if SaysUnchanged(since, last.reply) || Delivers(since, last.reply) then "success" else "failed"
    {
      hide RecordCache.Valid, SyncNode, Judge, SaysUnchanged, Delivers;
      ghost var before := cache.AsNode();
      for i := 0 to |cycles|
        invariant Running()
        invariant cache.AsNode() == AfterCycles(env, before, cycles[..i])
        invariant i > 0 ==>
          && syncStatus.lastSyncTime == cycles[i - 1].end
          && var since, reply := AfterCycles(env, before, cycles[..i - 1]).hash, cycles[i - 1].reply;
            syncStatus.lastSyncStatus
            == if SaysUnchanged(since, reply) || Delivers(since, reply) then "success" else "failed"
      {
        assert cycles[..i + 1][..i] == cycles[..i];
        PerformSync(cycles[i].hooks, cycles[i].reply, cycles[i].end);
      }
      assert cycles[..|cycles|] == cycles;
    }

    /** Answers a query; `between` is whatever other writers do between its two locked reads. */
    method ServeDNS(qname: string, qtype: Uint16, between: seq<Write>, now: int) returns (answer: Answer)
      requires Running()
      modifies cache
      ensures Running()
      ensures cache.AsNode() ==
              if AsksAddress(qtype) && InZone(env.zone, Lower(qname)) then WriteAll(env, old(cache.AsNode()), between)
              else old(cache.AsNode())
      ensures answer == Respond(env, through, old(cache.AsNode()).table,
                                WriteAll(env, old(cache.AsNode()), between).table, qname, qtype)
    {
      hide WriteAll, Coherent, Agrees, NoEmptyInner, Size, InZone, NormalizeDomain, Lower;
      var name := Lower(qname);
      if !InZone(env.zone, name) {
        return NextPlugin;
      }
      var rrs: seq<RR>;
      if qtype == TYPE_A || qtype == TYPE_AAAA {
        var cnameRRs := cache.Get(name, TYPE_CNAME);
        cache.Interleave(between, now);
        if |cnameRRs| > 0 {
          rrs := cnameRRs;
        } else {
          rrs := cache.Get(name, qtype);
        }
      } else if qtype == TYPE_CNAME {
        rrs := cache.Get(name, TYPE_CNAME);
      } else {
        return NextPlugin;
      }
      if |rrs| == 0 {
        if through(name) {
          return NextPlugin;
        }
        return NxDomain;
      }
      return Answered(rrs);
    }
  }

  /** Failed syncs, and syncs that find nothing changed, leave the cache as it was over any run of
      the background loop in which no webhook lands. */
  lemma {:induction false} IdleCyclesChangeNothing(env: Env, n: Node, cycles: seq<Cycle>)
    requires forall c | c in cycles :: c.hooks == [] && !Judge(n.hash, c.reply).Changed?
    ensures AfterCycles(env, n, cycles) == n
  {
    hide Judge, WriteTo;
    if cycles != [] {
      var last := cycles[|cycles| - 1];
      IdleCyclesChangeNothing(env, n, cycles[..|cycles| - 1]);
      assert last in cycles;
      assert Landings(last.hooks) == [];
    }
  }

  /** The steps of the background loop's cycles, one whole sync after another. */
  function Steps(cycles: seq<Cycle>): seq<Action> {
    if cycles == [] then []
    else
      var last := cycles[|cycles| - 1];
      Steps(cycles[..|cycles| - 1]) +
      ([Start] + Convergence.HookActions(last.hooks) + [Deliver(last.reply)] + [Finish])
  }

  /** The background loop is a run of the protocol, so what holds of runs holds of it. */
  lemma {:induction false} CyclesAreRun(env: Env, s: State, cycles: seq<Cycle>)
    requires s.phase.Idle?
    ensures Run(env, s, Steps(cycles)) == s.(node := AfterCycles(env, s.node, cycles))
  {
    hide SyncNode, Next, Convergence.HookActions;
    if cycles != [] {
      var front, last := cycles[..|cycles| - 1], cycles[|cycles| - 1];
      CyclesAreRun(env, s, front);
      var sync := [Start] + Convergence.HookActions(last.hooks) + [Deliver(last.reply)] + [Finish];
      Convergence.RunAppend(env, s, Steps(front), sync);
      Convergence.SyncNodeIsRun(env, Run(env, s, Steps(front)), last.hooks, last.reply);
    }
  }
}
