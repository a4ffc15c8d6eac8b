/** The cache as a value: its table and hash, with the snapshot and the batches they come from. */
module Replica {
  import opened Records
  import opened Tables
  import opened Batches

  /** `base` and `log` record history: the records last installed, the batches landed since. */
  datatype Node = Node(table: Table, hash: string, base: seq<DNSRecord>, log: seq<Batch>)

  /** A locked mutation of the cache. */
  datatype Write = Install(snapshot: DNSSnapshot) | Land(batch: Batch)

  const EMPTY: Node := Node(map[], "", [], [])

  function WriteTo(env: Env, n: Node, w: Write): Node {
    match w
    case Install(s) => Node(Build(env, s.records), s.versionHash, s.records, [])
    case Land(b) => n.(table := ApplyEdit(n.table, EditOf(env, b)), log := n.log + [b])
  }

  function WriteAll(env: Env, n: Node, ws: seq<Write>): Node {
    if ws == [] then n
    else WriteTo(env, WriteAll(env, n, ws[..|ws| - 1]), ws[|ws| - 1])
  }

  function Landings(log: seq<Batch>): (ws: seq<Write>)
    ensures |ws| == |log| && forall i | 0 <= i < |log| :: ws[i] == Land(log[i])
  {
    seq(|log|, i requires 0 <= i < |log| => Land(log[i]))
  }

  /** The table is the installed snapshot with the batches since applied in lock order. */
  ghost predicate Coherent(env: Env, n: Node) {
    && n.table == Apply(env, Build(env, n.base), n.log)
    && TableOk(env, n.table)
  }

  lemma EmptyCoherent(env: Env)
    ensures Coherent(env, EMPTY)
  {
    ReachableOk(env, [], []);
  }

  lemma WriteCoherent(env: Env, n: Node, w: Write)
    requires Coherent(env, n)
    ensures Coherent(env, WriteTo(env, n, w))
  {
    var m := WriteTo(env, n, w);
    match w {
      case Install(s) =>
      case Land(b) =>
        ApplyAppend(env, Build(env, n.base), n.log, [b]);
        ApplyOne(env, n.table, b);
    }
    ReachableOk(env, m.base, m.log);
  }

  lemma {:induction false} WriteAllCoherent(env: Env, n: Node, ws: seq<Write>)
    requires Coherent(env, n)
    ensures Coherent(env, WriteAll(env, n, ws))
  {
    if ws != [] {
      WriteAllCoherent(env, n, ws[..|ws| - 1]);
      WriteCoherent(env, WriteAll(env, n, ws[..|ws| - 1]), ws[|ws| - 1]);
    }
  }

  lemma {:induction false} WriteAllAppend(env: Env, n: Node, x: seq<Write>, y: seq<Write>)
    ensures WriteAll(env, n, x + y) == WriteAll(env, WriteAll(env, n, x), y)
  {
    hide WriteTo;
    if y == [] {
      assert x + y == x;
    } else {
      WriteAllAppend(env, n, x, y[..|y| - 1]);
      assert (x + y)[..|x + y| - 1] == x + y[..|y| - 1];
      assert (x + y)[|x + y| - 1] == y[|y| - 1];
    }
  }

  lemma LandOneMore(env: Env, n: Node, log: seq<Batch>, last: Batch)
    ensures WriteTo(env, n.(table := Apply(env, n.table, log), log := n.log + log), Land(last))
            == n.(table := Apply(env, n.table, log + [last]), log := n.log + (log + [last]))
  {
    ApplyAppend(env, n.table, log, [last]);
    ApplyOne(env, Apply(env, n.table, log), last);
    hide Apply, EditOf, ApplyEdit;
    assert n.log + log + [last] == n.log + (log + [last]);
  }

  /** Landing a log of batches leaves the hash and the installed records alone. */
  lemma {:induction false} LandAll(env: Env, n: Node, log: seq<Batch>)
    ensures WriteAll(env, n, Landings(log)) == n.(table := Apply(env, n.table, log), log := n.log + log)
  {
    ApplyNone(env, n.table);
    hide Apply, WriteTo;
    if log == [] {
      assert n.log + log == n.log;
      assert Landings(log) == [];
    } else {
      var front, last := log[..|log| - 1], log[|log| - 1];
      LandAll(env, n, front);
      assert Landings(log)[..|log| - 1] == Landings(front);
      LandOneMore(env, n, front, last);
      assert log == front + [last];
    }
  }

  /* ---------- two reads under two locks ---------- */

  /** Some state held from `n` through the gap has a fitting table together with this hash. */
  ghost predicate Held(env: Env, n: Node, gap: seq<Write>, fits: Table -> bool, hash: string) {
    exists j | 0 <= j <= |gap| :: fits(WriteAll(env, n, gap[..j]).table) && WriteAll(env, n, gap[..j]).hash == hash
  }

  /** No write installs this hash. */
  predicate NeverInstalls(gap: seq<Write>, hash: string) {
    forall w | w in gap :: w.Install? ==> w.snapshot.versionHash != hash
  }

  lemma {:induction false} HashOfNoInstall(env: Env, n: Node, gap: seq<Write>, hash: string)
    requires NeverInstalls(gap, hash) && n.hash != hash
    ensures WriteAll(env, n, gap).hash != hash
  {
    hide Build, EditOf, ApplyEdit;
    if gap != [] {
      assert gap[|gap| - 1] in gap;
      HashOfNoInstall(env, n, gap[..|gap| - 1], hash);
    }
  }

  /** A table read before a gap and a hash read after it agree when nothing is installed between. */
  lemma WebhooksDoNotTear(env: Env, n: Node, log: seq<Batch>, fits: Table -> bool)
    requires fits(n.table)
    ensures Held(env, n, Landings(log), fits, WriteAll(env, n, Landings(log)).hash)
  {
    LandAll(env, n, log);
    hide Apply, WriteTo;
    assert WriteAll(env, n, Landings(log)[..0]) == n;
  }

  /** The states from the last install of a gap on. */
  lemma StateAfterInstall(env: Env, n: Node, x: seq<Write>, s: DNSSnapshot, log: seq<Batch>, j: nat)
    requires j <= |log|
    ensures var gap, k := x + [Install(s)] + Landings(log), |x| + 1 + j;
      WriteAll(env, n, gap[..k])
      == Node(Apply(env, Build(env, s.records), log[..j]), s.versionHash, s.records, log[..j])
  {
    var gap, k := x + [Install(s)] + Landings(log), |x| + 1 + j;
    AfterInstall(env, n, x, s);
    hide Build, Apply, WriteTo, WriteAll;
    assert gap[..k] == (x + [Install(s)]) + Landings(log[..j]);
    WriteAllAppend(env, n, x + [Install(s)], Landings(log[..j]));
    LandAll(env, WriteAll(env, n, x + [Install(s)]), log[..j]);
    assert [] + log[..j] == log[..j];
  }

  lemma AfterInstall(env: Env, n: Node, x: seq<Write>, s: DNSSnapshot)
    ensures WriteAll(env, n, x + [Install(s)]) == Node(Build(env, s.records), s.versionHash, s.records, [])
  {
    hide Build;
    assert (x + [Install(s)])[..|x|] == x;
  }

  /** A table read before a gap and a hash read after it fit no single state exactly when no state
      before the last install of the gap had that hash and a fitting table, and no table since then
      fits. Unless the hash is installed twice, the first half says that it is new. */
  lemma TornIffNewInstall(env: Env, n: Node, x: seq<Write>, s: DNSSnapshot, log: seq<Batch>, fits: Table -> bool)
    requires fits(n.table)
    ensures var gap := x + [Install(s)] + Landings(log);
      && WriteAll(env, n, gap).hash == s.versionHash
      && (!Held(env, n, gap, fits, s.versionHash)
          <==>
          && !Held(env, n, x, fits, s.versionHash)
          && forall j | 0 <= j <= |log| :: !fits(Apply(env, Build(env, s.records), log[..j])))
    ensures NeverInstalls(x, s.versionHash) ==> (Held(env, n, x, fits, s.versionHash) <==> s.versionHash == n.hash)
  {
    hide Build, Apply, WriteTo, WriteAll, NeverInstalls;
    var gap := x + [Install(s)] + Landings(log);
    forall j | 0 <= j <= |log|
      ensures WriteAll(env, n, gap[..|x| + 1 + j]).hash == s.versionHash
      ensures WriteAll(env, n, gap[..|x| + 1 + j]).table == Apply(env, Build(env, s.records), log[..j])
    {
      StateAfterInstall(env, n, x, s, log, j);
    }
    assert gap[..|x| + 1 + |log|] == gap;
    assert log[..|log|] == log;
    assert forall k | 0 <= k <= |x| :: gap[..k] == x[..k];
    forall k | |x| < k <= |gap|
      ensures fits(WriteAll(env, n, gap[..k]).table) == fits(Apply(env, Build(env, s.records), log[..k - |x| - 1]))
    {
      assert k == |x| + 1 + (k - |x| - 1);
    }
    if NeverInstalls(x, s.versionHash) {
      HeldIffOld(env, n, x, fits, s.versionHash);
    }
  }

  lemma HeldIffOld(env: Env, n: Node, x: seq<Write>, fits: Table -> bool, hash: string)
    requires fits(n.table) && NeverInstalls(x, hash)
    ensures Held(env, n, x, fits, hash) <==> hash == n.hash
  {
    hide WriteTo;
    assert WriteAll(env, n, x[..0]) == n;
    if hash != n.hash {
      forall k | 0 <= k <= |x|
        ensures WriteAll(env, n, x[..k]).hash != hash
      {
        HashOfNoInstall(env, n, x[..k], hash);
      }
    }
  }
}
