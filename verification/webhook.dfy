/** The webhook endpoints: notify, health and the record listing. */
module Webhook {
  import opened Names
  import opened Records
  import opened Tables
  import opened Batches
  import opened Replica
  import opened Dump
  import opened Cache
  import opened Client
  import opened Plugin

  /** Handles a notify as two locked mutations; `between` is what other writers do in the gap. */
  method HandleNotify(e: Elchi, post: bool, body: Option<NotifyRequest>, between: seq<Write>, now: int)
    returns (code: int)
    requires e.Running()
    modifies e.cache
    ensures e.Running()
    ensures code == if !post then 405 else if body.None? then 400 else 200
    ensures code != 200 ==> e.cache.AsNode() == old(e.cache.AsNode())
    ensures code == 200 ==>
      e.cache.AsNode() == WriteAll(e.env, old(e.cache.AsNode()),
                                   Landings(UpdateHalf(body.value)) + between + Landings(DeleteHalf(body.value)))
  {
    hide RecordCache.Valid, WriteTo;
    if !post {
      return 405;
    }
    if body.None? {
      return 400;
    }
    var req := body.value;
    ghost var n := e.cache.AsNode();
    if |req.records| > 0 {
      e.cache.Update(req.records, now);
    }
    WriteHalf(e.env, n, UpdateHalf(req));
    assert e.cache.AsNode() == WriteAll(e.env, n, Landings(UpdateHalf(req)));
    e.cache.Interleave(between, now);
    ghost var m := e.cache.AsNode();
    WriteAllAppend(e.env, n, Landings(UpdateHalf(req)), between);
    if |req.deletes| > 0 {
      e.cache.Delete(req.deletes, now);
    }
    WriteHalf(e.env, m, DeleteHalf(req));
    WriteAllAppend(e.env, n, Landings(UpdateHalf(req)) + between, Landings(DeleteHalf(req)));
    return 200;
  }

  /** A half of a request is no write or one. */
  lemma WriteHalf(env: Env, n: Node, half: seq<Batch>)
    requires |half| <= 1
    ensures WriteAll(env, n, Landings(half)) == if half == [] then n else WriteTo(env, n, Land(half[0]))
  {
    hide WriteTo;
    assert Landings(half)[..0] == [];
  }

  /* ---------- health ---------- */

  datatype HealthResponse = HealthResponse(
    degraded: bool,
    recordsCount: nat,
    versionHash: string,
    lastSync: int,
    lastSyncStatus: string,
    error: Option<ClientError>)

  /** The health test: the last sync failed, and its stamp is older than two sync intervals. */
  predicate Degraded(status: string, lastSync: int, syncInterval: int, now: int) {
    status == FAILED && now - lastSync > 2 * syncInterval
  }

  /** Reads the sync status, the record count and the hash under three separate locks; `gap` and
      `gap2` are what other writers do before the second and the third. */
  method HandleHealth(e: Elchi, get: bool, gap: seq<Write>, gap2: seq<Write>, now: int)
    returns (response: Option<HealthResponse>)
    requires e.Running()
    modifies e.cache
    ensures e.Running()
    ensures response.Some? <==> get
    ensures !get ==> e.cache.AsNode() == old(e.cache.AsNode())
    ensures get ==>
      var counted := WriteAll(e.env, old(e.cache.AsNode()), gap);
      && e.cache.AsNode() == WriteAll(e.env, counted, gap2)
      && response.value.recordsCount == Size(counted.table)
      && response.value.versionHash == e.cache.AsNode().hash
      && response.value.lastSync == e.syncStatus.lastSyncTime
      && response.value.lastSyncStatus == e.syncStatus.lastSyncStatus
      && response.value.degraded
         == Degraded(e.syncStatus.lastSyncStatus, e.syncStatus.lastSyncTime, e.syncInterval, now)
      && response.value.error == if response.value.degraded then e.syncStatus.lastError else None
  {
    hide Size, Coherent, Agrees, NoEmptyInner, WriteAll;
    if !get {
      return None;
    }
    var lastSync, syncStatus, lastError := e.syncStatus.Get();
    e.cache.Interleave(gap, now);
    var count := e.cache.RRCount();
    e.cache.Interleave(gap2, now);
    var hash := e.cache.GetVersionHash();
    if syncStatus == FAILED && now - lastSync > 2 * e.syncInterval {
      return Some(HealthResponse(true, count, hash, lastSync, syncStatus, lastError));
    }
    return Some(HealthResponse(false, count, hash, lastSync, syncStatus, None));
  }

  /** Between the two reads the last install was of `s`, after other writes `x`, and its hash is the
      one read: no common state of count and hash exactly when no state before that install had
      both, and no table since then has that size. Unless `x` installs the same hash, the first half
      says that the hash is new. */
  lemma HealthTearsIff(env: Env, n: Node, x: seq<Write>, s: DNSSnapshot, log: seq<Batch>)
    ensures var gap, h := x + [Install(s)] + Landings(log), s.versionHash;
      && WriteAll(env, n, gap).hash == h
      && (!Held(env, n, gap, t => Size(t) == Size(n.table), h)
          <==>
          && !Held(env, n, x, t => Size(t) == Size(n.table), h)
          && forall j | 0 <= j <= |log| :: Size(Apply(env, Build(env, s.records), log[..j])) != Size(n.table))
      && (NeverInstalls(x, h) ==> (Held(env, n, x, t => Size(t) == Size(n.table), h) <==> h == n.hash))
  {
    hide Size, Apply, Build, WriteAll, NeverInstalls, Held;
    TornIffNewInstall(env, n, x, s, log, t => Size(t) == Size(n.table));
  }

  /* ---------- listing ---------- */

  predicate Contains(s: string, part: string) {
    |part| <= |s| && (s[..|part|] == part || (s != "" && Contains(s[1..], part)))
  }

  predicate OccursAt(s: string, part: string, i: int) {
    0 <= i <= |s| - |part| && s[i..i + |part|] == part
  }

  /** The part occurs somewhere. */
  ghost predicate Occurs(s: string, part: string) {
    exists i :: OccursAt(s, part, i)
  }

  lemma {:induction false} ContainsIff(s: string, part: string)
    ensures Contains(s, part) <==> Occurs(s, part)
  {
    if |part| <= |s| {
      assert OccursAt(s, part, 0) <==> s[..|part|] == part;
      if s != "" {
        ContainsIff(s[1..], part);
        assert forall i :: OccursAt(s[1..], part, i) ==> OccursAt(s, part, i + 1) by {
          OccursLater(s, part);
        }
        assert forall i | i != 0 :: OccursAt(s, part, i) ==> OccursAt(s[1..], part, i - 1) by {
          OccursLater(s, part);
        }
      }
    }
  }

  lemma OccursLater(s: string, part: string)
    requires s != ""
    ensures forall i | i >= 0 :: OccursAt(s[1..], part, i) <==> OccursAt(s, part, i + 1)
  {
    forall i | 0 <= i <= |s| - |part| - 1
      ensures OccursAt(s[1..], part, i) <==> OccursAt(s, part, i + 1)
    {
      assert s[1..][i..i + |part|] == s[i + 1..i + 1 + |part|];
    }
  }

  predicate Kept(record: DNSRecord, nameFilter: string, typeFilter: string) {
    && (nameFilter == "" || Contains(Lower(record.name), Lower(nameFilter)))
    && (typeFilter == "" || record.rtype == Upper(typeFilter))
  }

  function Filtered(records: seq<DNSRecord>, nameFilter: string, typeFilter: string): seq<DNSRecord> {
    if records == [] then []
    else
      var last := records[|records| - 1];
      Filtered(records[..|records| - 1], nameFilter, typeFilter) +
      if Kept(last, nameFilter, typeFilter) then [last] else []
  }

  /** A record passes the filters when its name, in small letters, has the name filter as a substring
      somewhere and its type is the one asked for in capitals; an empty filter asks for nothing. */
  lemma KeptIff(r: DNSRecord, nameFilter: string, typeFilter: string)
    ensures Kept(r, nameFilter, typeFilter) <==>
      && (nameFilter == "" || Occurs(Lower(r.name), Lower(nameFilter)))
      && (typeFilter == "" || r.rtype == Upper(typeFilter))
  {
    ContainsIff(Lower(r.name), Lower(nameFilter));
    hide Contains, Occurs, Lower, Upper;
  }

  /** A filtered listing holds exactly the records that pass. */
  lemma {:induction false} FilteredMembers(
    records: seq<DNSRecord>, nameFilter: string, typeFilter: string, r: DNSRecord)
    ensures r in Filtered(records, nameFilter, typeFilter) <==> r in records && Kept(r, nameFilter, typeFilter)
  {
    hide Kept;
    if records != [] {
      var front, last := records[..|records| - 1], records[|records| - 1];
      FilteredMembers(front, nameFilter, typeFilter, r);
      assert records == front + [last];
    }
  }

  /** Filtering keeps the order, and how often a record is listed: parts are filtered on their own,
      and a single record is kept once or not at all. */
  lemma {:induction false} FilteredAppend(x: seq<DNSRecord>, y: seq<DNSRecord>, nameFilter: string, typeFilter: string)
    ensures Filtered(x + y, nameFilter, typeFilter)
            == Filtered(x, nameFilter, typeFilter) + Filtered(y, nameFilter, typeFilter)
    ensures |x| == 1 ==> |Filtered(x, nameFilter, typeFilter)| <= 1
  {
    hide Kept;
    if |x| == 1 {
      assert Filtered(x[..0], nameFilter, typeFilter) == [];
    }
    if y == [] {
      assert x + y == x;
    } else {
      FilteredAppend(x, y[..|y| - 1], nameFilter, typeFilter);
      assert (x + y)[..|x + y| - 1] == x + y[..|y| - 1];
      assert (x + y)[|x + y| - 1] == y[|y| - 1];
    }
  }

  method FilterRecords(all: seq<DNSRecord>, nameFilter: string, typeFilter: string) returns (out: seq<DNSRecord>)
    ensures out == Filtered(all, nameFilter, typeFilter)
  {
    hide Contains;
    var name, rtype := Lower(nameFilter), Upper(typeFilter);
    out := [];
    for i := 0 to |all|
      invariant out == Filtered(all[..i], nameFilter, typeFilter)
    {
      assert all[..i + 1][..i] == all[..i];
      if name != "" && !Contains(Lower(all[i].name), name) {
        continue;
      }
      if rtype != "" && all[i].rtype != rtype {
        continue;
      }
      out := out + [all[i]];
    }
    assert all[..|all|] == all;
  }

  datatype RecordsResponse = RecordsResponse(versionHash: string, count: nat, records: seq<DNSRecord>)

  /** The records listed are the filtered listing of this table, in some order. */
  ghost predicate ListedFrom(env: Env, t: Table, nameFilter: string, typeFilter: string, records: seq<DNSRecord>) {
    exists order ::
      NonEmpty(t) && Enumerates(order, t) && records == Filtered(DumpInOrder(env, t, order), nameFilter, typeFilter)
  }

  /** Lists the cache under one lock and reads its hash under a later one; `between` is what other
      writers do in the gap. */
  method HandleRecords(e: Elchi, get: bool, nameFilter: string, typeFilter: string, between: seq<Write>, now: int)
    returns (response: Option<RecordsResponse>)
    requires e.Running()
    modifies e.cache
    ensures e.Running()
    ensures response.Some? <==> get
    ensures e.cache.AsNode() == if get then WriteAll(e.env, old(e.cache.AsNode()), between) else old(e.cache.AsNode())
    ensures get ==>
      && ListedFrom(e.env, old(e.cache.AsNode()).table, nameFilter, typeFilter, response.value.records)
      && response.value.count == |response.value.records|
      && response.value.versionHash == e.cache.AsNode().hash
  {
    hide DumpInOrder, RecordCache.Valid, Enumerates, NonEmpty, Filtered, WriteAll;
    if !get {
      return None;
    }
    ghost var n := e.cache.AsNode();
    var all, order := e.cache.GetAllRecords();
    var kept := FilterRecords(all, nameFilter, typeFilter);
    assert ListedFrom(e.env, n.table, nameFilter, typeFilter, kept);
    e.cache.Interleave(between, now);
    var hash := e.cache.GetVersionHash();
    return Some(RecordsResponse(hash, |kept|, kept));
  }

  /** The same for a listing: no common state of records and hash exactly when no state before the
      last install had both, and no table since then could be listed like that. */
  lemma ListingTearsIff(
    env: Env, n: Node, x: seq<Write>, s: DNSSnapshot, log: seq<Batch>, nameFilter: string, typeFilter: string,
    records: seq<DNSRecord>)
    requires ListedFrom(env, n.table, nameFilter, typeFilter, records)
    ensures var gap, h := x + [Install(s)] + Landings(log), s.versionHash;
      && WriteAll(env, n, gap).hash == h
      && (!Held(env, n, gap, t => ListedFrom(env, t, nameFilter, typeFilter, records), h)
          <==>
          && !Held(env, n, x, t => ListedFrom(env, t, nameFilter, typeFilter, records), h)
          && forall j | 0 <= j <= |log| ::
               !ListedFrom(env, Apply(env, Build(env, s.records), log[..j]), nameFilter, typeFilter, records))
      && (NeverInstalls(x, h) ==>
            (Held(env, n, x, t => ListedFrom(env, t, nameFilter, typeFilter, records), h) <==> h == n.hash))
  {
    hide ListedFrom, Apply, Build, WriteAll, NeverInstalls, Held;
    TornIffNewInstall(env, n, x, s, log, t => ListedFrom(env, t, nameFilter, typeFilter, records));
  }

  lemma {:induction false} FilterByOtherType(records: seq<DNSRecord>, nameFilter: string, typeFilter: string)
    requires typeFilter != "" && forall r | r in records :: r.rtype != Upper(typeFilter)
    ensures Filtered(records, nameFilter, typeFilter) == []
  {
    hide Contains;
    if records != [] {
      FilterByOtherType(records[..|records| - 1], nameFilter, typeFilter);
      assert records[|records| - 1] in records;
    }
  }

  lemma UpperOfCname()
    ensures Upper("CNAME") == "CNAME" && |"CNAME"| == 5
  {
    UpperFixpoint("CNAME");
  }

  lemma LabelsAreShort(env: Env, k: Key, rrs: seq<RR>)
    requires rrs != []
    ensures |DumpEntry(env, k, rrs).rtype| <= 4
  {
    hide TrimDot, Printed;
  }

  /** A listing filtered by type CNAME is empty, whatever the cache holds: a CNAME entry is listed
      with no type at all. */
  lemma CnameFilterFindsNothing(env: Env, t: Table, order: seq<Key>, nameFilter: string)
    requires NonEmpty(t) && Enumerates(order, t)
    ensures Filtered(DumpInOrder(env, t, order), nameFilter, "CNAME") == []
  {
    hide DumpEntry, Upper, Filtered;
    var out := DumpInOrder(env, t, order);
    forall r | r in out
      ensures |r.rtype| <= 4
    {
      var i :| 0 <= i < |out| && out[i] == r;
      LabelsAreShort(env, order[i], t[order[i]]);
    }
    hide Enumerates, DumpInOrder;
    UpperOfCname();
    FilterByOtherType(out, nameFilter, "CNAME");
  }
}
