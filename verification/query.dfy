/** What a query is answered, against a linear scan of everything the cache was told. */
module Query {
  import opened Names
  import opened Records
  import opened Tables
  import opened Batches
  import opened Replica

  /** Handed to the next plugin, refused as non-existent, or answered. */
  datatype Answer = NextPlugin | NxDomain | Answered(rrs: seq<RR>)

  /** The name a query looks up. */
  function Sought(qname: string): string {
    NormalizeDomain(Lower(qname))
  }

  function Conclude(through: string -> bool, qname: string, rrs: seq<RR>): Answer {
    if rrs != [] then Answered(rrs)
    else if through(Lower(qname)) then NextPlugin
    else NxDomain
  }

  /** The decision of a query whose two locked reads see two tables. */
  function Respond(
    env: Env, through: string -> bool, first: Table, second: Table, qname: string, qtype: Uint16): Answer
  {
    if !InZone(env.zone, Lower(qname)) then NextPlugin
    else if qtype == TYPE_A || qtype == TYPE_AAAA then
      var cname := Lookup(first, Key(Sought(qname), TYPE_CNAME));
      Conclude(through, qname, if cname != [] then cname else Lookup(second, Key(Sought(qname), qtype)))
    else if qtype == TYPE_CNAME then
      Conclude(through, qname, Lookup(first, Key(Sought(qname), TYPE_CNAME)))
    else NextPlugin
  }

  /* ---------- the reference: scan the raw records and batches ---------- */

  /** The types that can answer a question, best first: an alias goes before an address
      (section 3.6.2 of RFC 1034). */
  function Candidates(qtype: Uint16): seq<Uint16> {
    if qtype == TYPE_A || qtype == TYPE_AAAA then [TYPE_CNAME, qtype]
    else if qtype == TYPE_CNAME then [TYPE_CNAME]
    else []
  }

  function FirstHit(env: Env, base: seq<DNSRecord>, log: seq<Batch>, name: string, qtypes: seq<Uint16>): seq<RR> {
    if qtypes == [] then []
    else
      var hit := ScanLog(env, base, log, Key(name, qtypes[0]));
      if hit != [] then hit else FirstHit(env, base, log, name, qtypes[1..])
  }

  function ScanServe(
    env: Env, through: string -> bool, base: seq<DNSRecord>, log: seq<Batch>, qname: string, qtype: Uint16): Answer
  {
    if !InZone(env.zone, Lower(qname)) || Candidates(qtype) == [] then NextPlugin
    else
      var hit := FirstHit(env, base, log, NormalizeDomain(Lower(qname)), Candidates(qtype));
      if |hit| > 0 then Answered(hit)
      else if through(Lower(qname)) then NextPlugin
      else NxDomain
  }

  lemma FirstHitOfOne(env: Env, base: seq<DNSRecord>, log: seq<Batch>, name: string, qtype: Uint16)
    ensures FirstHit(env, base, log, name, [qtype]) == ScanLog(env, base, log, Key(name, qtype))
  {
    hide ScanLog;
    assert [qtype][1..] == [];
    assert FirstHit(env, base, log, name, [qtype][1..]) == [];
  }

  /** The index refines the scan: with no writer between its reads, a query gets exactly what a
      linear scan of the installed records and the batches since would give. */
  lemma ServeRefinesScan(env: Env, through: string -> bool, n: Node, qname: string, qtype: Uint16)
    requires Coherent(env, n)
    ensures Respond(env, through, n.table, n.table, qname, qtype)
            == ScanServe(env, through, n.base, n.log, qname, qtype)
  {
    hide ScanLog, Apply, Build, InZone, NormalizeDomain, Lower, TableOk;
    var name := Sought(qname);
    IndexIsScan(env, n.base, n.log, Key(name, TYPE_CNAME));
    IndexIsScan(env, n.base, n.log, Key(name, qtype));
    FirstHitOfOne(env, n.base, n.log, name, qtype);
    var qtypes := Candidates(qtype);
    if |qtypes| == 2 {
      assert qtypes[1..] == [qtype];
    } else if |qtypes| == 1 {
      assert qtypes == [qtype];
    }
  }

  /* ---------- the exact meaning of each outcome ---------- */

  /** A query is answered with a list exactly when its name is in the zone and the list, not empty,
      is the CNAME entry at the first read, or, for an address query that found no CNAME, the entry
      of the type asked for at the second. */
  lemma AnsweredIff(
    env: Env, through: string -> bool, first: Table, second: Table, qname: string, qtype: Uint16, rrs: seq<RR>)
    ensures Respond(env, through, first, second, qname, qtype) == Answered(rrs) <==>
      var name := NormalizeDomain(Lower(qname));
      && InZone(env.zone, Lower(qname)) && rrs != []
      && (|| (qtype in {TYPE_A, TYPE_AAAA, TYPE_CNAME} && rrs == Lookup(first, Key(name, TYPE_CNAME)))
          || (&& qtype in {TYPE_A, TYPE_AAAA} && Lookup(first, Key(name, TYPE_CNAME)) == []
              && rrs == Lookup(second, Key(name, qtype))))
  {
    hide InZone, NormalizeDomain, Lower;
  }

  /** A query is handed on exactly when its name is not in the zone, its type is not served, or it
      found nothing and falls through. */
  lemma HandedOnIff(
    env: Env, through: string -> bool, first: Table, second: Table, qname: string, qtype: Uint16)
    ensures Respond(env, through, first, second, qname, qtype) == NextPlugin <==>
      var name := NormalizeDomain(Lower(qname));
      || !InZone(env.zone, Lower(qname)) || qtype !in {TYPE_A, TYPE_AAAA, TYPE_CNAME}
      || (&& through(Lower(qname)) && Lookup(first, Key(name, TYPE_CNAME)) == []
          && (qtype != TYPE_CNAME ==> Lookup(second, Key(name, qtype)) == []))
  {
    hide InZone, NormalizeDomain, Lower;
  }

  /* ---------- zone ---------- */

  /** Every answer is about the name asked for, with positive TTLs, and that name is inside the zone
      label by label; what the byte-suffix admission lets in beyond that is never served. */
  lemma AnswersStayInZone(env: Env, through: string -> bool, first: Table, second: Table, qname: string, qtype: Uint16)
    requires Normal(env.zone) && TableOk(env, first) && TableOk(env, second)
    ensures var a := Respond(env, through, first, second, qname, qtype);
      a.Answered? ==>
        && InZone(env.zone, Sought(qname))
        && (forall rr | rr in a.rrs :: rr.owner == Sought(qname))
        && (env.defaultTTL > 0 ==> forall rr | rr in a.rrs :: rr.ttl > 0)
  {
    hide InZone, NormalizeDomain, Lower, Normal, HasSuffix;
    if InZone(env.zone, Lower(qname)) {
      GateSurvivesNormalize(env.zone, qname);
    }
    var c, k := Key(Sought(qname), TYPE_CNAME), Key(Sought(qname), qtype);
    assert c in first ==> CellOk(env, c, first[c]);
    assert k in second ==> CellOk(env, k, second[k]);
  }

  /** No record about a servable name is dropped for its zone. */
  lemma ServableIsAdmitted(env: Env, record: DNSRecord)
    requires Fqdn(env.zone) && InZone(env.zone, NormalizeDomain(record.name))
    ensures Admitted(env.zone, NormalizeDomain(record.name))
    ensures CellOf(env, record).None? <==> !(Built(env, record).Ok? && Built(env, record).value != [])
  {
    InZoneIsAdmitted(env.zone, NormalizeDomain(record.name));
    hide NormalizeDomain, InZone, HasSuffix, Built;
  }

  /* ---------- torn reads ---------- */

  /** What one write says about a key: a snapshot, what all its records for the key contribute; an
      update, what the last of its records for the key contributes; a deletion, that it is gone. */
  function Says(env: Env, w: Write, k: Key): Touch {
    match w
    case Install(s) => Now(Scan(CellsOf(env, s.records), k))
    case Land(b) => TouchOf(EditOf(env, b), k)
  }

  /** After the i-th write no other says anything about the key. */
  predicate LastWord(env: Env, ws: seq<Write>, i: nat, k: Key)
    requires i < |ws|
  {
    forall j | i < j < |ws| :: Says(env, ws[j], k) == Untouched
  }

  lemma WriteSays(env: Env, n: Node, w: Write, k: Key)
    ensures Lookup(WriteTo(env, n, w).table, k) == Resolve(Says(env, w, k), Lookup(n.table, k))
  {
    match w {
      case Install(s) => LoadIsScan(CellsOf(env, s.records), k);
      case Land(Updates(records)) =>
        CellsOfOk(env, records);
        PatchIsLastShare(n.table, CellsOf(env, records), k);
      case Land(Deletes(deletes)) => RemoveIsMembership(n.table, KeysOf(deletes), k);
    }
  }

  /** Every entry of a reachable cache is one write's own, never a mix of two, and that write is the
      last one to say anything about its key. */
  lemma {:induction false} EntryIsWhole(env: Env, ws: seq<Write>, k: Key) returns (i: nat)
    requires Lookup(WriteAll(env, EMPTY, ws).table, k) != []
    ensures i < |ws| && LastWord(env, ws, i, k)
    ensures Says(env, ws[i], k) == Now(Lookup(WriteAll(env, EMPTY, ws).table, k))
  {
    hide Says, WriteTo;
    var front, last := ws[..|ws| - 1], ws[|ws| - 1];
    WriteSays(env, WriteAll(env, EMPTY, front), last, k);
    if Says(env, last, k).Now? {
      i := |ws| - 1;
    } else {
      i := EntryIsWhole(env, front, k);
      assert forall j | i < j < |front| :: ws[j] == front[j];
    }
  }

  /** The list is the entry of the table after these writes, and all of it comes from the last of
      them to say anything about the key. */
  predicate WholeEntry(env: Env, ws: seq<Write>, k: Key, rrs: seq<RR>) {
    && rrs == Lookup(WriteAll(env, EMPTY, ws).table, k)
    && exists i: nat | i < |ws| :: Says(env, ws[i], k) == Now(rrs) && LastWord(env, ws, i, k)
  }

  /** Whatever is written between the two reads of a query, a positive answer is one whole entry of
      a table held during the query: the CNAMEs of the table at the first read, or else the
      addresses of the table at the second; and it is what the last write about that key said. */
  lemma UntornPositives(
    env: Env, through: string -> bool, before: seq<Write>, between: seq<Write>, qname: string, qtype: Uint16)
    ensures var a := Respond(env, through, WriteAll(env, EMPTY, before).table,
                             WriteAll(env, EMPTY, before + between).table, qname, qtype);
      var c, k := Key(Sought(qname), TYPE_CNAME), Key(Sought(qname), qtype);
      a.Answered? ==>
        || WholeEntry(env, before, c, a.rrs)
        || (&& Lookup(WriteAll(env, EMPTY, before).table, c) == []
            && AsksAddress(qtype) && WholeEntry(env, before + between, k, a.rrs))
  {
    hide Says, LastWord, WriteAll, InZone, NormalizeDomain, Lower;
    var first, second := WriteAll(env, EMPTY, before).table, WriteAll(env, EMPTY, before + between).table;
    var a := Respond(env, through, first, second, qname, qtype);
    if a.Answered? {
      var c, k := Key(Sought(qname), TYPE_CNAME), Key(Sought(qname), qtype);
      if Lookup(first, c) != [] {
        var i := EntryIsWhole(env, before, c);
      } else {
        var i := EntryIsWhole(env, before + between, k);
      }
    }
  }

  predicate AsksAddress(qtype: Uint16) {
    qtype == TYPE_A || qtype == TYPE_AAAA
  }

  /** What a refusal certifies: no CNAME at the first read, and no address at the second. */
  lemma RefusalCertifies(env: Env, through: string -> bool, first: Table, second: Table, qname: string, qtype: Uint16)
    requires TableOk(env, first) && TableOk(env, second)
    ensures Respond(env, through, first, second, qname, qtype) == NxDomain <==>
      && InZone(env.zone, Lower(qname)) && !through(Lower(qname)) && Candidates(qtype) != []
      && Key(Sought(qname), TYPE_CNAME) !in first
      && (AsksAddress(qtype) ==> Key(Sought(qname), qtype) !in second)
  {
    hide InZone, NormalizeDomain, Lower;
    var c, k := Key(Sought(qname), TYPE_CNAME), Key(Sought(qname), qtype);
    assert c in first ==> CellOk(env, c, first[c]);
    assert k in second ==> CellOk(env, k, second[k]);
    hide CellOk;
  }

  /** A refusal can be false of both tables, exactly when between the reads the name switches from
      addresses to a failover CNAME. */
  lemma TornRefusal(env: Env, through: string -> bool, first: Table, second: Table, qname: string, qtype: Uint16)
    requires TableOk(env, first) && TableOk(env, second)
    ensures
      (&& Respond(env, through, first, second, qname, qtype) == NxDomain
       && Respond(env, through, first, first, qname, qtype) != NxDomain
       && Respond(env, through, second, second, qname, qtype) != NxDomain)
      <==>
      var c, k := Key(Sought(qname), TYPE_CNAME), Key(Sought(qname), qtype);
      && InZone(env.zone, Lower(qname)) && !through(Lower(qname)) && AsksAddress(qtype)
      && c !in first && k in first && c in second && k !in second
  {
    RefusalCertifies(env, through, first, second, qname, qtype);
    RefusalCertifies(env, through, first, first, qname, qtype);
    RefusalCertifies(env, through, second, second, qname, qtype);
    hide Respond, InZone, NormalizeDomain, Lower, TableOk;
  }

  /** One failover notify, an update to a CNAME and the deletion of the addresses, is enough for a
      false refusal when both its mutations land between the two reads. */
  lemma FailoverNotifyTears(
    env: Env, through: string -> bool, n: Node, c: DNSRecord, d: DeleteRecord, qname: string, qtype: Uint16)
    requires Coherent(env, n)
    requires InZone(env.zone, Lower(qname)) && !through(Lower(qname)) && AsksAddress(qtype)
    requires Key(Sought(qname), TYPE_CNAME) !in n.table && Key(Sought(qname), qtype) in n.table
    requires CellOf(env, c).Some? && CellOf(env, c).value.key == Key(Sought(qname), TYPE_CNAME)
    requires DeleteKey(d) == Some(Key(Sought(qname), qtype))
    ensures var m := WriteTo(env, WriteTo(env, n, Land(Updates([c]))), Land(Deletes([d])));
      && Respond(env, through, n.table, m.table, qname, qtype) == NxDomain
      && Respond(env, through, n.table, n.table, qname, qtype) != NxDomain
      && Respond(env, through, m.table, m.table, qname, qtype) != NxDomain
  {
    hide CellOf, DeleteKey, Respond, InZone, NormalizeDomain, Lower, TableOk, WriteTo, Coherent;
    SingleNotify(env, n, c, d);
    TwoWritesOk(env, n, Land(Updates([c])), Land(Deletes([d])));
    var m := WriteTo(env, WriteTo(env, n, Land(Updates([c]))), Land(Deletes([d])));
    TornRefusal(env, through, n.table, m.table, qname, qtype);
  }

  lemma TwoWritesOk(env: Env, n: Node, w1: Write, w2: Write)
    requires Coherent(env, n)
    ensures TableOk(env, n.table) && TableOk(env, WriteTo(env, WriteTo(env, n, w1), w2).table)
  {
    WriteCoherent(env, n, w1);
    WriteCoherent(env, WriteTo(env, n, w1), w2);
    hide WriteTo, TableOk, Apply, Build;
  }

  lemma SingleNotify(env: Env, n: Node, c: DNSRecord, d: DeleteRecord)
    ensures WriteTo(env, WriteTo(env, n, Land(Updates([c]))), Land(Deletes([d]))).table
            == RemoveKey(PutCell(n.table, CellOf(env, c)), DeleteKey(d))
  {
    hide CellOf, DeleteKey, PutCell, RemoveKey;
    PatchSingle(n.table, CellsOf(env, [c]));
    RemoveSingle(Patch(n.table, CellsOf(env, [c])), KeysOf([d]));
  }

  lemma PatchSingle(t: Table, cells: Cells)
    requires |cells| == 1
    ensures Patch(t, cells) == PutCell(t, cells[0])
  {
    assert cells[..0] == [];
  }

  lemma RemoveSingle(t: Table, keys: seq<Option<Key>>)
    requires |keys| == 1
    ensures Remove(t, keys) == RemoveKey(t, keys[0])
  {
    assert keys[..0] == [];
  }

  /* ---------- failover ---------- */

  /** A name in failover answers A, AAAA and CNAME questions with its CNAMEs, and goes on doing so
      through any webhook batches. */
  lemma FailoverPersists(env: Env, through: string -> bool, t: Table, log: seq<Batch>, qname: string, qtype: Uint16)
    requires TableOk(env, t) && HoldsCname(t, Sought(qname))
    requires InZone(env.zone, Lower(qname)) && Candidates(qtype) != []
    ensures var u := Apply(env, t, log);
      var a := Respond(env, through, u, u, qname, qtype);
      a.Answered? && forall rr: RR | rr in a.rrs :: rr.CNAME?
  {
    CnamePersists(env, t, log, Sought(qname));
    EditsOfOk(env, log);
    ApplyEditsOk(env, t, EditsOf(env, log));
    hide InZone, NormalizeDomain, Lower, EditsOf, ApplyEdits, EditsOk, SolidEdits;
    var u, c := Apply(env, t, log), Key(Sought(qname), TYPE_CNAME);
    assert CellOk(env, c, u[c]);
    forall rr: RR | rr in u[c]
      ensures rr.CNAME?
    {
      assert Fits(env, rr, c.name, c.qtype);
    }
  }
}
