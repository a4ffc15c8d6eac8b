/** Listing the cache as controller records, and what loading the listing back restores. */
module Dump {
  import opened Names
  import opened Records
  import opened Tables
  import opened Batches

  /** The type an entry is listed with; a CNAME has none. */
  function TypeLabel(qtype: Uint16): string {
    if qtype == TYPE_A || qtype == TYPE_AAAA then TypeName(qtype) else ""
  }

  /** The addresses of an entry, printed; a CNAME prints nothing. */
  function Printed(env: Env, rrs: seq<RR>): seq<string> {
    if rrs == [] then []
    else
      var last := rrs[|rrs| - 1];
      Printed(env, rrs[..|rrs| - 1]) + if last.CNAME? then [] else [env.format(last.address)]
  }

  /** The record listed for one entry: its TTL is the last one met. */
  function DumpEntry(env: Env, k: Key, rrs: seq<RR>): DNSRecord
    requires rrs != []
  {
    DNSRecord(TrimDot(k.name), TypeLabel(k.qtype), rrs[|rrs| - 1].ttl, Printed(env, rrs), "")
  }

  /** The order visits each key of the table once. */
  ghost predicate Enumerates(order: seq<Key>, t: Table) {
    && (forall k :: k in order <==> k in t)
    && forall i, j | 0 <= i < j < |order| :: order[i] != order[j]
  }

  function DumpInOrder(env: Env, t: Table, order: seq<Key>): (out: seq<DNSRecord>)
    requires NonEmpty(t) && forall k | k in order :: k in t
    ensures |out| == |order|
    ensures forall i | 0 <= i < |order| :: out[i] == DumpEntry(env, order[i], t[order[i]])
  {
    seq(|order|, i requires 0 <= i < |order| => DumpEntry(env, order[i], t[order[i]]))
  }

  function AddressPart(t: Table): Table {
    map k | k in t && k.qtype != TYPE_CNAME :: t[k]
  }

  predicate OneTTL(rrs: seq<RR>) {
    forall x, y | x in rrs && y in rrs :: x.ttl == y.ttl
  }

  /** The parser reads back what the printer writes. */
  ghost predicate RoundTrips(env: Env) {
    forall a: Address :: env.parse(env.format(a)) == Some(a)
  }

  function Retime(rr: RR, ttl: Uint32): RR {
    match rr
    case A(o, _, a) => A(o, ttl, a)
    case AAAA(o, _, a) => AAAA(o, ttl, a)
    case CNAME(o, _, t) => CNAME(o, ttl, t)
  }

  function RetimeAll(rrs: seq<RR>, ttl: Uint32): (out: seq<RR>)
    ensures |out| == |rrs|
    ensures forall i | 0 <= i < |rrs| :: out[i] == Retime(rrs[i], ttl)
  {
    seq(|rrs|, i requires 0 <= i < |rrs| => Retime(rrs[i], ttl))
  }

  lemma UsableAgain(env: Env, name: string, qtype: Uint16, rr: RR, ttl: Uint32)
    requires qtype == TYPE_A || qtype == TYPE_AAAA
    requires Fits(env, rr, name, qtype)
    ensures !rr.CNAME? && Usable(Some(rr.address), name, ttl, qtype) == [Retime(rr, ttl)]
  {
  }

  lemma {:induction false} PrintedParses(env: Env, name: string, qtype: Uint16, rrs: seq<RR>, ttl: Uint32)
    requires RoundTrips(env)
    requires qtype == TYPE_A || qtype == TYPE_AAAA
    requires forall rr | rr in rrs :: Fits(env, rr, name, qtype)
    ensures AllUsable(env.parse, name, ttl, qtype, Printed(env, rrs)) == RetimeAll(rrs, ttl)
  {
    if rrs != [] {
      var front, last := rrs[..|rrs| - 1], rrs[|rrs| - 1];
      PrintedParses(env, name, qtype, front, ttl);
      assert last in rrs;
      UsableAgain(env, name, qtype, last, ttl);
      hide Fits, Usable, Retime;
      var texts, text := Printed(env, front), env.format(last.address);
      assert env.parse(text) == Some(last.address);
      assert (texts + [text])[..|texts|] == texts;
      assert RetimeAll(rrs, ttl) == RetimeAll(front, ttl) + [Retime(last, ttl)];
    }
  }

  lemma RetimeUniform(rrs: seq<RR>)
    requires rrs != []
    ensures RetimeAll(rrs, rrs[|rrs| - 1].ttl) == rrs <==> OneTTL(rrs)
  {
    var ttl := rrs[|rrs| - 1].ttl;
    if RetimeAll(rrs, ttl) == rrs {
      forall rr | rr in rrs
        ensures rr.ttl == ttl
      {
        var i :| 0 <= i < |rrs| && rrs[i] == rr;
      }
    }
  }

  lemma {:induction false} PrintedCname(env: Env, rrs: seq<RR>)
    requires forall rr | rr in rrs :: rr.CNAME?
    ensures Printed(env, rrs) == []
  {
    if rrs != [] {
      PrintedCname(env, rrs[..|rrs| - 1]);
    }
  }

  lemma {:induction false} PrintedEach(env: Env, rrs: seq<RR>)
    requires forall rr | rr in rrs :: !rr.CNAME?
    ensures |Printed(env, rrs)| == |rrs|
    ensures forall i | 0 <= i < |rrs| :: Printed(env, rrs)[i] == env.format(rrs[i].address)
  {
    if rrs != [] {
      var front, last := rrs[..|rrs| - 1], rrs[|rrs| - 1];
      assert last in rrs;
      PrintedEach(env, front);
    }
  }

  /** How an entry is listed: its name without the final dot, its type and each of its addresses in
      order; a CNAME without type, addresses or target. */
  lemma ListedAs(env: Env, k: Key, rrs: seq<RR>)
    requires CellOk(env, k, rrs)
    ensures var d := DumpEntry(env, k, rrs);
      && d.name + "." == k.name
      && d.ttl == rrs[|rrs| - 1].ttl && d.failover == ""
      && d.rtype == (if k.qtype == TYPE_A then "A" else if k.qtype == TYPE_AAAA then "AAAA" else "")
      && (k.qtype == TYPE_CNAME ==> d.ips == [])
      && (k.qtype != TYPE_CNAME ==>
            |d.ips| == |rrs| && forall i | 0 <= i < |rrs| :: !rrs[i].CNAME? && d.ips[i] == env.format(rrs[i].address))
  {
    forall rr | rr in rrs
      ensures rr.CNAME? <==> k.qtype == TYPE_CNAME
    {
      assert Fits(env, rr, k.name, k.qtype);
    }
    if k.qtype == TYPE_CNAME {
      PrintedCname(env, rrs);
    } else {
      PrintedEach(env, rrs);
    }
    hide CellOk, Printed;
    assert k.name[..|k.name| - 1] + "." == k.name;
  }

  /** What a listed entry becomes when it is read back. */
  function Restored(k: Key, rrs: seq<RR>): Option<Cell>
    requires rrs != []
  {
    if k.qtype == TYPE_CNAME then None else Some(Cell(k, RetimeAll(rrs, rrs[|rrs| - 1].ttl)))
  }

  lemma DumpBuilt(env: Env, k: Key, rrs: seq<RR>)
    requires RoundTrips(env) && CellOk(env, k, rrs)
    requires NormalizeDomain(TrimDot(k.name)) == k.name
    ensures Built(env, DumpEntry(env, k, rrs)) ==
            if k.qtype == TYPE_CNAME then Ok([]) else Ok(RetimeAll(rrs, rrs[|rrs| - 1].ttl))
  {
    hide NormalizeDomain, Normal, HasSuffix, AddressType, TypeLabel;
    var last := rrs[|rrs| - 1];
    assert last in rrs;
    assert Fits(env, last, k.name, k.qtype);
    if k.qtype == TYPE_CNAME {
      assert forall rr | rr in rrs :: Fits(env, rr, k.name, k.qtype);
      PrintedCname(env, rrs);
    } else {
      PrintedParses(env, k.name, k.qtype, rrs, last.ttl);
      LabelType(k.qtype);
    }
  }

  lemma ReadBack(env: Env, k: Key, rrs: seq<RR>)
    requires RoundTrips(env) && WellFormedZone(env.zone) && CellOk(env, k, rrs)
    ensures CellOf(env, DumpEntry(env, k, rrs)) == Restored(k, rrs)
  {
    NameRecoveryInZone(env.zone, k.name);
    hide NormalizeDomain, Normal, HasSuffix, TrimDot, TypeLabel, Printed;
    DumpBuilt(env, k, rrs);
    hide Built;
    if k.qtype != TYPE_CNAME {
      assert Fits(env, rrs[0], k.name, k.qtype);
      assert RetimeAll(rrs, rrs[|rrs| - 1].ttl)[0] == Retime(rrs[0], rrs[|rrs| - 1].ttl);
    }
  }

  lemma LabelType(qtype: Uint16)
    requires qtype == TYPE_A || qtype == TYPE_AAAA
    ensures AddressType(TypeLabel(qtype)) == Some(qtype)
  {
    UpperFixpoint("A");
    UpperFixpoint("AAAA");
  }

  /** The cells read back from a listing. */
  function RestoredCells(t: Table, order: seq<Key>): (cells: Cells)
    requires NonEmpty(t) && forall k | k in order :: k in t
    ensures |cells| == |order|
    ensures forall i | 0 <= i < |order| :: cells[i] == Restored(order[i], t[order[i]])
  {
    seq(|order|, i requires 0 <= i < |order| => Restored(order[i], t[order[i]]))
  }

  lemma RestoredDistinct(t: Table, order: seq<Key>)
    requires NonEmpty(t) && Enumerates(order, t)
    ensures Solid(RestoredCells(t, order)) && DistinctKeys(RestoredCells(t, order))
  {
    hide RetimeAll;
  }

  /** What the loaded listing holds under a key. */
  function RestoredAt(t: Table, k: Key): seq<RR> {
    if k in t && k.qtype != TYPE_CNAME && t[k] != [] then RetimeAll(t[k], t[k][|t[k]| - 1].ttl) else []
  }

  lemma RestoredLookup(t: Table, order: seq<Key>, k: Key)
    requires NonEmpty(t) && Enumerates(order, t)
    ensures Lookup(Load(RestoredCells(t, order)), k) == RestoredAt(t, k)
  {
    hide RetimeAll, Load;
    var cells := RestoredCells(t, order);
    RestoredDistinct(t, order);
    if k in t && k.qtype != TYPE_CNAME {
      var i :| 0 <= i < |order| && order[i] == k;
      LoadAt(cells, i);
    } else {
      LoadIsScan(cells, k);
      ScanNonEmpty(cells, k);
    }
  }

  predicate OneTTLEach(t: Table) {
    forall k | k in t && k.qtype != TYPE_CNAME :: OneTTL(t[k])
  }

  lemma RestoredIffOneTTL(t: Table, back: Table)
    requires NonEmpty(t) && NonEmpty(back)
    requires forall k :: Lookup(back, k) == RestoredAt(t, k)
    ensures back == AddressPart(t) <==> OneTTLEach(t)
  {
    hide OneTTL, RetimeAll;
    var kept := AddressPart(t);
    forall k
      ensures Lookup(back, k) == Lookup(kept, k) <==> k in t && k.qtype != TYPE_CNAME ==> OneTTL(t[k])
    {
      assert Lookup(back, k) == RestoredAt(t, k);
      if k in t {
        RetimeUniform(t[k]);
      }
    }
    if OneTTLEach(t) {
      SameLookups(back, kept);
    }
  }

  /** Dumping the cache in any order and loading the dump restores the address part of the cache
      exactly when no address entry mixes TTLs. CNAMEs are never restored. */
  lemma RoundTrip(env: Env, t: Table, order: seq<Key>)
    requires RoundTrips(env) && WellFormedZone(env.zone)
    requires TableOk(env, t) && NonEmpty(t) && Enumerates(order, t)
    ensures Build(env, DumpInOrder(env, t, order)) == AddressPart(t)
            <==> forall k | k in t && k.qtype != TYPE_CNAME :: OneTTL(t[k])
  {
    var cells := RestoredCells(t, order);
    DumpCells(env, t, order);
    RestoredDistinct(t, order);
    LoadNonEmpty(cells);
    forall k
      ensures Lookup(Load(cells), k) == RestoredAt(t, k)
    {
      RestoredLookup(t, order, k);
    }
    RestoredIffOneTTL(t, Load(cells));
    hide CellsOf, DumpInOrder, RestoredCells, TableOk;
  }

  lemma DumpCells(env: Env, t: Table, order: seq<Key>)
    requires RoundTrips(env) && WellFormedZone(env.zone)
    requires TableOk(env, t) && NonEmpty(t) && Enumerates(order, t)
    ensures CellsOf(env, DumpInOrder(env, t, order)) == RestoredCells(t, order)
  {
    var out := DumpInOrder(env, t, order);
    forall i | 0 <= i < |order|
      ensures CellOf(env, out[i]) == Restored(order[i], t[order[i]])
    {
      ReadBack(env, order[i], t[order[i]]);
    }
  }

  /** A listing in progress: everything but what is left has been listed once, in order. */
  ghost predicate Listing(env: Env, t: Table, left: Table, order: seq<Key>, out: seq<DNSRecord>) {
    && NonEmpty(t)
    && (forall k :: k in order <==> k in t && k !in left)
    && (forall k | k in left :: k in t && left[k] == t[k])
    && (forall i, j | 0 <= i < j < |order| :: order[i] != order[j])
    && out == DumpInOrder(env, t, order)
  }

  lemma ListingStep(env: Env, t: Table, left: Table, order: seq<Key>, out: seq<DNSRecord>, k: Key)
    requires Listing(env, t, left, order, out) && k in left
    ensures k in t && Listing(env, t, left - {k}, order + [k], out + [DumpEntry(env, k, left[k])])
  {
    hide DumpEntry;
    forall j
      ensures j in order + [k] <==> j in t && j !in left - {k}
    {
    }
    assert out + [DumpEntry(env, k, left[k])] == DumpInOrder(env, t, order + [k]);
  }

  lemma ListingDone(env: Env, t: Table, order: seq<Key>, out: seq<DNSRecord>)
    requires Listing(env, t, map[], order, out)
    ensures Enumerates(order, t) && NonEmpty(t)
    ensures out == DumpInOrder(env, t, order)
    ensures forall k | k in t :: DumpEntry(env, k, t[k]) in out
  {
    hide DumpEntry;
    forall k | k in t
      ensures DumpEntry(env, k, t[k]) in out
    {
      var i :| 0 <= i < |order| && order[i] == k;
      assert out[i] == DumpEntry(env, k, t[k]);
    }
  }
}
