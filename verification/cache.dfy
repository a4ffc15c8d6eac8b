/** The record cache: a two-level map, kept in step with its flat view. */
module Cache {
  import opened Names
  import opened Records
  import opened Tables
  import opened Batches
  import opened Replica
  import opened Dump

  type Inner = map<Uint16, seq<RR>>

  type Nested = map<string, Inner>

  /** The nested map and the flat table hold the same entries. */
  ghost predicate Agrees(m: Nested, t: Table) {
    && (forall k: Key :: k in t <==> k.name in m && k.qtype in m[k.name])
    && (forall k: Key | k in t :: t[k] == m[k.name][k.qtype])
  }

  predicate NoEmptyInner(m: Nested) {
    forall d | d in m :: m[d] != map[]
  }

  function InnerOf(m: Nested, d: string): Inner {
    if d in m then m[d] else map[]
  }

  lemma AgreesAt(m: Nested, t: Table, k: Key)
    requires Agrees(m, t) && k.name in m && k.qtype in m[k.name]
    ensures k in t && t[k] == m[k.name][k.qtype]
  {
  }

  lemma AgreesEmpty(t: Table)
    requires Agrees(map[], t)
    ensures t == map[] && Size(t) == 0
  {
    assert t == map[];
  }

  lemma AgreesSet(m: Nested, t: Table, k: Key, rrs: seq<RR>)
    requires Agrees(m, t) && NoEmptyInner(m)
    ensures Agrees(m[k.name := InnerOf(m, k.name)[k.qtype := rrs]], t[k := rrs])
    ensures NoEmptyInner(m[k.name := InnerOf(m, k.name)[k.qtype := rrs]])
  {
    assert k.qtype in InnerOf(m, k.name)[k.qtype := rrs];
  }

  lemma AgreesShrink(m: Nested, t: Table, k: Key)
    requires Agrees(m, t) && k.name in m
    ensures Agrees(m[k.name := m[k.name] - {k.qtype}], t - {k})
  {
  }

  lemma AgreesPrune(m: Nested, t: Table, d: string)
    requires d in m && m[d] == map[] && Agrees(m, t)
    ensures Agrees(m - {d}, t)
  {
  }

  lemma CoherentNonEmpty(env: Env, n: Node)
    requires Coherent(env, n)
    ensures NonEmpty(n.table)
  {
    assert forall k | k in n.table :: CellOk(env, k, n.table[k]);
  }

  lemma ListingHeld(env: Env, t: Table, left: Table, order: seq<Key>, out: seq<DNSRecord>, k: Key)
    requires Listing(env, t, left, order, out) && k in left
    ensures left[k] != []
  {
  }

  /** Deleting an inner entry, and its domain when nothing is left of it. */
  function DropInner(m: Nested, k: Key): Nested {
    if k.name !in m then m
    else if |m[k.name] - {k.qtype}| == 0 then m - {k.name}
    else m[k.name := m[k.name] - {k.qtype}]
  }

  lemma AgreesDrop(m: Nested, t: Table, k: Key)
    requires Agrees(m, t) && NoEmptyInner(m)
    ensures Agrees(DropInner(m, k), t - {k}) && NoEmptyInner(DropInner(m, k))
  {
    if k.name in m {
      var inner := m[k.name] - {k.qtype};
      AgreesShrink(m, t, k);
      if |inner| == 0 {
        AgreesPrune(m[k.name := inner], t - {k}, k.name);
        assert m[k.name := inner] - {k.name} == m - {k.name};
      }
    } else {
      assert t - {k} == t;
    }
  }

  /** The common front of both loops: normalise, admit, build. */
  method Decode(env: Env, record: DNSRecord) returns (cell: Option<Cell>)
    ensures cell == CellOf(env, record)
  {
    var domain := NormalizeDomain(record.name);
    if !HasSuffix(domain, env.zone) && domain != env.zone {
      return None;
    }
    var built := BuildDNSRecords(env, record);
    if built.Err? {
      return None;
    }
    if |built.value| == 0 {
      return None;
    }
    return Some(Cell(Key(domain, built.value[0].Type()), built.value));
  }

  datatype CacheError = SnapshotIsNil

  class RecordCache {
    const env: Env
    var versionHash: string
    var updatedAt: int
    var records: Nested
    var publishedSize: nat
    ghost var view: Table
    ghost var base: seq<DNSRecord>
    ghost var log: seq<Batch>

    ghost function AsNode(): Node
      reads this
    {
      Node(view, versionHash, base, log)
    }

    ghost predicate Indexed()
      reads this
    {
      Agrees(records, view) && NoEmptyInner(records)
    }

    ghost predicate Valid()
      reads this
    {
      && Indexed()
      && Coherent(env, AsNode())
      && publishedSize == Size(view)
    }

    constructor (env: Env)
      ensures Valid() && this.env == env && AsNode() == EMPTY
    {
      this.env := env;
      versionHash, updatedAt, records, publishedSize := "", 0, map[], 0;
      view, base, log := map[], [], [];
      EmptyCoherent(env);
    }

    /** The nested sum, taken in whatever order the maps are iterated. */
    method RRCount() returns (count: nat)
      requires Indexed()
      ensures count == Size(view)
    {
      hide Agrees, Size;
      count := 0;
      var domains := records;
      ghost var left := view;
      while domains != map[]
        invariant Agrees(domains, left)
        invariant count + Size(left) == Size(view)
        decreases |domains|
      {
        var d :| d in domains;
        var part;
        part, left := CountDomain(domains, d, left);
        count := count + part;
        domains := domains - {d};
      }
      AgreesEmpty(left);
    }

    /** Recounts the nested map and publishes the total. */
    method UpdateCacheSizeMetric() returns (count: nat)
      requires Indexed()
      modifies this`publishedSize
      ensures count == publishedSize == Size(view)
    {
      count := RRCount();
      publishedSize := count;
    }

    method GetVersionHash() returns (hash: string)
      ensures hash == AsNode().hash
    {
      hash := versionHash;
    }

    method Get(qname: string, qtype: Uint16) returns (rrs: seq<RR>)
      requires Indexed()
      ensures rrs == Lookup(view, Key(NormalizeDomain(qname), qtype))
    {
      var domain := NormalizeDomain(qname);
      assert Key(domain, qtype) in view <==> domain in records && qtype in records[domain];
      if domain !in records {
        return [];
      }
      var qtypeMap := records[domain];
      if qtype !in qtypeMap {
        return [];
      }
      return qtypeMap[qtype];
    }

    /** The locked part of a load: table, hash and time change together. */
    method InstallBuilt(newRecords: Nested, snapshot: DNSSnapshot, now: int) returns (count: nat)
      requires Valid()
      requires Agrees(newRecords, Build(env, snapshot.records)) && NoEmptyInner(newRecords)
      modifies this
      ensures Valid()
      ensures AsNode() == WriteTo(env, old(AsNode()), Install(snapshot))
      ensures updatedAt == now
      ensures count == publishedSize == Size(Build(env, snapshot.records))
    {
      hide Agrees, NoEmptyInner, Coherent, Size, Build;
      WriteCoherent(env, AsNode(), Install(snapshot));
      records := newRecords;
      versionHash := snapshot.versionHash;
      updatedAt := now;
      view, base, log := Build(env, snapshot.records), snapshot.records, [];
      count := UpdateCacheSizeMetric();
    }

    /** Builds a table outside the lock, then installs it with its hash under the lock. */
    method ReplaceFromSnapshot(snapshot: Option<DNSSnapshot>, now: int) returns (result: Result<(nat, nat), CacheError>)
      requires Valid()
      modifies this
      ensures Valid()
      ensures snapshot.None? ==>
        result == Err(SnapshotIsNil) && AsNode() == old(AsNode()) && updatedAt == old(updatedAt)
      ensures snapshot.Some? ==>
        && AsNode() == WriteTo(env, old(AsNode()), Install(snapshot.value))
        && updatedAt == now
        && result.Ok?
        && result.value.0 == LoadedCount(CellsOf(env, snapshot.value.records))
        && result.value.0 + result.value.1 == |snapshot.value.records|
        && publishedSize == BuiltLength(CellsOf(env, snapshot.value.records))
    {
      hide Valid, WriteTo, CellsOf, Build, Size, BuiltLength, LoadedCount;
      if snapshot.None? {
        return Err(SnapshotIsNil);
      }
      var newRecords, loaded, skipped := LoadNested(env, snapshot.value.records);
      var _ := InstallBuilt(newRecords, snapshot.value, now);
      BuildConserves(env, snapshot.value.records);
      return Ok((loaded, skipped));
    }

    /** Overwrites the entry of one cell. */
    method Store(cell: Option<Cell>)
      requires Indexed()
      modifies this`records, this`view
      ensures Indexed() && view == PutCell(old(view), cell)
    {
      if cell.Some? {
        var k := cell.value.key;
        AgreesSet(records, view, k, cell.value.rrs);
        records := records[k.name := InnerOf(records, k.name)[k.qtype := cell.value.rrs]];
        view := view[k := cell.value.rrs];
      }
    }

    /** Merges records in place, replacing what each key held. */
    method Update(updates: seq<DNSRecord>, now: int)
      requires Valid()
      modifies this
      ensures Valid()
      ensures AsNode() == WriteTo(env, old(AsNode()), Land(Updates(updates)))
      ensures updatedAt == if updates == [] then old(updatedAt) else now
    {
      hide Coherent, Agrees, NoEmptyInner, Size, CellOf;
      WriteCoherent(env, AsNode(), Land(Updates(updates)));
      log := log + [Updates(updates)];
      if |updates| == 0 {
        return;
      }
      ghost var before, cells := view, CellsOf(env, updates);
      for i := 0 to |updates|
        invariant Indexed()
        invariant view == Patch(before, cells[..i])
        modifies `records, `view
      {
        assert cells[..i + 1][..i] == cells[..i];
        var cell := Decode(env, updates[i]);
        Store(cell);
      }
      assert cells[..|updates|] == cells;
      updatedAt := now;
      var _ := UpdateCacheSizeMetric();
    }

    /** Removes one address entry in place, pruning its domain when that leaves it empty. */
    method DeleteOne(del: DeleteRecord)
      requires Indexed()
      modifies this`records, this`view
      ensures Indexed() && view == RemoveKey(old(view), DeleteKey(del))
    {
      hide Agrees, NoEmptyInner, NormalizeDomain, Upper;
      var domain := NormalizeDomain(del.name);
      var rtype := Upper(del.rtype);
      var qtype: Uint16;
      if rtype == "A" {
        qtype := TYPE_A;
      } else if rtype == "AAAA" {
        qtype := TYPE_AAAA;
      } else {
        return;
      }
      AgreesDrop(records, view, Key(domain, qtype));
      view := view - {Key(domain, qtype)};
      if domain !in records {
        return;
      }
      var qtypeMap := records[domain] - {qtype};
      if |qtypeMap| == 0 {
        records := records - {domain};
      } else {
        records := records[domain := qtypeMap];
      }
    }

    method Delete(deletes: seq<DeleteRecord>, now: int)
      requires Valid()
      modifies this
      ensures Valid()
      ensures AsNode() == WriteTo(env, old(AsNode()), Land(Deletes(deletes)))
      ensures updatedAt == if deletes == [] then old(updatedAt) else now
    {
      hide Coherent, Agrees, NoEmptyInner, Size, DeleteKey;
      WriteCoherent(env, AsNode(), Land(Deletes(deletes)));
      log := log + [Deletes(deletes)];
      if |deletes| == 0 {
        return;
      }
      ghost var before, keys := view, KeysOf(deletes);
      for i := 0 to |deletes|
        invariant Indexed()
        invariant view == Remove(before, keys[..i])
        modifies `records, `view
      {
        assert keys[..i + 1][..i] == keys[..i];
        DeleteOne(deletes[i]);
      }
      assert keys[..|deletes|] == keys;
      updatedAt := now;
      var _ := UpdateCacheSizeMetric();
    }

    /** Lets other writers in: each takes the lock for one mutation, in this order. */
    method Interleave(ws: seq<Write>, now: int)
      requires Valid()
      modifies this
      ensures Valid()
      ensures AsNode() == WriteAll(env, old(AsNode()), ws)
    {
      hide WriteTo, Coherent, Agrees, NoEmptyInner, Size;
      ghost var before := AsNode();
      for i := 0 to |ws|
        invariant Valid()
        invariant AsNode() == WriteAll(env, before, ws[..i])
      {
        assert ws[..i + 1][..i] == ws[..i];
        match ws[i] {
          case Install(snapshot) => var _ := ReplaceFromSnapshot(Some(snapshot), now);
          case Land(Updates(records)) => Update(records, now);
          case Land(Deletes(deletes)) => Delete(deletes, now);
        }
      }
      assert ws[..|ws|] == ws;
    }

    /** Lists every entry once, in whatever order the maps are iterated. */
    method GetAllRecords() returns (out: seq<DNSRecord>, ghost order: seq<Key>)
      requires Valid()
      ensures NonEmpty(view) && Enumerates(order, view)
      ensures out == DumpInOrder(env, view, order)
      ensures forall k | k in view :: DumpEntry(env, k, view[k]) in out
    {
      CoherentNonEmpty(env, AsNode());
      out, order := [], [];
      var domains := records;
      ghost var left := view;
      assert Listing(env, view, left, order, out);
      hide Agrees, Listing, DumpInOrder, Enumerates, NonEmpty;
      while domains != map[]
        invariant Agrees(domains, left)
        invariant Listing(env, view, left, order, out)
        decreases |domains|
      {
        var d :| d in domains;
        out, left, order := ListDomain(env, domains, d, out, view, left, order);
        domains := domains - {d};
      }
      AgreesEmpty(left);
      ListingDone(env, view, order, out);
    }
  }

  /** The loop of a snapshot load, over maps of its own. */
  method LoadNested(env: Env, list: seq<DNSRecord>) returns (newRecords: Nested, loaded: nat, skipped: nat)
    ensures Agrees(newRecords, Build(env, list)) && NoEmptyInner(newRecords)
    ensures loaded == LoadedCount(CellsOf(env, list)) && loaded + skipped == |list|
  {
    hide CellOf;
    newRecords, loaded, skipped := map[], 0, 0;
    ghost var cells := CellsOf(env, list);
    for i := 0 to |list|
      invariant Agrees(newRecords, Load(cells[..i])) && NoEmptyInner(newRecords)
      invariant loaded == LoadedCount(cells[..i]) && loaded + skipped == i
    {
      assert cells[..i + 1][..i] == cells[..i];
      var cell := Decode(env, list[i]);
      if cell.None? {
        skipped := skipped + 1;
        continue;
      }
      newRecords := AppendTo(newRecords, Load(cells[..i]), cell.value);
      loaded := loaded + 1;
    }
    assert cells[..|list|] == cells;
  }

  /** Appends a cell to what its key holds. */
  method AppendTo(m: Nested, ghost t: Table, cell: Cell) returns (n: Nested)
    requires Agrees(m, t) && NoEmptyInner(m)
    ensures Agrees(n, AppendCell(t, Some(cell))) && NoEmptyInner(n)
  {
    var k := cell.key;
    var inner := InnerOf(m, k.name);
    var held := if k.qtype in inner then inner[k.qtype] else [];
    assert held == Lookup(t, k);
    AgreesSet(m, t, k, held + cell.rrs);
    n := m[k.name := inner[k.qtype := held + cell.rrs]];
  }

  /** The inner loop of a count: one domain's lists, its types in any order. */
  method CountDomain(domains: Nested, d: string, ghost before: Table) returns (count: nat, ghost left: Table)
    requires Agrees(domains, before) && d in domains
    ensures Agrees(domains - {d}, left)
    ensures count + Size(left) == Size(before)
  {
    hide Agrees, Size;
    count, left := 0, before;
    var qtypes := domains[d];
    assert domains[d := qtypes] == domains;
    while qtypes != map[]
      invariant Agrees(domains[d := qtypes], left)
      invariant count + Size(left) == Size(before)
      decreases |qtypes|
    {
      var q :| q in qtypes;
      ghost var rest := domains[d := qtypes];
      AgreesAt(rest, left, Key(d, q));
      SizeAnyOrder(left, Key(d, q));
      AgreesShrink(rest, left, Key(d, q));
      assert rest[d := qtypes - {q}] == domains[d := qtypes - {q}];
      count := count + |qtypes[q]|;
      left := left - {Key(d, q)};
      qtypes := qtypes - {q};
    }
    AgreesPrune(domains[d := qtypes], left, d);
    assert domains[d := qtypes] - {d} == domains - {d};
  }

  /** The inner loop of a listing: one domain's entries, its types in any order. */
  method ListDomain(env: Env, domains: Nested, d: string, start: seq<DNSRecord>,
                    ghost t: Table, ghost before: Table, ghost done: seq<Key>)
    returns (out: seq<DNSRecord>, ghost left: Table, ghost order: seq<Key>)
    requires Agrees(domains, before) && d in domains
    requires Listing(env, t, before, done, start)
    ensures Agrees(domains - {d}, left)
    ensures Listing(env, t, left, order, out)
  {
    hide Agrees, Listing, DumpEntry;
    out, left, order := start, before, done;
    var qtypes := domains[d];
    assert domains[d := qtypes] == domains;
    while qtypes != map[]
      invariant Agrees(domains[d := qtypes], left)
      invariant Listing(env, t, left, order, out)
      decreases |qtypes|
    {
      var q :| q in qtypes;
      ghost var rest := domains[d := qtypes];
      AgreesAt(rest, left, Key(d, q));
      ListingHeld(env, t, left, order, out, Key(d, q));
      ListingStep(env, t, left, order, out, Key(d, q));
      AgreesShrink(rest, left, Key(d, q));
      assert rest[d := qtypes - {q}] == domains[d := qtypes - {q}];
      var record := ListEntry(env, d, q, qtypes[q]);
      out, order := out + [record], order + [Key(d, q)];
      left := left - {Key(d, q)};
      qtypes := qtypes - {q};
    }
    AgreesPrune(domains[d := qtypes], left, d);
    assert domains[d := qtypes] - {d} == domains - {d};
  }

  /** One listed entry: printed addresses, the last TTL met, no type for a CNAME. */
  method ListEntry(env: Env, domain: string, qtype: Uint16, rrs: seq<RR>) returns (record: DNSRecord)
    requires rrs != []
    ensures record == DumpEntry(env, Key(domain, qtype), rrs)
  {
    var ips: seq<string> := [];
    var ttl: Uint32 := 0;
    for i := 0 to |rrs|
      invariant ips == Printed(env, rrs[..i])
      invariant i > 0 ==> ttl == rrs[i - 1].ttl
    {
      assert rrs[..i + 1][..i] == rrs[..i];
      ttl := rrs[i].ttl;
      match rrs[i]
      case A(_, _, a) => ips := ips + [env.format(a)];
      case AAAA(_, _, a) => ips := ips + [env.format(a)];
      case CNAME(_, _, _) =>
    }
    assert rrs[..|rrs|] == rrs;
    var typeStr := "";
    if qtype == TYPE_A {
      typeStr := "A";
    } else if qtype == TYPE_AAAA {
      typeStr := "AAAA";
    }
    record := DNSRecord(TrimDot(domain), typeStr, ttl, ips, "");
  }
}
