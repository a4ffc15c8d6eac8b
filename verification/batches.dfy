/** From raw controller records and webhook requests to cells and edits, and the laws that
    snapshots and webhook batches obey on the cache. */
module Batches {
  import opened Names
  import opened Records
  import opened Tables

  /** The admission test of the cache: a byte suffix, not a label suffix. */
  predicate Admitted(zone: string, domain: string) {
    HasSuffix(domain, zone) || domain == zone
  }

  /** Where one controller record goes and what it holds; none when the record is skipped. */
  function CellOf(env: Env, record: DNSRecord): Option<Cell> {
    var domain := NormalizeDomain(record.name);
    if !Admitted(env.zone, domain) then None
    else
      match Built(env, record)
      case Err(_) => None
      case Ok(rrs) => if rrs == [] then None else Some(Cell(Key(domain, rrs[0].Type()), rrs))
  }

  function CellsOf(env: Env, records: seq<DNSRecord>): (cells: Cells)
    ensures |cells| == |records|
    ensures forall i | 0 <= i < |records| :: cells[i] == CellOf(env, records[i])
  {
    seq(|records|, i requires 0 <= i < |records| => CellOf(env, records[i]))
  }

  /** The key a deletion names; only addresses can be deleted. */
  function DeleteKey(d: DeleteRecord): Option<Key> {
    match AddressType(d.rtype)
    case None => None
    case Some(qtype) => Some(Key(NormalizeDomain(d.name), qtype))
  }

  function KeysOf(deletes: seq<DeleteRecord>): (keys: seq<Option<Key>>)
    ensures |keys| == |deletes|
    ensures forall i | 0 <= i < |deletes| :: keys[i] == DeleteKey(deletes[i])
  {
    seq(|deletes|, i requires 0 <= i < |deletes| => DeleteKey(deletes[i]))
  }

  /** One locked webhook mutation, as it arrives. */
  datatype Batch = Updates(records: seq<DNSRecord>) | Deletes(deletes: seq<DeleteRecord>)

  function EditOf(env: Env, b: Batch): Edit {
    match b
    case Updates(records) => Put(CellsOf(env, records))
    case Deletes(deletes) => Drop(KeysOf(deletes))
  }

  function EditsOf(env: Env, log: seq<Batch>): (edits: seq<Edit>)
    ensures |edits| == |log|
    ensures forall i | 0 <= i < |log| :: edits[i] == EditOf(env, log[i])
  {
    seq(|log|, i requires 0 <= i < |log| => EditOf(env, log[i]))
  }

  /** The table a snapshot's records build. */
  function Build(env: Env, records: seq<DNSRecord>): Table {
    Load(CellsOf(env, records))
  }

  /** A table after a log of webhook batches. */
  function Apply(env: Env, t: Table, log: seq<Batch>): Table {
    ApplyEdits(t, EditsOf(env, log))
  }

  /** The reference answer for a key, by linear scan: the newest word in the log about it, else
      everything the snapshot's records say, in their order. */
  function ScanLog(env: Env, base: seq<DNSRecord>, log: seq<Batch>, k: Key): seq<RR> {
    Resolve(LastTouch(EditsOf(env, log), k), Scan(CellsOf(env, base), k))
  }

  /* ---------- the invariant of every entry ---------- */

  predicate CellOk(env: Env, k: Key, rrs: seq<RR>) {
    && rrs != []
    && Normal(k.name)
    && HasSuffix(k.name, env.zone)
    && k.qtype in {TYPE_A, TYPE_AAAA, TYPE_CNAME}
    && forall rr | rr in rrs :: Fits(env, rr, k.name, k.qtype)
  }

  predicate TableOk(env: Env, t: Table) {
    forall k | k in t :: CellOk(env, k, t[k])
  }

  predicate CellsOk(env: Env, cells: Cells) {
    forall c | c in cells :: c.Some? ==> CellOk(env, c.value.key, c.value.rrs)
  }

  predicate EditsOk(env: Env, edits: seq<Edit>) {
    forall e | e in edits :: e.Put? ==> CellsOk(env, e.cells)
  }

  lemma CellOfOk(env: Env, record: DNSRecord)
    ensures var c := CellOf(env, record);
      c.Some? ==> CellOk(env, c.value.key, c.value.rrs)
  {
    var c := CellOf(env, record);
    if c.Some? {
      var domain := NormalizeDomain(record.name);
      NormalizeIsNormal(record.name);
      BuiltFits(env, record);
      assert domain[0..] == domain;
      assert HasSuffix(domain, env.zone);
    }
  }

  lemma CellsOfOk(env: Env, records: seq<DNSRecord>)
    ensures CellsOk(env, CellsOf(env, records)) && Solid(CellsOf(env, records))
  {
    var cells := CellsOf(env, records);
    forall c | c in cells
      ensures c.Some? ==> CellOk(env, c.value.key, c.value.rrs)
    {
      var i :| 0 <= i < |cells| && cells[i] == c;
      CellOfOk(env, records[i]);
    }
  }

  lemma EditsOfOk(env: Env, log: seq<Batch>)
    ensures EditsOk(env, EditsOf(env, log)) && SolidEdits(EditsOf(env, log))
  {
    var edits := EditsOf(env, log);
    forall e | e in edits && e.Put?
      ensures CellsOk(env, e.cells) && Solid(e.cells)
    {
      var i :| 0 <= i < |edits| && edits[i] == e;
      CellsOfOk(env, log[i].records);
    }
  }

  lemma {:induction false} LoadOk(env: Env, cells: Cells)
    requires CellsOk(env, cells)
    ensures TableOk(env, Load(cells))
  {
    if cells != [] {
      LoadOk(env, cells[..|cells| - 1]);
      assert cells[|cells| - 1] in cells;
    }
  }

  lemma {:induction false} PatchOk(env: Env, t: Table, cells: Cells)
    requires TableOk(env, t) && CellsOk(env, cells)
    ensures TableOk(env, Patch(t, cells))
  {
    if cells != [] {
      PatchOk(env, t, cells[..|cells| - 1]);
      assert cells[|cells| - 1] in cells;
    }
  }

  lemma {:induction false} RemoveOk(env: Env, t: Table, keys: seq<Option<Key>>)
    requires TableOk(env, t)
    ensures TableOk(env, Remove(t, keys))
  {
    if keys != [] {
      RemoveOk(env, t, keys[..|keys| - 1]);
    }
  }

  lemma {:induction false} ApplyEditsOk(env: Env, t: Table, edits: seq<Edit>)
    requires TableOk(env, t) && EditsOk(env, edits)
    ensures TableOk(env, ApplyEdits(t, edits))
  {
    if edits != [] {
      var front, last := edits[..|edits| - 1], edits[|edits| - 1];
      ApplyEditsOk(env, t, front);
      assert last in edits;
      match last
      case Put(cells) => PatchOk(env, ApplyEdits(t, front), cells);
      case Drop(keys) => RemoveOk(env, ApplyEdits(t, front), keys);
    }
  }

  /** Whatever snapshot was installed and whatever batches followed, every entry is sound. */
  lemma ReachableOk(env: Env, base: seq<DNSRecord>, log: seq<Batch>)
    ensures TableOk(env, Apply(env, Build(env, base), log))
  {
    CellsOfOk(env, base);
    EditsOfOk(env, log);
    LoadOk(env, CellsOf(env, base));
    ApplyEditsOk(env, Build(env, base), EditsOf(env, log));
  }

  /** The index agrees with the scan of everything that produced it, key by key. */
  lemma IndexIsScan(env: Env, base: seq<DNSRecord>, log: seq<Batch>, k: Key)
    ensures Lookup(Apply(env, Build(env, base), log), k) == ScanLog(env, base, log, k)
  {
    EditsOfOk(env, log);
    EditsAreLastTouch(Build(env, base), EditsOf(env, log), k);
    LoadIsScan(CellsOf(env, base), k);
  }

  lemma BuildConserves(env: Env, records: seq<DNSRecord>)
    ensures Size(Build(env, records)) == BuiltLength(CellsOf(env, records))
  {
    LoadConserves(CellsOf(env, records));
  }

  lemma CellsOfAppend(env: Env, x: seq<DNSRecord>, y: seq<DNSRecord>)
    ensures CellsOf(env, x + y) == CellsOf(env, x) + CellsOf(env, y)
  {
    hide CellOf;
  }

  lemma KeysOfAppend(x: seq<DeleteRecord>, y: seq<DeleteRecord>)
    ensures KeysOf(x + y) == KeysOf(x) + KeysOf(y)
  {
    hide DeleteKey;
  }

  lemma EditsOfAppend(env: Env, x: seq<Batch>, y: seq<Batch>)
    ensures EditsOf(env, x + y) == EditsOf(env, x) + EditsOf(env, y)
  {
    hide EditOf;
  }

  lemma ApplyAppend(env: Env, t: Table, x: seq<Batch>, y: seq<Batch>)
    ensures Apply(env, t, x + y) == Apply(env, Apply(env, t, x), y)
  {
    EditsAppend(t, EditsOf(env, x), EditsOf(env, y));
    EditsOfAppend(env, x, y);
  }

  lemma ApplyNone(env: Env, t: Table)
    ensures Apply(env, t, []) == t
  {
    assert EditsOf(env, []) == [];
  }

  lemma ApplyOne(env: Env, t: Table, b: Batch)
    ensures Apply(env, t, [b]) == ApplyEdit(t, EditOf(env, b))
  {
    var edits := EditsOf(env, [b]);
    assert edits[..0] == [];
    assert ApplyEdits(t, edits[..0]) == t;
  }

  /** Loading a snapshot is updating an empty cache with its records exactly when their keys are
      distinct, although one appends and the other overwrites. */
  lemma SnapshotIsUpdateIffDistinct(env: Env, records: seq<DNSRecord>)
    ensures Build(env, records) == Apply(env, map[], [Updates(records)]) <==> DistinctKeys(CellsOf(env, records))
  {
    CellsOfOk(env, records);
    ApplyOne(env, map[], Updates(records));
    LoadIsPatchIffDistinct(CellsOf(env, records));
  }

  /** Reordering a snapshot's records without reordering those of one key loads the same table. */
  lemma ReorderingsLoadAlike(env: Env, x: seq<DNSRecord>, y: seq<DNSRecord>)
    requires forall k :: Own(CellsOf(env, x), k) == Own(CellsOf(env, y), k)
    ensures Build(env, x) == Build(env, y)
  {
    CellsOfOk(env, x);
    CellsOfOk(env, y);
    hide CellOf;
    LoadDependsOnOwn(CellsOf(env, x), CellsOf(env, y));
  }

  /* ---------- notify requests ---------- */

  datatype NotifyRequest = NotifyRequest(records: seq<DNSRecord>, deletes: seq<DeleteRecord>)

  /** The locked mutations of one request, in order; an empty half takes no lock. */
  function UpdateHalf(req: NotifyRequest): seq<Batch> {
    if req.records == [] then [] else [Updates(req.records)]
  }

  function DeleteHalf(req: NotifyRequest): seq<Batch> {
    if req.deletes == [] then [] else [Deletes(req.deletes)]
  }

  /** All that one request does. */
  function Handled(req: NotifyRequest): seq<Batch> {
    UpdateHalf(req) + DeleteHalf(req)
  }

  /** A half that is empty changes nothing either way. */
  lemma HalvesAreEdits(env: Env, t: Table, req: NotifyRequest)
    ensures Apply(env, t, UpdateHalf(req)) == Patch(t, CellsOf(env, req.records))
    ensures Apply(env, t, DeleteHalf(req)) == Remove(t, KeysOf(req.deletes))
  {
    ApplyOne(env, t, Updates(req.records));
    ApplyOne(env, t, Deletes(req.deletes));
  }

  /** A request is an update followed by a deletion. */
  lemma HandledIsPatchRemove(env: Env, t: Table, req: NotifyRequest)
    ensures Apply(env, t, Handled(req)) == Remove(Patch(t, CellsOf(env, req.records)), KeysOf(req.deletes))
  {
    hide Apply, Patch, Remove, CellsOf, KeysOf;
    ApplyAppend(env, t, UpdateHalf(req), DeleteHalf(req));
    HalvesAreEdits(env, t, req);
    HalvesAreEdits(env, Patch(t, CellsOf(env, req.records)), req);
  }

  /** Handling a request twice in a row leaves what handling it once leaves. */
  lemma NotifyIdempotent(env: Env, t: Table, req: NotifyRequest)
    requires TableOk(env, t)
    ensures Apply(env, Apply(env, t, Handled(req)), Handled(req)) == Apply(env, t, Handled(req))
  {
    EditsOfOk(env, Handled(req));
    ReplayIdempotent(t, EditsOf(env, Handled(req)));
  }

  /** A notify is not atomic. When the updates of two requests both come before their deletions, the
      cache ends as if the first had been handled before the second exactly when the first deletion
      clobbers nothing, and as if the second had been handled before the first exactly when the
      second overtakes nothing; so when it does both, the outcome is neither. Which deletion comes
      last makes no difference. */
  lemma OverlappedNotifies(env: Env, t: Table, r1: NotifyRequest, r2: NotifyRequest)
    requires TableOk(env, t)
    ensures
      var x, p, y, q := CellsOf(env, r1.records), KeysOf(r1.deletes), CellsOf(env, r2.records), KeysOf(r2.deletes);
      var both := Apply(env, t, UpdateHalf(r1) + UpdateHalf(r2) + DeleteHalf(r1) + DeleteHalf(r2));
      && (both == Apply(env, t, Handled(r1) + Handled(r2)) <==> forall k :: !Clobbers(p, y, q, k))
      && (both == Apply(env, t, Handled(r2) + Handled(r1)) <==> forall k :: !Overtakes(x, p, y, q, k))
      && both == Apply(env, t, UpdateHalf(r1) + UpdateHalf(r2) + DeleteHalf(r2) + DeleteHalf(r1))
  {
    var x, p, y, q := CellsOf(env, r1.records), KeysOf(r1.deletes), CellsOf(env, r2.records), KeysOf(r2.deletes);
    CellsOfOk(env, r1.records);
    CellsOfOk(env, r2.records);
    assert NonEmpty(t) by {
      assert forall k | k in t :: CellOk(env, k, t[k]);
    }
    HandledAreSerial(env, t, r1, r2);
    HandledAreSerial(env, t, r2, r1);
    HalvesOverlap(env, t, r1, r2);
    PatchNonEmpty(t, x);
    PatchNonEmpty(Patch(t, x), y);
    hide CellsOf, KeysOf, Solid, CellsOk, Patch, Remove, Clobbers, Overtakes, TableOk, NonEmpty, Apply, Serial;
    OverlapIsForward(t, x, p, y, q);
    OverlapIsBackward(t, x, p, y, q);
    RemovesCommute(Patch(Patch(t, x), y), p, q);
  }

  lemma HandledAreSerial(env: Env, t: Table, r1: NotifyRequest, r2: NotifyRequest)
    ensures Apply(env, t, Handled(r1) + Handled(r2))
            == Serial(t, CellsOf(env, r1.records), KeysOf(r1.deletes), CellsOf(env, r2.records), KeysOf(r2.deletes))
  {
    hide Apply, Handled, Patch, Remove, CellsOf, KeysOf;
    ApplyAppend(env, t, Handled(r1), Handled(r2));
    HandledIsPatchRemove(env, t, r1);
    HandledIsPatchRemove(env, Apply(env, t, Handled(r1)), r2);
  }

  lemma HalvesOverlap(env: Env, t: Table, r1: NotifyRequest, r2: NotifyRequest)
    ensures var both := Patch(Patch(t, CellsOf(env, r1.records)), CellsOf(env, r2.records));
      && Apply(env, t, UpdateHalf(r1) + UpdateHalf(r2) + DeleteHalf(r1) + DeleteHalf(r2))
         == Remove(Remove(both, KeysOf(r1.deletes)), KeysOf(r2.deletes))
      && Apply(env, t, UpdateHalf(r1) + UpdateHalf(r2) + DeleteHalf(r2) + DeleteHalf(r1))
         == Remove(Remove(both, KeysOf(r2.deletes)), KeysOf(r1.deletes))
  {
    hide Apply, UpdateHalf, DeleteHalf, Patch, Remove, CellsOf, KeysOf;
    var u1, u2, d1, d2 := UpdateHalf(r1), UpdateHalf(r2), DeleteHalf(r1), DeleteHalf(r2);
    var both := Patch(Patch(t, CellsOf(env, r1.records)), CellsOf(env, r2.records));
    ApplyAppend(env, t, u1, u2);
    HalvesAreEdits(env, t, r1);
    HalvesAreEdits(env, Patch(t, CellsOf(env, r1.records)), r2);
    ApplyAppend(env, t, u1 + u2, d1);
    ApplyAppend(env, t, u1 + u2 + d1, d2);
    HalvesAreEdits(env, both, r1);
    HalvesAreEdits(env, Remove(both, KeysOf(r1.deletes)), r2);
    ApplyAppend(env, t, u1 + u2, d2);
    ApplyAppend(env, t, u1 + u2 + d2, d1);
    HalvesAreEdits(env, both, r2);
    HalvesAreEdits(env, Remove(both, KeysOf(r2.deletes)), r1);
  }

  lemma SampleClash(env: Env, a1: DNSRecord, a2: DNSRecord, b2: DNSRecord, d: DeleteRecord)
    requires CellOf(env, a1).Some? && CellOf(env, a2).Some? && CellOf(env, b2).Some?
    requires var a := CellOf(env, a1).value.key;
      && CellOf(env, a2).value.key == a != CellOf(env, b2).value.key
      && CellOf(env, a1).value.rrs != CellOf(env, a2).value.rrs
    requires DeleteKey(d) == Some(CellOf(env, b2).value.key)
    ensures var x, p, y, q := CellsOf(env, [a1]), KeysOf([d]), CellsOf(env, [a2, b2]), KeysOf([]);
      Clobbers(p, y, q, CellOf(env, b2).value.key) && Overtakes(x, p, y, q, CellOf(env, a1).value.key)
  {
    CellsOfOk(env, [a1]);
    CellsOfOk(env, [a2, b2]);
    hide CellOf, DeleteKey, LastShare, CellsOk;
    var c1, c2, e2 := CellOf(env, a1), CellOf(env, a2), CellOf(env, b2);
    assert CellsOf(env, [a1]) == [c1];
    assert c1 in CellsOf(env, [a1]);
    assert CellsOf(env, [a2, b2]) == [c2, e2];
    assert c2 in CellsOf(env, [a2, b2]) && e2 in CellsOf(env, [a2, b2]);
    LastOfOne(c1.value);
    LastOfTwo(c2.value, e2.value);
    hide CellsOf;
    assert KeysOf([d]) == [Some(e2.value.key)];
    assert KeysOf([]) == [];
    assert Clobbers(KeysOf([d]), [c2, e2], KeysOf([]), e2.value.key);
    assert Overtakes([c1], KeysOf([d]), [c2, e2], KeysOf([]), c1.value.key);
  }

  /** Two requests whose overlap, from any table at all, is what neither order leaves: the first
      writes a and deletes b, the second writes a differently and writes b. */
  lemma OverlapCanBeNeitherOrder(env: Env, t: Table, a1: DNSRecord, a2: DNSRecord, b2: DNSRecord, d: DeleteRecord)
    requires TableOk(env, t)
    requires CellOf(env, a1).Some? && CellOf(env, a2).Some? && CellOf(env, b2).Some?
    requires var a := CellOf(env, a1).value.key;
      && CellOf(env, a2).value.key == a != CellOf(env, b2).value.key
      && CellOf(env, a1).value.rrs != CellOf(env, a2).value.rrs
    requires DeleteKey(d) == Some(CellOf(env, b2).value.key)
    ensures var r1, r2 := NotifyRequest([a1], [d]), NotifyRequest([a2, b2], []);
      var both := Apply(env, t, UpdateHalf(r1) + UpdateHalf(r2) + DeleteHalf(r1) + DeleteHalf(r2));
      && both != Apply(env, t, Handled(r1) + Handled(r2))
      && both != Apply(env, t, Handled(r2) + Handled(r1))
  {
    hide Clobbers, Overtakes, CellOf, DeleteKey, Apply, TableOk, Handled, UpdateHalf, DeleteHalf;
    SampleClash(env, a1, a2, b2, d);
    OverlappedNotifies(env, t, NotifyRequest([a1], [d]), NotifyRequest([a2, b2], []));
  }

  /** Concrete such requests, where every string parses to the address numbered by its length. */
  lemma SomeOverlapIsNeitherOrder() returns (env: Env, r1: NotifyRequest, r2: NotifyRequest)
    ensures var both := Apply(env, map[], UpdateHalf(r1) + UpdateHalf(r2) + DeleteHalf(r1) + DeleteHalf(r2));
      && both != Apply(env, map[], Handled(r1) + Handled(r2))
      && both != Apply(env, map[], Handled(r2) + Handled(r1))
  {
    env := Env("z.", 60, (s: string) => Some(V4(|s|)), (a: Address) => "");
    var a, b := "a.z.", "b.z.";
    assert a[0] != b[0];
    assert Normal(a) && HasSuffix(a, env.zone) && Normal(b) && HasSuffix(b, env.zone);
    var one, two := "1", "22";
    assert [A(a, 60, V4(|one|))][0] != [A(a, 60, V4(|two|))][0];
    hide CellOf, DeleteKey, Apply, Handled, UpdateHalf, DeleteHalf, SampleRecord, Normal, HasSuffix;
    SampleCell(env, a, one);
    SampleCell(env, a, two);
    SampleCell(env, b, one);
    SampleDelete(b);
    r1 := NotifyRequest([SampleRecord(a, one)], [DeleteRecord(b, "A")]);
    r2 := NotifyRequest([SampleRecord(a, two), SampleRecord(b, one)], []);
    OverlapCanBeNeitherOrder(
      env, map[], SampleRecord(a, one), SampleRecord(a, two), SampleRecord(b, one), DeleteRecord(b, "A"));
  }

  function SampleRecord(name: string, ip: string): DNSRecord {
    DNSRecord(name, "A", 60, [ip], "")
  }

  lemma SampleBuilt(env: Env, name: string, ip: string)
    requires Normal(name) && env.parse(ip) == Some(V4(|ip|))
    ensures Built(env, SampleRecord(name, ip)) == Ok([A(name, 60, V4(|ip|))])
  {
    NormalizeOfNormal(name);
    UpperFixpoint("A");
    hide NormalizeDomain, Normal, Upper;
    assert [ip][..0] == [];
    assert AllUsable(env.parse, name, 60, TYPE_A, [ip][..0]) == [];
    assert AllUsable(env.parse, name, 60, TYPE_A, [ip]) == Usable(env.parse(ip), name, 60, TYPE_A);
  }

  lemma SampleCell(env: Env, name: string, ip: string)
    requires Normal(name) && HasSuffix(name, env.zone) && env.parse(ip) == Some(V4(|ip|))
    ensures CellOf(env, SampleRecord(name, ip)) == Some(Cell(Key(name, TYPE_A), [A(name, 60, V4(|ip|))]))
  {
    NormalizeOfNormal(name);
    SampleBuilt(env, name, ip);
    hide NormalizeDomain, Normal, HasSuffix, Built;
  }

  lemma SampleDelete(name: string)
    requires Normal(name)
    ensures DeleteKey(DeleteRecord(name, "A")) == Some(Key(name, TYPE_A))
  {
    NormalizeOfNormal(name);
    UpperFixpoint("A");
    hide NormalizeDomain, Normal, Upper;
  }

  /** Updating with one list and then another is updating with both at once. */
  lemma UpdatesCompose(env: Env, t: Table, x: seq<DNSRecord>, y: seq<DNSRecord>)
    ensures Apply(env, t, [Updates(x + y)]) == Apply(env, t, [Updates(x), Updates(y)])
  {
    hide CellOf;
    CellsOfAppend(env, x, y);
    PatchAppend(t, CellsOf(env, x), CellsOf(env, y));
    assert [Updates(x), Updates(y)] == [Updates(x)] + [Updates(y)];
    ApplyAppend(env, t, [Updates(x)], [Updates(y)]);
    ApplyOne(env, t, Updates(x));
    ApplyOne(env, Patch(t, CellsOf(env, x)), Updates(y));
    ApplyOne(env, t, Updates(x + y));
  }

  lemma DeletesCompose(env: Env, t: Table, x: seq<DeleteRecord>, y: seq<DeleteRecord>)
    ensures Apply(env, t, [Deletes(x + y)]) == Apply(env, t, [Deletes(x), Deletes(y)])
  {
    KeysOfAppend(x, y);
    RemoveAppend(t, KeysOf(x), KeysOf(y));
    assert [Deletes(x), Deletes(y)] == [Deletes(x)] + [Deletes(y)];
    ApplyAppend(env, t, [Deletes(x)], [Deletes(y)]);
    ApplyOne(env, t, Deletes(x));
    ApplyOne(env, Remove(t, KeysOf(x)), Deletes(y));
    ApplyOne(env, t, Deletes(x + y));
  }

  /* ---------- what one record and one deletion do ---------- */

  /** A deletion, in any spelling of name and type, names this key. */
  predicate NamesKey(d: DeleteRecord, k: Key) {
    && NormalizeDomain(d.name) == k.name
    && ((Upper(d.rtype) == "A" && k.qtype == TYPE_A) || (Upper(d.rtype) == "AAAA" && k.qtype == TYPE_AAAA))
  }

  /** A list of deletions empties exactly the entries it names, in whatever spelling. */
  lemma DeletesEmpty(env: Env, t: Table, ds: seq<DeleteRecord>, k: Key)
    ensures Lookup(Apply(env, t, [Deletes(ds)]), k)
            == if exists d | d in ds :: NamesKey(d, k) then [] else Lookup(t, k)
  {
    ApplyOne(env, t, Deletes(ds));
    RemoveIsMembership(t, KeysOf(ds), k);
    hide NormalizeDomain, Upper, Remove;
    forall i | 0 <= i < |ds|
      ensures KeysOf(ds)[i] == Some(k) <==> NamesKey(ds[i], k)
    {
    }
  }

  /** Deleting a record by its own name and type takes its entry away, whatever the spelling, and
      nothing else. */
  lemma DeleteUndoesRecord(env: Env, t: Table, record: DNSRecord, k: Key)
    requires CellOf(env, record).Some? && CellOf(env, record).value.key.qtype != TYPE_CNAME
    ensures Lookup(Apply(env, t, [Deletes([DeleteRecord(record.name, record.rtype)])]), k)
            == if k == CellOf(env, record).value.key then [] else Lookup(t, k)
  {
    var d := DeleteRecord(record.name, record.rtype);
    DeletesEmpty(env, t, [d], k);
    AddressKey(env, record);
    hide NormalizeDomain, Upper, CellOf, Apply;
    assert (exists d | d in [DeleteRecord(record.name, record.rtype)] :: NamesKey(d, k)) <==> NamesKey(d, k);
  }

  lemma AddressKey(env: Env, record: DNSRecord)
    requires CellOf(env, record).Some?
    ensures var k := CellOf(env, record).value.key;
      && k.name == NormalizeDomain(record.name)
      && (k.qtype != TYPE_CNAME ==>
            || (Upper(record.rtype) == "A" && k.qtype == TYPE_A)
            || (Upper(record.rtype) == "AAAA" && k.qtype == TYPE_AAAA))
  {
    var name := NormalizeDomain(record.name);
    hide NormalizeDomain, Upper;
    if record.ips != [] {
      var qtype := AddressType(record.rtype).value;
      AllUsableFit(env, name, EffectiveTTL(env, record), qtype, record.ips);
      assert Fits(env, Built(env, record).value[0], name, qtype);
    }
  }

  /** A record is stored exactly when its normalised name ends in the zone's bytes and something is
      built from it; then it is stored whole, under that name and the type it was built as. */
  lemma RecordStores(env: Env, t: Table, record: DNSRecord, k: Key)
    ensures var rrs := Harvest(env, record);
      Lookup(Apply(env, t, [Updates([record])]), k) ==
      if HasSuffix(NormalizeDomain(record.name), env.zone) && rrs != []
         && k == Key(NormalizeDomain(record.name), rrs[0].Type())
      then rrs
      else Lookup(t, k)
  {
    ApplyOne(env, t, Updates([record]));
    var cells := CellsOf(env, [record]);
    assert cells[..0] == [] && cells[0] == CellOf(env, record);
    assert Patch(t, cells) == PutCell(t, CellOf(env, record));
    WholeSuffix(NormalizeDomain(record.name));
    hide NormalizeDomain, HasSuffix, Built, Patch, CellsOf, Apply;
  }

  lemma WholeSuffix(s: string)
    ensures HasSuffix(s, s)
  {
    assert s[0..] == s;
  }

  /* ---------- failover names ---------- */

  predicate HoldsCname(t: Table, name: string) {
    Key(name, TYPE_CNAME) in t
  }

  lemma DeletesNameAddresses(deletes: seq<DeleteRecord>, name: string)
    ensures Some(Key(name, TYPE_CNAME)) !in KeysOf(deletes)
  {
    forall i | 0 <= i < |deletes|
      ensures DeleteKey(deletes[i]) != Some(Key(name, TYPE_CNAME))
    {
      hide NormalizeDomain;
    }
  }

  /** No log ever says a CNAME is gone. */
  lemma CnameNeverDropped(env: Env, log: seq<Batch>, name: string)
    ensures LastTouch(EditsOf(env, log), Key(name, TYPE_CNAME)) != Now([])
  {
    var edits := EditsOf(env, log);
    forall e | e in edits && e.Drop?
      ensures Some(Key(name, TYPE_CNAME)) !in e.keys
    {
      var i :| 0 <= i < |edits| && edits[i] == e;
      DeletesNameAddresses(log[i].deletes, name);
    }
    NeverDropped(edits, Key(name, TYPE_CNAME));
  }

  /** Webhook batches never shrink the set of names that hold a CNAME. */
  lemma CnamePersists(env: Env, t: Table, log: seq<Batch>, name: string)
    requires TableOk(env, t) && HoldsCname(t, name)
    ensures HoldsCname(Apply(env, t, log), name)
  {
    var k := Key(name, TYPE_CNAME);
    CnameNeverDropped(env, log, name);
    EditsOfOk(env, log);
    EditsAreLastTouch(t, EditsOf(env, log), k);
    assert CellOk(env, k, t[k]);
  }

  /* ---------- a diff sent as a notify ---------- */

  /** The records of the new list whose entry is not already in the table. */
  function ChangedRecords(env: Env, t: Table, records: seq<DNSRecord>): seq<DNSRecord> {
    if records == [] then []
    else
      var last := records[|records| - 1];
      var c := CellOf(env, last);
      ChangedRecords(env, t, records[..|records| - 1]) +
      if c.Some? && Lookup(t, c.value.key) != c.value.rrs then [last] else []
  }

  function TypeName(qtype: Uint16): string {
    if qtype == TYPE_A then "A" else if qtype == TYPE_AAAA then "AAAA" else "CNAME"
  }

  /** The deletion one old record calls for. */
  function GoneOne(c: Option<Cell>, t: Table): seq<DeleteRecord> {
    if c.Some? && c.value.key !in t then [DeleteRecord(c.value.key.name, TypeName(c.value.key.qtype))] else []
  }

  /** A deletion for every old key that the new table no longer has. */
  function Gone(env: Env, records: seq<DNSRecord>, t: Table): seq<DeleteRecord> {
    if records == [] then []
    else
      Gone(env, records[..|records| - 1], t) + GoneOne(CellOf(env, records[|records| - 1]), t)
  }

  function DiffRequest(env: Env, r1: seq<DNSRecord>, r2: seq<DNSRecord>): NotifyRequest {
    NotifyRequest(ChangedRecords(env, Build(env, r1), r2), Gone(env, r1, Build(env, r2)))
  }

  lemma {:induction false} ChangedIsChangedCells(env: Env, t: Table, records: seq<DNSRecord>)
    ensures CellsOf(env, ChangedRecords(env, t, records)) == ChangedCells(t, CellsOf(env, records))
  {
    hide CellOf;
    if records != [] {
      var front, last := records[..|records| - 1], records[|records| - 1];
      ChangedIsChangedCells(env, t, front);
      assert CellsOf(env, records)[..|records| - 1] == CellsOf(env, front);
    }
  }

  lemma DeleteKeyOfKey(k: Key)
    requires Normal(k.name) && k.qtype in {TYPE_A, TYPE_AAAA, TYPE_CNAME}
    ensures DeleteKey(DeleteRecord(k.name, TypeName(k.qtype))) == if k.qtype == TYPE_CNAME then None else Some(k)
  {
    NormalizeOfNormal(k.name);
    hide NormalizeDomain, Normal;
    UpperFixpoint(TypeName(k.qtype));
    assert |"CNAME"| == 5;
  }

  lemma GoneOneKeys(env: Env, record: DNSRecord, t: Table)
    ensures var c := CellOf(env, record);
      KeysOf(GoneOne(c, t)) ==
      if c.Some? && c.value.key !in t then [if c.value.key.qtype == TYPE_CNAME then None else Some(c.value.key)] else []
  {
    CellOfOk(env, record);
    hide CellOf;
    var c := CellOf(env, record);
    if c.Some? {
      DeleteKeyOfKey(c.value.key);
    }
  }

  lemma {:induction false} GoneIsGoneKeys(env: Env, records: seq<DNSRecord>, t: Table)
    ensures KeysOf(Gone(env, records, t)) == GoneKeys(CellsOf(env, records), t)
  {
    hide CellOf, GoneOne;
    if records != [] {
      var front, last := records[..|records| - 1], records[|records| - 1];
      GoneIsGoneKeys(env, front, t);
      GoneOneKeys(env, last, t);
      KeysOfAppend(Gone(env, front, t), GoneOne(CellOf(env, last), t));
      assert CellsOf(env, records)[..|records| - 1] == CellsOf(env, front);
    }
  }

  /** Partial equals full: notifying the difference between two record sets gives the cache that
      loading the second set gives, exactly when every CNAME of the first is kept by the second. */
  lemma PartialEqualsFull(env: Env, r1: seq<DNSRecord>, r2: seq<DNSRecord>)
    requires DistinctKeys(CellsOf(env, r2))
    ensures var req := DiffRequest(env, r1, r2);
      Apply(env, Build(env, r1), Handled(req)) == Build(env, r2)
      <==> forall k | k in Build(env, r1) && k.qtype == TYPE_CNAME :: k in Build(env, r2)
  {
    var req := DiffRequest(env, r1, r2);
    HandledIsPatchRemove(env, Build(env, r1), req);
    ChangedIsChangedCells(env, Build(env, r1), r2);
    GoneIsGoneKeys(env, r1, Build(env, r2));
    CellsOfOk(env, r1);
    CellsOfOk(env, r2);
    DiffExact(CellsOf(env, r1), CellsOf(env, r2));
  }
}
