/** The cache seen flat, as one list of resource records per name and type, together with the
    linear scans it has to agree with. Records appear here already decoded into cells. */
module Tables {
  import opened Names
  import opened Records

  datatype Key = Key(name: string, qtype: Uint16)

  type Table = map<Key, seq<RR>>

  /** Where a record goes and what it holds; a skipped record has none. */
  datatype Cell = Cell(key: Key, rrs: seq<RR>)

  type Cells = seq<Option<Cell>>

  /** One locked webhook mutation, decoded: cells to write, or keys to remove. */
  datatype Edit = Put(cells: Cells) | Drop(keys: seq<Option<Key>>)

  function Lookup(t: Table, k: Key): seq<RR> {
    if k in t then t[k] else []
  }

  /* ---------- the operations ---------- */

  function AppendCell(t: Table, cell: Option<Cell>): Table {
    match cell
    case None => t
    case Some(c) => t[c.key := Lookup(t, c.key) + c.rrs]
  }

  function PutCell(t: Table, cell: Option<Cell>): Table {
    match cell
    case None => t
    case Some(c) => t[c.key := c.rrs]
  }

  function RemoveKey(t: Table, key: Option<Key>): Table {
    match key
    case None => t
    case Some(k) => t - {k}
  }

  /** A snapshot load, which appends. */
  function Load(cells: Cells): Table {
    if cells == [] then map[]
    else AppendCell(Load(cells[..|cells| - 1]), cells[|cells| - 1])
  }

  /** A webhook update, which overwrites. */
  function Patch(t: Table, cells: Cells): Table {
    if cells == [] then t
    else PutCell(Patch(t, cells[..|cells| - 1]), cells[|cells| - 1])
  }

  /** A webhook deletion. */
  function Remove(t: Table, keys: seq<Option<Key>>): Table {
    if keys == [] then t
    else RemoveKey(Remove(t, keys[..|keys| - 1]), keys[|keys| - 1])
  }

  function ApplyEdit(t: Table, e: Edit): Table {
    match e
    case Put(cells) => Patch(t, cells)
    case Drop(keys) => Remove(t, keys)
  }

  function ApplyEdits(t: Table, edits: seq<Edit>): Table {
    if edits == [] then t
    else ApplyEdit(ApplyEdits(t, edits[..|edits| - 1]), edits[|edits| - 1])
  }

  /* ---------- nothing is ever stored empty ---------- */

  predicate NonEmpty(t: Table) {
    forall k | k in t :: t[k] != []
  }

  predicate Solid(cells: Cells) {
    forall c | c in cells :: c.Some? ==> c.value.rrs != []
  }

  predicate SolidEdits(edits: seq<Edit>) {
    forall e | e in edits :: e.Put? ==> Solid(e.cells)
  }

  lemma {:induction false} LoadNonEmpty(cells: Cells)
    requires Solid(cells)
    ensures NonEmpty(Load(cells))
  {
    if cells != [] {
      LoadNonEmpty(cells[..|cells| - 1]);
      assert cells[|cells| - 1] in cells;
    }
  }

  lemma {:induction false} PatchNonEmpty(t: Table, cells: Cells)
    requires NonEmpty(t) && Solid(cells)
    ensures NonEmpty(Patch(t, cells))
  {
    if cells != [] {
      PatchNonEmpty(t, cells[..|cells| - 1]);
      assert cells[|cells| - 1] in cells;
    }
  }

  lemma {:induction false} RemoveNonEmpty(t: Table, keys: seq<Option<Key>>)
    requires NonEmpty(t)
    ensures NonEmpty(Remove(t, keys))
  {
    if keys != [] {
      RemoveNonEmpty(t, keys[..|keys| - 1]);
    }
  }

  lemma {:induction false} EditsNonEmpty(t: Table, edits: seq<Edit>)
    requires NonEmpty(t) && SolidEdits(edits)
    ensures NonEmpty(ApplyEdits(t, edits))
  {
    if edits != [] {
      var front, last := edits[..|edits| - 1], edits[|edits| - 1];
      EditsNonEmpty(t, front);
      assert last in edits;
      match last
      case Put(cells) => PatchNonEmpty(ApplyEdits(t, front), cells);
      case Drop(keys) => RemoveNonEmpty(ApplyEdits(t, front), keys);
    }
  }

  /** Tables without empty entries are equal when they answer every lookup alike. */
  lemma SameLookups(s: Table, t: Table)
    requires NonEmpty(s) && NonEmpty(t)
    requires forall k :: Lookup(s, k) == Lookup(t, k)
    ensures s == t
  {
    forall k
      ensures k in s <==> k in t
      ensures k in s ==> s[k] == t[k]
    {
      assert Lookup(s, k) == Lookup(t, k);
    }
  }

  /* ---------- linear scans ---------- */

  /** What one record contributes to one key. */
  function Share(cell: Option<Cell>, k: Key): seq<RR> {
    if cell.Some? && cell.value.key == k then cell.value.rrs else []
  }

  /** All contributions to a key, in the order of the records. */
  function Scan(cells: Cells, k: Key): seq<RR> {
    if cells == [] then []
    else Scan(cells[..|cells| - 1], k) + Share(cells[|cells| - 1], k)
  }

  /** The last contribution to a key. */
  function LastShare(cells: Cells, k: Key): seq<RR> {
    if cells == [] then []
    else
      var last := Share(cells[|cells| - 1], k);
      if last != [] then last else LastShare(cells[..|cells| - 1], k)
  }

  /** What an edit, or a log of edits, last said about a key. */
  datatype Touch = Untouched | Now(rrs: seq<RR>)

  function TouchOf(e: Edit, k: Key): Touch {
    match e
    case Put(cells) => var v := LastShare(cells, k); if v == [] then Untouched else Now(v)
    case Drop(keys) => if Some(k) in keys then Now([]) else Untouched
  }

  function LastTouch(edits: seq<Edit>, k: Key): Touch {
    if edits == [] then Untouched
    else
      var last := TouchOf(edits[|edits| - 1], k);
      if last.Now? then last else LastTouch(edits[..|edits| - 1], k)
  }

  function Resolve(touch: Touch, otherwise: seq<RR>): seq<RR> {
    match touch
    case Now(rrs) => rrs
    case Untouched => otherwise
  }

  lemma {:induction false} LoadIsScan(cells: Cells, k: Key)
    ensures Lookup(Load(cells), k) == Scan(cells, k)
  {
    if cells != [] {
      LoadIsScan(cells[..|cells| - 1], k);
    }
  }

  lemma {:induction false} PatchIsLastShare(t: Table, cells: Cells, k: Key)
    requires Solid(cells)
    ensures var v := LastShare(cells, k);
      Lookup(Patch(t, cells), k) == if v != [] then v else Lookup(t, k)
  {
    if cells != [] {
      PatchIsLastShare(t, cells[..|cells| - 1], k);
      assert cells[|cells| - 1] in cells;
    }
  }

  lemma {:induction false} RemoveIsMembership(t: Table, keys: seq<Option<Key>>, k: Key)
    ensures Lookup(Remove(t, keys), k) == if Some(k) in keys then [] else Lookup(t, k)
  {
    if keys != [] {
      var front, last := keys[..|keys| - 1], keys[|keys| - 1];
      RemoveIsMembership(t, front, k);
      assert keys == front + [last];
    }
  }

  /** After any log of edits, each key holds what the log last said about it. */
  lemma {:induction false} EditsAreLastTouch(t: Table, edits: seq<Edit>, k: Key)
    requires SolidEdits(edits)
    ensures Lookup(ApplyEdits(t, edits), k) == Resolve(LastTouch(edits, k), Lookup(t, k))
  {
    if edits != [] {
      var front, last := edits[..|edits| - 1], edits[|edits| - 1];
      EditsAreLastTouch(t, front, k);
      assert last in edits;
      match last
      case Put(cells) => PatchIsLastShare(ApplyEdits(t, front), cells, k);
      case Drop(keys) => RemoveIsMembership(ApplyEdits(t, front), keys, k);
    }
  }

  /** What a log last said about a key, if anything, is what the cells say. */
  predicate Affirms(edits: seq<Edit>, cells: Cells, k: Key) {
    LastTouch(edits, k).Now? ==> LastTouch(edits, k).rrs == Scan(cells, k)
  }

  /** A log leaves a load as it is exactly when it affirms it key by key. */
  lemma NoDriftIffAffirmed(cells: Cells, edits: seq<Edit>)
    requires Solid(cells) && SolidEdits(edits)
    ensures ApplyEdits(Load(cells), edits) == Load(cells) <==> forall k :: Affirms(edits, cells, k)
  {
    var built := Load(cells);
    var drifted := ApplyEdits(built, edits);
    LoadNonEmpty(cells);
    EditsNonEmpty(built, edits);
    hide Solid, SolidEdits, LastTouch, Scan, Load, ApplyEdits;
    forall k
      ensures Lookup(drifted, k) == Lookup(built, k) <==> Affirms(edits, cells, k)
    {
      EditsAreLastTouch(built, edits, k);
      LoadIsScan(cells, k);
    }
    if forall k :: Affirms(edits, cells, k) {
      forall k
        ensures Lookup(drifted, k) == Lookup(built, k)
      {
        assert Affirms(edits, cells, k);
      }
      SameLookups(drifted, built);
    }
  }

  /* ---------- concatenation is composition ---------- */

  lemma {:induction false} PatchAppend(t: Table, x: Cells, y: Cells)
    ensures Patch(t, x + y) == Patch(Patch(t, x), y)
  {
    if y == [] {
      assert x + y == x;
    } else {
      PatchAppend(t, x, y[..|y| - 1]);
      assert (x + y)[..|x + y| - 1] == x + y[..|y| - 1];
      assert (x + y)[|x + y| - 1] == y[|y| - 1];
    }
  }

  lemma {:induction false} RemoveAppend(t: Table, x: seq<Option<Key>>, y: seq<Option<Key>>)
    ensures Remove(t, x + y) == Remove(Remove(t, x), y)
  {
    if y == [] {
      assert x + y == x;
    } else {
      RemoveAppend(t, x, y[..|y| - 1]);
      assert (x + y)[..|x + y| - 1] == x + y[..|y| - 1];
      assert (x + y)[|x + y| - 1] == y[|y| - 1];
    }
  }

  lemma {:induction false} EditsAppend(t: Table, x: seq<Edit>, y: seq<Edit>)
    ensures ApplyEdits(t, x + y) == ApplyEdits(ApplyEdits(t, x), y)
  {
    if y == [] {
      assert x + y == x;
    } else {
      EditsAppend(t, x, y[..|y| - 1]);
      assert (x + y)[..|x + y| - 1] == x + y[..|y| - 1];
      assert (x + y)[|x + y| - 1] == y[|y| - 1];
    }
  }

  /** Replaying any log on top of itself changes nothing. */
  lemma ReplayIdempotent(t: Table, edits: seq<Edit>)
    requires NonEmpty(t) && SolidEdits(edits)
    ensures ApplyEdits(ApplyEdits(t, edits), edits) == ApplyEdits(t, edits)
  {
    var once := ApplyEdits(t, edits);
    var twice := ApplyEdits(once, edits);
    EditsNonEmpty(t, edits);
    EditsNonEmpty(once, edits);
    forall k
      ensures Lookup(twice, k) == Lookup(once, k)
    {
      EditsAreLastTouch(t, edits, k);
      EditsAreLastTouch(once, edits, k);
    }
    SameLookups(twice, once);
  }

  /* ---------- overlapping requests ---------- */

  /** Two requests, each an update and then a deletion, with both updates before both deletions. */
  function Overlap(t: Table, x: Cells, p: seq<Option<Key>>, y: Cells, q: seq<Option<Key>>): Table {
    Remove(Remove(Patch(Patch(t, x), y), p), q)
  }

  /** The same two requests one after the other. */
  function Serial(t: Table, x: Cells, p: seq<Option<Key>>, y: Cells, q: seq<Option<Key>>): Table {
    Remove(Patch(Remove(Patch(t, x), p), y), q)
  }

  /** The first deletion hits what the second request has written and does not itself delete. */
  predicate Clobbers(p: seq<Option<Key>>, y: Cells, q: seq<Option<Key>>, k: Key) {
    Some(k) in p && LastShare(y, k) != [] && Some(k) !in q
  }

  /** The second request undoes a key that the first has written and keeps: by its deletion, or by
      writing something else. */
  predicate Overtakes(x: Cells, p: seq<Option<Key>>, y: Cells, q: seq<Option<Key>>, k: Key) {
    && Some(k) !in p && LastShare(x, k) != []
    && (Some(k) in q || (LastShare(y, k) != [] && LastShare(y, k) != LastShare(x, k)))
  }

  lemma OverlapAt(t: Table, x: Cells, p: seq<Option<Key>>, y: Cells, q: seq<Option<Key>>, k: Key)
    requires NonEmpty(t) && Solid(x) && Solid(y)
    ensures NonEmpty(Overlap(t, x, p, y, q))
    ensures Lookup(Overlap(t, x, p, y, q), k) ==
            if Some(k) in p || Some(k) in q then []
            else if LastShare(y, k) != [] then LastShare(y, k)
            else if LastShare(x, k) != [] then LastShare(x, k)
            else Lookup(t, k)
  {
    hide Patch, Remove, Solid, LastShare, NonEmpty;
    PatchNonEmpty(t, x);
    PatchNonEmpty(Patch(t, x), y);
    RemoveNonEmpty(Patch(Patch(t, x), y), p);
    RemoveNonEmpty(Remove(Patch(Patch(t, x), y), p), q);
    RemoveIsMembership(Remove(Patch(Patch(t, x), y), p), q, k);
    RemoveIsMembership(Patch(Patch(t, x), y), p, k);
    PatchIsLastShare(Patch(t, x), y, k);
    PatchIsLastShare(t, x, k);
  }

  lemma SerialAt(t: Table, x: Cells, p: seq<Option<Key>>, y: Cells, q: seq<Option<Key>>, k: Key)
    requires NonEmpty(t) && Solid(x) && Solid(y)
    ensures NonEmpty(Serial(t, x, p, y, q))
    ensures Lookup(Serial(t, x, p, y, q), k) ==
            if Some(k) in q then []
            else if LastShare(y, k) != [] then LastShare(y, k)
            else if Some(k) in p then []
            else if LastShare(x, k) != [] then LastShare(x, k)
            else Lookup(t, k)
  {
    hide Patch, Remove, Solid, LastShare, NonEmpty;
    PatchNonEmpty(t, x);
    RemoveNonEmpty(Patch(t, x), p);
    PatchNonEmpty(Remove(Patch(t, x), p), y);
    RemoveNonEmpty(Patch(Remove(Patch(t, x), p), y), q);
    RemoveIsMembership(Patch(Remove(Patch(t, x), p), y), q, k);
    RemoveIsMembership(Patch(t, x), p, k);
    PatchIsLastShare(Remove(Patch(t, x), p), y, k);
    PatchIsLastShare(t, x, k);
  }

  lemma LastOfOne(c: Cell)
    ensures LastShare([Some(c)], c.key) == c.rrs
  {
    assert [Some(c)][..0] == [];
  }

  lemma LastOfTwo(c: Cell, d: Cell)
    requires c.key != d.key
    ensures LastShare([Some(c), Some(d)], c.key) == c.rrs
    ensures d.rrs != [] ==> LastShare([Some(c), Some(d)], d.key) == d.rrs
  {
    LastOfOne(c);
    assert [Some(c), Some(d)][..1] == [Some(c)];
  }

  /** Overlapping equals the first order exactly when nothing is clobbered. */
  lemma OverlapIsForward(t: Table, x: Cells, p: seq<Option<Key>>, y: Cells, q: seq<Option<Key>>)
    requires NonEmpty(t) && Solid(x) && Solid(y)
    ensures Overlap(t, x, p, y, q) == Serial(t, x, p, y, q) <==> forall k :: !Clobbers(p, y, q, k)
  {
    hide Overlap, Serial, Solid, LastShare;
    var one, other := Overlap(t, x, p, y, q), Serial(t, x, p, y, q);
    forall k
      ensures NonEmpty(one) && NonEmpty(other)
      ensures Lookup(one, k) == Lookup(other, k) <==> !Clobbers(p, y, q, k)
    {
      OverlapAt(t, x, p, y, q, k);
      SerialAt(t, x, p, y, q, k);
    }
    assert NonEmpty(one) && NonEmpty(other) by {
      OverlapAt(t, x, p, y, q, Key("", TYPE_A));
      SerialAt(t, x, p, y, q, Key("", TYPE_A));
    }
    if forall k :: !Clobbers(p, y, q, k) {
      forall k
        ensures Lookup(one, k) == Lookup(other, k)
      {
        assert !Clobbers(p, y, q, k);
      }
      SameLookups(one, other);
    }
  }

  /** Overlapping equals the other order exactly when nothing is overtaken. */
  lemma OverlapIsBackward(t: Table, x: Cells, p: seq<Option<Key>>, y: Cells, q: seq<Option<Key>>)
    requires NonEmpty(t) && Solid(x) && Solid(y)
    ensures Overlap(t, x, p, y, q) == Serial(t, y, q, x, p) <==> forall k :: !Overtakes(x, p, y, q, k)
  {
    hide Overlap, Serial, Solid, LastShare;
    var one, other := Overlap(t, x, p, y, q), Serial(t, y, q, x, p);
    forall k
      ensures NonEmpty(one) && NonEmpty(other)
      ensures Lookup(one, k) == Lookup(other, k) <==> !Overtakes(x, p, y, q, k)
    {
      OverlapAt(t, x, p, y, q, k);
      SerialAt(t, y, q, x, p, k);
    }
    assert NonEmpty(one) && NonEmpty(other) by {
      OverlapAt(t, x, p, y, q, Key("", TYPE_A));
      SerialAt(t, y, q, x, p, Key("", TYPE_A));
    }
    if forall k :: !Overtakes(x, p, y, q, k) {
      forall k
        ensures Lookup(one, k) == Lookup(other, k)
      {
        assert !Overtakes(x, p, y, q, k);
      }
      SameLookups(one, other);
    }
  }

  /** Deletions commute, so it does not matter which of the two comes last. */
  lemma RemovesCommute(t: Table, p: seq<Option<Key>>, q: seq<Option<Key>>)
    requires NonEmpty(t)
    ensures Remove(Remove(t, p), q) == Remove(Remove(t, q), p)
  {
    RemoveNonEmpty(t, p);
    RemoveNonEmpty(t, q);
    RemoveNonEmpty(Remove(t, p), q);
    RemoveNonEmpty(Remove(t, q), p);
    hide Remove, NonEmpty;
    forall k
      ensures Lookup(Remove(Remove(t, p), q), k) == Lookup(Remove(Remove(t, q), p), k)
    {
      RemoveIsMembership(Remove(t, p), q, k);
      RemoveIsMembership(t, p, k);
      RemoveIsMembership(Remove(t, q), p, k);
      RemoveIsMembership(t, q, k);
    }
    SameLookups(Remove(Remove(t, p), q), Remove(Remove(t, q), p));
  }

  /* ---------- appending against overwriting ---------- */

  /** The cells of a list that go to a key. */
  function Own(cells: Cells, k: Key): Cells {
    if cells == [] then []
    else
      var last := cells[|cells| - 1];
      Own(cells[..|cells| - 1], k) + (if Share(last, k) != [] then [last] else [])
  }

  lemma {:induction false} ScanOfOwn(cells: Cells, k: Key)
    ensures Scan(Own(cells, k), k) == Scan(cells, k)
  {
    if cells != [] {
      var front, last := cells[..|cells| - 1], cells[|cells| - 1];
      var own := Own(front, k);
      ScanOfOwn(front, k);
      if Share(last, k) != [] {
        assert (own + [last])[..|own|] == own;
      } else {
        assert own + [] == own;
      }
    }
  }

  /** A load depends only on the order of records within each key. */
  lemma LoadDependsOnOwn(x: Cells, y: Cells)
    requires Solid(x) && Solid(y)
    requires forall k :: Own(x, k) == Own(y, k)
    ensures Load(x) == Load(y)
  {
    LoadNonEmpty(x);
    LoadNonEmpty(y);
    forall k
      ensures Lookup(Load(x), k) == Lookup(Load(y), k)
    {
      LoadIsScan(x, k);
      LoadIsScan(y, k);
      ScanOfOwn(x, k);
      ScanOfOwn(y, k);
      assert Own(x, k) == Own(y, k);
    }
    SameLookups(Load(x), Load(y));
  }

  predicate Collide(x: Option<Cell>, y: Option<Cell>) {
    x.Some? && y.Some? && x.value.key == y.value.key
  }

  predicate DistinctKeys(cells: Cells) {
    forall i, j | 0 <= i < j < |cells| :: !Collide(cells[i], cells[j])
  }

  lemma {:induction false} ScanNonEmpty(cells: Cells, k: Key)
    ensures Scan(cells, k) != [] <==> exists c | c in cells :: Share(c, k) != []
    ensures LastShare(cells, k) != [] <==> Scan(cells, k) != []
    ensures |LastShare(cells, k)| <= |Scan(cells, k)|
  {
    if cells != [] {
      var front, last := cells[..|cells| - 1], cells[|cells| - 1];
      ScanNonEmpty(front, k);
      assert cells == front + [last];
    }
  }

  /** A key with two contributions has a scan longer than its last contribution. */
  lemma {:induction false} ScanLonger(cells: Cells, i: nat, j: nat, k: Key)
    requires i < j < |cells| && Share(cells[i], k) != [] && Share(cells[j], k) != []
    ensures |LastShare(cells, k)| < |Scan(cells, k)|
  {
    var front := cells[..|cells| - 1];
    ScanNonEmpty(front, k);
    if j < |cells| - 1 {
      ScanLonger(front, i, j, k);
    } else {
      assert front[i] in front;
    }
  }

  lemma {:induction false} ScanIsLastShare(cells: Cells, k: Key)
    requires DistinctKeys(cells)
    ensures Scan(cells, k) == LastShare(cells, k)
  {
    if cells != [] {
      var front, last := cells[..|cells| - 1], cells[|cells| - 1];
      ScanIsLastShare(front, k);
      ScanNonEmpty(front, k);
      if Share(last, k) != [] {
        assert forall i | 0 <= i < |front| :: !Collide(cells[i], last);
      }
    }
  }

  /** With distinct keys, a cell is stored as it is. */
  lemma LoadAt(cells: Cells, i: nat)
    requires DistinctKeys(cells) && Solid(cells) && i < |cells| && cells[i].Some?
    ensures Lookup(Load(cells), cells[i].value.key) == cells[i].value.rrs
  {
    var k := cells[i].value.key;
    LoadIsScan(cells, k);
    ScanIsLastShare(cells, k);
    assert cells[i] in cells;
    LastShareAt(cells, i);
  }

  lemma {:induction false} LastShareAt(cells: Cells, i: nat)
    requires DistinctKeys(cells) && i < |cells| && cells[i].Some? && cells[i].value.rrs != []
    ensures LastShare(cells, cells[i].value.key) == cells[i].value.rrs
  {
    if i < |cells| - 1 {
      assert !Collide(cells[i], cells[|cells| - 1]);
      LastShareAt(cells[..|cells| - 1], i);
    }
  }

  /** With distinct keys, a list drawn from the same cells last says what all the cells say. */
  lemma {:induction false} LastShareOfSubset(cells: Cells, part: Cells, k: Key)
    requires DistinctKeys(cells) && Solid(cells)
    requires forall c | c in part :: c in cells
    ensures LastShare(part, k) == [] || LastShare(part, k) == Scan(cells, k)
  {
    if part != [] {
      var front, last := part[..|part| - 1], part[|part| - 1];
      LastShareOfSubset(cells, front, k);
      if Share(last, k) != [] {
        assert last in part;
        var i :| 0 <= i < |cells| && cells[i] == last;
        LoadAt(cells, i);
        LoadIsScan(cells, k);
      }
    }
  }

  /** Edits that only repeat the cells, and only delete what they lack, affirm them. */
  predicate Repeats(e: Edit, cells: Cells) {
    match e
    case Put(part) => forall c | c in part :: c in cells
    case Drop(keys) => forall k | k in keys && k.Some? :: Scan(cells, k.value) == []
  }

  lemma {:induction false} RepeatsAffirm(edits: seq<Edit>, cells: Cells, k: Key)
    requires DistinctKeys(cells) && Solid(cells)
    requires forall e | e in edits :: Repeats(e, cells)
    ensures Affirms(edits, cells, k)
  {
    if edits != [] {
      var front, last := edits[..|edits| - 1], edits[|edits| - 1];
      RepeatsAffirm(front, cells, k);
      assert Repeats(last, cells);
      if last.Put? {
        LastShareOfSubset(cells, last.cells, k);
      }
    }
  }

  /** Loading a snapshot and patching an empty cache agree exactly on lists of distinct keys. */
  lemma LoadIsPatchIffDistinct(cells: Cells)
    requires Solid(cells)
    ensures Load(cells) == Patch(map[], cells) <==> DistinctKeys(cells)
  {
    var l, p := Load(cells), Patch(map[], cells);
    LoadNonEmpty(cells);
    PatchNonEmpty(map[], cells);
    if DistinctKeys(cells) {
      forall k
        ensures Lookup(l, k) == Lookup(p, k)
      {
        LoadIsScan(cells, k);
        PatchIsLastShare(map[], cells, k);
        ScanIsLastShare(cells, k);
      }
      SameLookups(l, p);
    } else {
      var i, j :| 0 <= i < j < |cells| && Collide(cells[i], cells[j]);
      var k := cells[i].value.key;
      assert cells[i] in cells && cells[j] in cells;
      ScanLonger(cells, i, j, k);
      LoadIsScan(cells, k);
      PatchIsLastShare(map[], cells, k);
    }
  }

  /* ---------- difference of two snapshots ---------- */

  /** A log in which no deletion names a key never says the key is gone. */
  lemma {:induction false} NeverDropped(edits: seq<Edit>, k: Key)
    requires forall e | e in edits :: e.Drop? ==> Some(k) !in e.keys
    ensures LastTouch(edits, k) != Now([])
  {
    if edits != [] {
      assert edits[|edits| - 1] in edits;
      NeverDropped(edits[..|edits| - 1], k);
    }
  }

  /** The new cells that a table does not already hold. */
  function ChangedCells(t: Table, cells: Cells): Cells {
    if cells == [] then []
    else
      var last := cells[|cells| - 1];
      ChangedCells(t, cells[..|cells| - 1]) +
      if last.Some? && Lookup(t, last.value.key) != last.value.rrs then [last] else []
  }

  /** The old keys that a table lacks; a CNAME cannot be named in a deletion. */
  function GoneKeys(cells: Cells, t: Table): seq<Option<Key>> {
    if cells == [] then []
    else
      var last := cells[|cells| - 1];
      GoneKeys(cells[..|cells| - 1], t) +
      if last.Some? && last.value.key !in t then
        [if last.value.key.qtype == TYPE_CNAME then None else Some(last.value.key)]
      else []
  }

  lemma {:induction false} ChangedSolid(t: Table, cells: Cells)
    requires Solid(cells)
    ensures Solid(ChangedCells(t, cells))
  {
    if cells != [] {
      ChangedSolid(t, cells[..|cells| - 1]);
      assert cells[|cells| - 1] in cells;
    }
  }

  lemma LastShareOneMore(cells: Cells, cell: Option<Cell>, k: Key)
    ensures LastShare(cells + [cell], k) == if Share(cell, k) != [] then Share(cell, k) else LastShare(cells, k)
  {
    assert (cells + [cell])[..|cells|] == cells;
  }

  /** With distinct keys, nothing before the last cell goes to its key. */
  lemma LastIsAlone(cells: Cells, k: Key)
    requires DistinctKeys(cells) && cells != [] && Share(cells[|cells| - 1], k) != []
    ensures LastShare(cells[..|cells| - 1], k) == []
  {
    var front, last := cells[..|cells| - 1], cells[|cells| - 1];
    ScanNonEmpty(front, k);
    assert forall i | 0 <= i < |front| :: !Collide(cells[i], last);
  }

  lemma {:induction false} ChangedShare(t: Table, cells: Cells, k: Key)
    requires DistinctKeys(cells) && Solid(cells)
    ensures var v := LastShare(cells, k);
      LastShare(ChangedCells(t, cells), k) == if Lookup(t, k) != v then v else []
  {
    if cells != [] {
      var front, last := cells[..|cells| - 1], cells[|cells| - 1];
      ChangedShare(t, front, k);
      assert last in cells;
      assert cells == front + [last];
      LastShareOneMore(front, last, k);
      LastShareOneMore(ChangedCells(t, front), last, k);
      if Share(last, k) != [] {
        LastIsAlone(cells, k);
      }
      hide LastShare, DistinctKeys;
      assert ChangedCells(t, front) + [] == ChangedCells(t, front);
    }
  }

  lemma {:induction false} GoneMembers(cells: Cells, t: Table, k: Key)
    requires Solid(cells)
    ensures Some(k) in GoneKeys(cells, t) <==> k.qtype != TYPE_CNAME && k !in t && Scan(cells, k) != []
  {
    if cells != [] {
      GoneMembers(cells[..|cells| - 1], t, k);
      assert cells[|cells| - 1] in cells;
    }
  }

  /** Sending the difference of two snapshots as one update and one deletion turns the first table
      into the second exactly when no CNAME key has to disappear. */
  lemma DiffExact(x: Cells, y: Cells)
    requires Solid(x) && Solid(y) && DistinctKeys(y)
    ensures Remove(Patch(Load(x), ChangedCells(Load(x), y)), GoneKeys(x, Load(y))) == Load(y)
            <==> forall k | k in Load(x) && k.qtype == TYPE_CNAME :: k in Load(y)
  {
    var from, to := Load(x), Load(y);
    var changed, gone := ChangedCells(from, y), GoneKeys(x, to);
    var result := Remove(Patch(from, changed), gone);
    LoadNonEmpty(x);
    LoadNonEmpty(y);
    ChangedSolid(from, y);
    PatchNonEmpty(from, changed);
    RemoveNonEmpty(Patch(from, changed), gone);
    forall k
      ensures Lookup(result, k) == if k.qtype == TYPE_CNAME && k in from && k !in to then from[k] else Lookup(to, k)
    {
      DiffAt(x, y, k);
    }
    if forall k | k in from && k.qtype == TYPE_CNAME :: k in to {
      SameLookups(result, to);
    } else {
      var k :| k in from && k.qtype == TYPE_CNAME && k !in to;
      assert Lookup(result, k) != Lookup(to, k);
    }
  }

  lemma DiffAt(x: Cells, y: Cells, k: Key)
    requires Solid(x) && Solid(y) && DistinctKeys(y)
    ensures var from, to := Load(x), Load(y);
      Lookup(Remove(Patch(from, ChangedCells(from, y)), GoneKeys(x, to)), k)
      == if k.qtype == TYPE_CNAME && k in from && k !in to then from[k] else Lookup(to, k)
  {
    var from, to := Load(x), Load(y);
    LoadNonEmpty(x);
    LoadNonEmpty(y);
    ChangedSolid(from, y);
    RemoveIsMembership(Patch(from, ChangedCells(from, y)), GoneKeys(x, to), k);
    PatchIsLastShare(from, ChangedCells(from, y), k);
    ChangedShare(from, y, k);
    ScanIsLastShare(y, k);
    GoneMembers(x, to, k);
    LoadIsScan(x, k);
    LoadIsScan(y, k);
  }

  /* ---------- sizes ---------- */

  /** The number of resource records held, over any kind of key. */
  ghost function Size<K(!new)>(t: map<K, seq<RR>>): nat {
    if t == map[] then 0
    else
      var k :| k in t;
      |t[k]| + Size(t - {k})
  }

  /** The total does not depend on the order in which the entries are visited. */
  lemma {:induction false} SizeAnyOrder<K(!new)>(t: map<K, seq<RR>>, k: K)
    requires k in t
    ensures Size(t) == |t[k]| + Size(t - {k})
    decreases |t|
  {
    var j :| j in t && Size(t) == |t[j]| + Size(t - {j});
    if j != k {
      SizeAnyOrder(t - {j}, k);
      SizeAnyOrder(t - {k}, j);
      assert t - {j} - {k} == t - {k} - {j};
    }
  }

  lemma SizeUpdate(t: Table, k: Key, v: seq<RR>)
    ensures Size(t[k := v]) == Size(t) - |Lookup(t, k)| + |v|
  {
    var u := t[k := v];
    SizeAnyOrder(u, k);
    assert u - {k} == t - {k};
    if k in t {
      SizeAnyOrder(t, k);
    } else {
      assert t - {k} == t;
    }
  }

  function BuiltLength(cells: Cells): nat {
    if cells == [] then 0
    else
      BuiltLength(cells[..|cells| - 1]) +
      match cells[|cells| - 1] case None => 0 case Some(c) => |c.rrs|
  }

  function LoadedCount(cells: Cells): (n: nat)
    ensures n <= |cells|
  {
    if cells == [] then 0
    else LoadedCount(cells[..|cells| - 1]) + if cells[|cells| - 1].Some? then 1 else 0
  }

  /** The loaded records are those that yielded a cell. */
  lemma {:induction false} LoadedAreCells(cells: Cells)
    ensures LoadedCount(cells) == |set i | 0 <= i < |cells| && cells[i].Some?|
  {
    var now := set i | 0 <= i < |cells| && cells[i].Some?;
    if cells == [] {
      assert now == {};
    } else {
      var front := cells[..|cells| - 1];
      LoadedAreCells(front);
      var before := set i | 0 <= i < |front| && front[i].Some?;
      assert now == before + if cells[|front|].Some? then {|front|} else {};
    }
  }

  /** No built record is lost or duplicated by a snapshot load. */
  lemma {:induction false} LoadConserves(cells: Cells)
    ensures Size(Load(cells)) == BuiltLength(cells)
  {
    if cells != [] {
      var t, last := Load(cells[..|cells| - 1]), cells[|cells| - 1];
      LoadConserves(cells[..|cells| - 1]);
      if last.Some? {
        SizeUpdate(t, last.value.key, Lookup(t, last.value.key) + last.value.rrs);
      }
    }
  }
}
