/** Controller records, resource records, and how the first become the second. */
module Records {
  import opened Names

  type Uint16 = n: int | 0 <= n < 0x1_0000
  type Uint32 = n: int | 0 <= n < 0x1_0000_0000

  const TYPE_A: Uint16 := 1
  const TYPE_CNAME: Uint16 := 5
  const TYPE_AAAA: Uint16 := 28

  datatype Result<+T, +E> = Ok(value: T) | Err(error: E)

  /** A parsed address, already sorted by whether it has a four-byte form. */
  datatype Address = V4(value: nat) | V6(value: nat)

  datatype RR =
    | A(owner: string, ttl: Uint32, address: Address)
    | AAAA(owner: string, ttl: Uint32, address: Address)
    | CNAME(owner: string, ttl: Uint32, target: string)
  {
    function Type(): Uint16 {
      match this
      case A(_, _, _) => TYPE_A
      case AAAA(_, _, _) => TYPE_AAAA
      case CNAME(_, _, _) => TYPE_CNAME
    }
  }

  datatype DNSRecord = DNSRecord(name: string, rtype: string, ttl: Uint32, ips: seq<string>, failover: string)

  datatype DeleteRecord = DeleteRecord(name: string, rtype: string)

  datatype DNSSnapshot = DNSSnapshot(zone: string, versionHash: string, records: seq<DNSRecord>)

  /** What never changes while the plugin runs: its zone, its default TTL, and the
      address parser and printer it is linked with. */
  datatype Env = Env(zone: string, defaultTTL: Uint32, parse: string -> Option<Address>, format: Address -> string)

  datatype BuildError = UnsupportedType | NoValidIPs

  function EffectiveTTL(env: Env, record: DNSRecord): Uint32 {
    if record.ttl == 0 then env.defaultTTL else record.ttl
  }

  /** The resource record one parsed address yields, if it yields one. */
  function Usable(parsed: Option<Address>, name: string, ttl: Uint32, qtype: Uint16): seq<RR> {
    match parsed
    case Some(V4(v)) => if qtype == TYPE_A then [A(name, ttl, V4(v))] else []
    case Some(V6(v)) => if qtype == TYPE_AAAA then [AAAA(name, ttl, V6(v))] else []
    case None => []
  }

  function AllUsable(
    parse: string -> Option<Address>, name: string, ttl: Uint32, qtype: Uint16, ips: seq<string>): seq<RR>
  {
    if ips == [] then []
    else
      AllUsable(parse, name, ttl, qtype, ips[..|ips| - 1]) + Usable(parse(ips[|ips| - 1]), name, ttl, qtype)
  }

  /** The type of address a record asks for, none when its type is neither A nor AAAA. */
  function AddressType(rtype: string): Option<Uint16> {
    if Upper(rtype) == "A" then Some(TYPE_A)
    else if Upper(rtype) == "AAAA" then Some(TYPE_AAAA)
    else None
  }

  function Built(env: Env, record: DNSRecord): Result<seq<RR>, BuildError> {
    var name, ttl := NormalizeDomain(record.name), EffectiveTTL(env, record);
    if record.ips == [] then
      if record.failover == "" then Ok([]) else Ok([CNAME(name, ttl, NormalizeDomain(record.failover))])
    else
      match AddressType(record.rtype)
      case None => Err(UnsupportedType)
      case Some(qtype) =>
        var rrs := AllUsable(env.parse, name, ttl, qtype, record.ips);
        if rrs == [] then Err(NoValidIPs) else Ok(rrs)
  }

  /** The loop of the A branch: keep what parses and has a four-byte form. */
  method CollectA(parse: string -> Option<Address>, name: string, ttl: Uint32, ips: seq<string>)
    returns (rrs: seq<RR>)
    ensures rrs == AllUsable(parse, name, ttl, TYPE_A, ips)
  {
    rrs := [];
    for i := 0 to |ips|
      invariant rrs == AllUsable(parse, name, ttl, TYPE_A, ips[..i])
    {
      assert ips[..i + 1][..i] == ips[..i];
      var ip := parse(ips[i]);
      if ip.None? {
        continue;
      }
      if !ip.value.V4? {
        continue;
      }
      rrs := rrs + [A(name, ttl, ip.value)];
    }
    assert ips[..|ips|] == ips;
  }

  /** The loop of the AAAA branch: keep what parses and has no four-byte form. */
  method CollectAAAA(parse: string -> Option<Address>, name: string, ttl: Uint32, ips: seq<string>)
    returns (rrs: seq<RR>)
    ensures rrs == AllUsable(parse, name, ttl, TYPE_AAAA, ips)
  {
    rrs := [];
    for i := 0 to |ips|
      invariant rrs == AllUsable(parse, name, ttl, TYPE_AAAA, ips[..i])
    {
      assert ips[..i + 1][..i] == ips[..i];
      var ip := parse(ips[i]);
      if ip.None? {
        continue;
      }
      if ip.value.V4? {
        continue;
      }
      rrs := rrs + [AAAA(name, ttl, ip.value)];
    }
    assert ips[..|ips|] == ips;
  }

  method BuildDNSRecords(env: Env, record: DNSRecord) returns (result: Result<seq<RR>, BuildError>)
    ensures result == Built(env, record)
  {
    var rrs: seq<RR> := [];
    var name := NormalizeDomain(record.name);
    var ttl := record.ttl;
    if ttl == 0 {
      ttl := env.defaultTTL;
    }
    if |record.ips| == 0 {
      if record.failover != "" {
        return Ok([CNAME(name, ttl, NormalizeDomain(record.failover))]);
      }
      return Ok([]);
    }
    var recordType := Upper(record.rtype);
    if recordType == "A" {
      rrs := CollectA(env.parse, name, ttl, record.ips);
    } else if recordType == "AAAA" {
      rrs := CollectAAAA(env.parse, name, ttl, record.ips);
    } else {
      return Err(UnsupportedType);
    }
    if |rrs| == 0 {
      return Err(NoValidIPs);
    }
    return Ok(rrs);
  }

  /** A resource record fit to be stored under an owner and a type. */
  predicate Fits(env: Env, rr: RR, owner: string, qtype: Uint16) {
    && rr.owner == owner
    && rr.Type() == qtype
    && (rr.ttl == 0 ==> env.defaultTTL == 0)
    && (rr.A? ==> rr.address.V4?)
    && (rr.AAAA? ==> rr.address.V6?)
  }

  lemma {:induction false} AllUsableFit(env: Env, name: string, ttl: Uint32, qtype: Uint16, ips: seq<string>)
    requires ttl == 0 ==> env.defaultTTL == 0
    ensures forall rr | rr in AllUsable(env.parse, name, ttl, qtype, ips) :: Fits(env, rr, name, qtype)
  {
    if ips != [] {
      AllUsableFit(env, name, ttl, qtype, ips[..|ips| - 1]);
    }
  }

  /** Whatever is built is uniform: one owner, one type, a TTL that is zero only by default. */
  lemma BuiltFits(env: Env, record: DNSRecord)
    requires Built(env, record).Ok? && Built(env, record).value != []
    ensures var rrs := Built(env, record).value;
      && rrs[0].Type() in {TYPE_A, TYPE_AAAA, TYPE_CNAME}
      && forall rr | rr in rrs :: Fits(env, rr, NormalizeDomain(record.name), rrs[0].Type())
  {
    if record.ips != [] {
      var rrs, qtype := Built(env, record).value, AddressType(record.rtype).value;
      AllUsableFit(env, NormalizeDomain(record.name), EffectiveTTL(env, record), qtype, record.ips);
      assert Fits(env, rrs[0], NormalizeDomain(record.name), qtype);
    }
  }

  /** A resource record carrying an address. */
  predicate Carries(rr: RR, a: Address) {
    !rr.CNAME? && rr.address == a
  }

  lemma {:induction false} AllUsableMembers(
    parse: string -> Option<Address>, name: string, ttl: Uint32, qtype: Uint16, ips: seq<string>, a: Address)
    requires qtype == TYPE_A || qtype == TYPE_AAAA
    ensures (exists rr | rr in AllUsable(parse, name, ttl, qtype, ips) :: Carries(rr, a))
            <==> (a.V4? == (qtype == TYPE_A)) && exists ip | ip in ips :: parse(ip) == Some(a)
  {
    if ips != [] {
      var front, last := ips[..|ips| - 1], ips[|ips| - 1];
      AllUsableMembers(parse, name, ttl, qtype, front, a);
      assert ips == front + [last];
      var tail := Usable(parse(last), name, ttl, qtype);
      if a.V4? == (qtype == TYPE_A) && parse(last) == Some(a) {
        assert Carries(tail[0], a);
        assert tail[0] in AllUsable(parse, name, ttl, qtype, ips);
      }
    }
  }

  /** An address is served exactly when some listed string parses to it and it is of the family
      the record's type asks for. */
  lemma BuiltMembers(env: Env, record: DNSRecord, a: Address)
    requires record.ips != [] && Built(env, record).Ok?
    ensures (exists rr | rr in Built(env, record).value :: Carries(rr, a))
            <==> (a.V4? == (Upper(record.rtype) == "A")) && exists ip | ip in record.ips :: env.parse(ip) == Some(a)
  {
    AllUsableMembers(env.parse, NormalizeDomain(record.name), EffectiveTTL(env, record),
                     AddressType(record.rtype).value, record.ips, a);
  }

  /** A record without addresses is a skip, or one CNAME with the record's TTL, or the default for
      zero, whose target is canonical; a target already in canonical spelling is served verbatim,
      and one that only lacks its final dot is given it, whatever type the record claims. */
  lemma FailoverTarget(env: Env, record: DNSRecord)
    requires record.ips == []
    ensures var r, f := Built(env, record), record.failover;
      r.Ok? && (if f == "" then r.value == []
                else
                  && |r.value| == 1 && r.value[0].CNAME? && Normal(r.value[0].target)
                  && r.value[0].owner == NormalizeDomain(record.name)
                  && r.value[0].ttl == (if record.ttl == 0 then env.defaultTTL else record.ttl)
                  && r.value[0].target == NormalizeDomain(f)
                  && (Normal(f) ==> r.value[0].target == f)
                  && (Normal(f + ".") && f[|f| - 1] != '.' && !IsSpace(f[|f| - 1]) ==> r.value[0].target == f + "."))
  {
    var f := record.failover;
    NormalizeIsNormal(f);
    NormalizeFixpoint(f);
    if Normal(f + ".") && f != "" && f[|f| - 1] != '.' && !IsSpace(f[|f| - 1]) {
      assert TrimDot(f + ".") == f;
      NameRecovery(f + ".");
    }
    hide NormalizeDomain, Normal;
  }

  /** What the listed strings have to be for a type. */
  predicate Serves(parsed: Option<Address>, rtype: string) {
    parsed.Some? && ((Upper(rtype) == "A" && parsed.value.V4?) || (Upper(rtype) == "AAAA" && parsed.value.V6?))
  }

  lemma {:induction false} UsableExists(
    parse: string -> Option<Address>, name: string, ttl: Uint32, rtype: string, ips: seq<string>)
    requires AddressType(rtype).Some?
    ensures AllUsable(parse, name, ttl, AddressType(rtype).value, ips) != []
            <==> exists ip | ip in ips :: Serves(parse(ip), rtype)
  {
    hide Upper;
    if ips != [] {
      var front, last := ips[..|ips| - 1], ips[|ips| - 1];
      UsableExists(parse, name, ttl, rtype, front);
      assert ips == front + [last];
    }
  }

  /** When a record with addresses is built: exactly when its type, in any case, is A and some listed
      string parses to a four-byte address, or AAAA and some parses to another. A configured failover
      makes no difference, and the cause of a refusal is the type or else the addresses. */
  lemma AddressesBuiltIff(env: Env, record: DNSRecord, failover: string)
    requires record.ips != []
    ensures Built(env, record.(failover := failover)) == Built(env, record)
    ensures Built(env, record).Ok? <==> exists ip | ip in record.ips :: Serves(env.parse(ip), record.rtype)
    ensures Built(env, record) == Err(UnsupportedType) <==> Upper(record.rtype) !in {"A", "AAAA"}
  {
    hide Upper, NormalizeDomain;
    if AddressType(record.rtype).Some? {
      UsableExists(env.parse, NormalizeDomain(record.name), EffectiveTTL(env, record), record.rtype, record.ips);
    }
  }

  /** Every resource record built carries the record's own TTL, or the default when that is zero,
      under the record's name. */
  lemma BuiltTTL(env: Env, record: DNSRecord)
    requires Built(env, record).Ok?
    ensures forall rr | rr in Built(env, record).value ::
      && rr.owner == NormalizeDomain(record.name)
      && rr.ttl == if record.ttl == 0 then env.defaultTTL else record.ttl
  {
    hide NormalizeDomain, Upper;
    if record.ips != [] {
      var qtype := AddressType(record.rtype).value;
      AllUsableStamped(env.parse, NormalizeDomain(record.name), EffectiveTTL(env, record), qtype, record.ips);
    }
  }

  lemma {:induction false} AllUsableStamped(
    parse: string -> Option<Address>, name: string, ttl: Uint32, qtype: Uint16, ips: seq<string>)
    ensures forall rr | rr in AllUsable(parse, name, ttl, qtype, ips) :: rr.owner == name && rr.ttl == ttl
  {
    if ips != [] {
      AllUsableStamped(parse, name, ttl, qtype, ips[..|ips| - 1]);
    }
  }

  /** The addresses come out in the order the strings were listed. */
  lemma {:induction false} AllUsableAppend(
    parse: string -> Option<Address>, name: string, ttl: Uint32, qtype: Uint16, x: seq<string>, y: seq<string>)
    ensures AllUsable(parse, name, ttl, qtype, x + y)
            == AllUsable(parse, name, ttl, qtype, x) + AllUsable(parse, name, ttl, qtype, y)
  {
    hide Usable;
    if y == [] {
      assert x + y == x;
    } else {
      var front, last := y[..|y| - 1], y[|y| - 1];
      AllUsableAppend(parse, name, ttl, qtype, x, front);
      assert (x + y)[..|x + y| - 1] == x + front;
      assert (x + y)[|x + y| - 1] == last;
    }
  }

  /** The resource records of a record, none when it is refused. */
  function Harvest(env: Env, record: DNSRecord): seq<RR> {
    match Built(env, record) case Ok(rrs) => rrs case Err(_) => []
  }

  /** One listed string yields its address under the type asked for, or nothing. */
  lemma HarvestOne(env: Env, record: DNSRecord, ip: string)
    requires record.ips == [ip]
    ensures var name, ttl, a := NormalizeDomain(record.name), EffectiveTTL(env, record), env.parse(ip);
      Harvest(env, record) ==
      if !Serves(a, record.rtype) then []
      else if Upper(record.rtype) == "A" then [A(name, ttl, a.value)]
      else [AAAA(name, ttl, a.value)]
  {
    hide NormalizeDomain, Upper;
    assert record.ips[..0] == [];
    if AddressType(record.rtype).Some? {
      var name, ttl, qtype := NormalizeDomain(record.name), EffectiveTTL(env, record), AddressType(record.rtype).value;
      assert AllUsable(env.parse, name, ttl, qtype, record.ips[..0]) == [];
    }
  }

  lemma HarvestIs(env: Env, record: DNSRecord)
    requires record.ips != []
    ensures var name, ttl, qtype := NormalizeDomain(record.name), EffectiveTTL(env, record), AddressType(record.rtype);
      Harvest(env, record) == if qtype.None? then [] else AllUsable(env.parse, name, ttl, qtype.value, record.ips)
  {
    hide NormalizeDomain, AddressType, AllUsable;
  }

  /** A longer list of strings yields what its parts yield, in the order they were listed. */
  lemma HarvestAppend(env: Env, record: DNSRecord, x: seq<string>, y: seq<string>)
    requires x != [] && y != []
    ensures Harvest(env, record.(ips := x + y))
            == Harvest(env, record.(ips := x)) + Harvest(env, record.(ips := y))
  {
    hide NormalizeDomain, AddressType, AllUsable, Harvest;
    HarvestIs(env, record.(ips := x));
    HarvestIs(env, record.(ips := y));
    HarvestIs(env, record.(ips := x + y));
    if AddressType(record.rtype).Some? {
      var qtype := AddressType(record.rtype).value;
      AllUsableAppend(env.parse, NormalizeDomain(record.name), EffectiveTTL(env, record), qtype, x, y);
    }
  }
}
