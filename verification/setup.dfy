/** Reading the plugin's configuration block: a loop over tokens that overwrites fields, then
    final checks. Durations are in nanoseconds. */
module Setup {
  import opened Names
  import opened Records

  /** A word of the configuration block and the line it stands on. */
  datatype Token = Token(text: string, line: int)

  datatype Config = Config(
    zone: string,
    endpoint: string,
    secret: string,
    ttl: Uint32,
    syncInterval: int,
    timeout: int,
    webhookAddr: string,
    webhookEnable: bool,
    tlsSkipVerify: bool,
    nodeIP: string,
    regions: seq<string>,
    fallthrough: Option<seq<string>>)

  datatype ConfigError =
    | MissingArgument
    | InvalidTTL
    | InvalidSyncInterval
    | InvalidTimeout
    | UnknownDirective
    | ZoneRequired
    | EndpointRequired
    | SecretRequired
    | NodeIPRequired
    | SecretTooShort
    | IntervalNotAboveTimeout

  const SECOND := 1_000_000_000
  const MIN_SYNC_INTERVAL := 5 * SECOND
  const MAX_SYNC_INTERVAL := 300 * SECOND
  const MIN_TIMEOUT := 1 * SECOND
  const MIN_SECRET_LENGTH := 8

  function Defaults(zone: string): Config {
    Config(zone, "", "", 300, 300 * SECOND, 4 * SECOND, ":8053", false, false, "", [], None)
  }

  /* ---------- numbers ---------- */

  predicate IsDigit(c: char) {
    '0' <= c <= '9'
  }

  /** The value of a string of decimal digits. */
  function Decimal(s: string): nat
    requires forall i | 0 <= i < |s| :: IsDigit(s[i])
  {
    if s == "" then 0
    else
      assert IsDigit(s[|s| - 1]);
      10 * Decimal(s[..|s| - 1]) + (s[|s| - 1] as int - 48)
  }

  /** An unsigned decimal number of 32 bits. */
  function ParseUint32(s: string): Option<Uint32> {
    if s == "" || !(forall i | 0 <= i < |s| :: IsDigit(s[i])) then None
    else if Decimal(s) >= 0x1_0000_0000 then None
    else Some(Decimal(s))
  }

  /* ---------- directives ---------- */

  /** A directive with the arguments it takes from its line. */
  datatype Directive = Directive(name: string, args: seq<string>)

  /** How many arguments a directive takes when there are some on its line: one, all or none. */
  datatype Appetite = One | Rest | Zero

  function AppetiteOf(name: string): Appetite {
    if name == "endpoint" || name == "secret" || name == "ttl" || name == "sync_interval" || name == "timeout"
       || name == "node_ip" || name == "webhook" then One
    else if name == "fallthrough" || name == "regions" then Rest
    else Zero
  }

  /** The tokens from position i that are still on a line. */
  function RestOfLine(tokens: seq<Token>, i: nat, line: int): (args: seq<string>)
    requires i <= |tokens|
    ensures i + |args| <= |tokens|
    decreases |tokens| - i
  {
    if i < |tokens| && tokens[i].line == line then [tokens[i].text] + RestOfLine(tokens, i + 1, line) else []
  }

  function ArgsAt(tokens: seq<Token>, i: nat): (args: seq<string>)
    requires i < |tokens|
    ensures i + 1 + |args| <= |tokens|
  {
    var all := RestOfLine(tokens, i + 1, tokens[i].line);
    match AppetiteOf(tokens[i].text)
    case Zero => []
    case Rest => all
    case One => if all == [] then [] else all[..1]
  }

  /** The block cut into directives; words left over on a line are read as directives themselves. */
  function Cut(tokens: seq<Token>, i: nat): seq<Directive>
    requires i <= |tokens|
    decreases |tokens| - i
  {
    if i == |tokens| then []
    else
      var args := ArgsAt(tokens, i);
      [Directive(tokens[i].text, args)] + Cut(tokens, i + 1 + |args|)
  }

  /** The duration parser the plugin is linked with. */
  type DurationParser = string -> Option<int>

  /** What is wrong with a directive, on its own. */
  function Defect(parse: DurationParser, d: Directive): Option<ConfigError> {
    if d.name == "endpoint" || d.name == "secret" || d.name == "node_ip" || d.name == "regions" then
      if d.args == [] then Some(MissingArgument) else None
    else if d.name == "ttl" then
      if d.args == [] then Some(MissingArgument)
      else
        match ParseUint32(d.args[0])
        case None => Some(InvalidTTL)
        case Some(v) => if v == 0 then Some(InvalidTTL) else None
    else if d.name == "sync_interval" then
      if d.args == [] then Some(MissingArgument)
      else
        match parse(d.args[0])
        case None => Some(InvalidSyncInterval)
        case Some(v) => if v < MIN_SYNC_INTERVAL || v > MAX_SYNC_INTERVAL then Some(InvalidSyncInterval) else None
    else if d.name == "timeout" then
      if d.args == [] then Some(MissingArgument)
      else
        match parse(d.args[0])
        case None => Some(InvalidTimeout)
        case Some(v) => if v < MIN_TIMEOUT then Some(InvalidTimeout) else None
    else if d.name == "webhook" || d.name == "fallthrough" || d.name == "tls_skip_verify" then None
    else Some(UnknownDirective)
  }

  /** The fields a sound directive overwrites. */
  function Overwrite(parse: DurationParser, c: Config, d: Directive): Config
    requires Defect(parse, d).None?
  {
    if d.name == "endpoint" then c.(endpoint := d.args[0])
    else if d.name == "secret" then c.(secret := d.args[0])
    else if d.name == "ttl" then c.(ttl := ParseUint32(d.args[0]).value)
    else if d.name == "sync_interval" then c.(syncInterval := parse(d.args[0]).value)
    else if d.name == "timeout" then c.(timeout := parse(d.args[0]).value)
    else if d.name == "webhook" then
      c.(webhookEnable := true, webhookAddr := if d.args == [] then c.webhookAddr else d.args[0])
    else if d.name == "fallthrough" then c.(fallthrough := Some(d.args))
    else if d.name == "tls_skip_verify" then c.(tlsSkipVerify := true)
    else if d.name == "node_ip" then c.(nodeIP := d.args[0])
    else c.(regions := d.args)
  }

  function ReadAll(parse: DurationParser, c: Config, ds: seq<Directive>): Result<Config, ConfigError>
    decreases |ds|
  {
    if ds == [] then Ok(c)
    else
      match Defect(parse, ds[0])
      case Some(e) => Err(e)
      case None => ReadAll(parse, Overwrite(parse, c, ds[0]), ds[1..])
  }

  /** The checks after the loop. */
  function FinalCheck(c: Config): Result<Config, ConfigError> {
    if c.zone == "" then Err(ZoneRequired)
    else if c.endpoint == "" then Err(EndpointRequired)
    else if c.secret == "" then Err(SecretRequired)
    else if c.nodeIP == "" then Err(NodeIPRequired)
    else if |c.secret| < MIN_SECRET_LENGTH then Err(SecretTooShort)
    else if c.syncInterval <= c.timeout then Err(IntervalNotAboveTimeout)
    else Ok(c)
  }

  function Configure(parse: DurationParser, zone: string, ds: seq<Directive>): Result<Config, ConfigError> {
    match ReadAll(parse, Defaults(zone), ds)
    case Err(e) => Err(e)
    case Ok(c) => FinalCheck(c)
  }

  /* ---------- the loop ---------- */

  /** Collects what is left of the line of the token at i. */
  method RemainingArgs(tokens: seq<Token>, i: nat) returns (args: seq<string>)
    requires i < |tokens|
    ensures args == RestOfLine(tokens, i + 1, tokens[i].line)
  {
    args := [];
    var k := i + 1;
    while k < |tokens| && tokens[k].line == tokens[i].line
      invariant i < k <= |tokens|
      invariant args + RestOfLine(tokens, k, tokens[i].line) == RestOfLine(tokens, i + 1, tokens[i].line)
    {
      args := args + [tokens[k].text];
      k := k + 1;
    }
  }

  /** The next word, when it stands on the same line. */
  method NextArg(tokens: seq<Token>, i: nat) returns (arg: Option<string>)
    requires i < |tokens|
    ensures arg == if i + 1 < |tokens| && tokens[i + 1].line == tokens[i].line then Some(tokens[i + 1].text) else None
  {
    if i + 1 < |tokens| && tokens[i + 1].line == tokens[i].line {
      return Some(tokens[i + 1].text);
    }
    return None;
  }

  /** One turn of the loop: the directive at i, the fields it overwrites, and where the next starts. */
  method ReadDirective(parse: DurationParser, c: Config, tokens: seq<Token>, i: nat)
    returns (result: Result<Config, ConfigError>, next: nat)
    requires i < |tokens|
    ensures var d := Directive(tokens[i].text, ArgsAt(tokens, i));
      && next == i + 1 + |d.args|
      && result == match Defect(parse, d) case Some(e) => Err(e) case None => Ok(Overwrite(parse, c, d))
  {
    hide ParseUint32;
    var name := tokens[i].text;
    ghost var d := Directive(name, ArgsAt(tokens, i));
    next := i + 1;
    if name == "fallthrough" || name == "regions" {
      var args := RemainingArgs(tokens, i);
      next := i + 1 + |args|;
      if name == "fallthrough" {
        return Ok(c.(fallthrough := Some(args))), next;
      }
      if |args| == 0 {
        return Err(MissingArgument), next;
      }
      return Ok(c.(regions := args)), next;
    }
    if name == "tls_skip_verify" {
      return Ok(c.(tlsSkipVerify := true)), next;
    }
    if AppetiteOf(name) != One {
      return Err(UnknownDirective), next;
    }
    var arg := NextArg(tokens, i);
    next := if arg.Some? then i + 2 else i + 1;
    FirstOfLine(tokens, i);
    if name == "webhook" {
      var addr := if arg.Some? then arg.value else c.webhookAddr;
      return Ok(c.(webhookEnable := true, webhookAddr := addr)), next;
    }
    if arg.None? {
      return Err(MissingArgument), next;
    }
    result := ReadValue(parse, c, name, arg.value);
  }

  lemma FirstOfLine(tokens: seq<Token>, i: nat)
    requires i < |tokens| && AppetiteOf(tokens[i].text) == One
    ensures ArgsAt(tokens, i) ==
            if i + 1 < |tokens| && tokens[i + 1].line == tokens[i].line then [tokens[i + 1].text] else []
  {
  }

  /** The directives that take exactly one value. */
  method ReadValue(parse: DurationParser, c: Config, name: string, value: string)
    returns (result: Result<Config, ConfigError>)
    requires AppetiteOf(name) == One && name != "webhook"
    ensures var d := Directive(name, [value]);
      result == match Defect(parse, d) case Some(e) => Err(e) case None => Ok(Overwrite(parse, c, d))
  {
    hide ParseUint32;
    if name == "endpoint" {
      return Ok(c.(endpoint := value));
    }
    if name == "secret" {
      return Ok(c.(secret := value));
    }
    if name == "ttl" {
      var ttl := ParseUint32(value);
      if ttl.None? {
        return Err(InvalidTTL);
      }
      if ttl.value == 0 {
        return Err(InvalidTTL);
      }
      return Ok(c.(ttl := ttl.value));
    }
    if name == "sync_interval" {
      var interval := parse(value);
      if interval.None? {
        return Err(InvalidSyncInterval);
      }
      if interval.value < MIN_SYNC_INTERVAL {
        return Err(InvalidSyncInterval);
      }
      if interval.value > MAX_SYNC_INTERVAL {
        return Err(InvalidSyncInterval);
      }
      return Ok(c.(syncInterval := interval.value));
    }
    if name == "timeout" {
      var timeout := parse(value);
      if timeout.None? {
        return Err(InvalidTimeout);
      }
      if timeout.value < MIN_TIMEOUT {
        return Err(InvalidTimeout);
      }
      return Ok(c.(timeout := timeout.value));
    }
    return Ok(c.(nodeIP := value));
  }

  /** Reads the block one directive at a time, overwriting fields, and then checks the whole. */
  method ParseElchi(parse: DurationParser, zone: string, tokens: seq<Token>)
    returns (result: Result<Config, ConfigError>)
    ensures result == Configure(parse, zone, Cut(tokens, 0))
  {
    hide Defect, Overwrite, ArgsAt;
    var c := Defaults(zone);
    var i := 0;
    while i < |tokens|
      invariant i <= |tokens|
      invariant ReadAll(parse, Defaults(zone), Cut(tokens, 0)) == ReadAll(parse, c, Cut(tokens, i))
    {
      CutOnce(tokens, i);
      var step, next := ReadDirective(parse, c, tokens, i);
      if step.Err? {
        return Err(step.error);
      }
      c := step.value;
      i := next;
    }
    if c.zone == "" {
      return Err(ZoneRequired);
    }
    if c.endpoint == "" {
      return Err(EndpointRequired);
    }
    if c.secret == "" {
      return Err(SecretRequired);
    }
    if c.nodeIP == "" {
      return Err(NodeIPRequired);
    }
    if |c.secret| < MIN_SECRET_LENGTH {
      return Err(SecretTooShort);
    }
    if c.syncInterval <= c.timeout {
      return Err(IntervalNotAboveTimeout);
    }
    return Ok(c);
  }

  lemma CutOnce(tokens: seq<Token>, i: nat)
    requires i < |tokens|
    ensures var args, ds := ArgsAt(tokens, i), Cut(tokens, i);
      ds != [] && ds[0] == Directive(tokens[i].text, args) && ds[1..] == Cut(tokens, i + 1 + |args|)
  {
    hide ArgsAt;
  }

  /* ---------- what acceptance guarantees ---------- */

  predicate InRange(c: Config) {
    && MIN_SYNC_INTERVAL <= c.syncInterval <= MAX_SYNC_INTERVAL
    && MIN_TIMEOUT <= c.timeout
    && 0 < c.ttl
  }

  lemma {:induction false} ReadAllInRange(parse: DurationParser, c: Config, ds: seq<Directive>)
    requires InRange(c)
    ensures ReadAll(parse, c, ds).Ok? ==>
      InRange(ReadAll(parse, c, ds).value) && ReadAll(parse, c, ds).value.zone == c.zone
    decreases |ds|
  {
    if ds != [] && Defect(parse, ds[0]).None? {
      OverwriteInRange(parse, c, ds[0]);
      hide Defect, Overwrite, InRange;
      ReadAllInRange(parse, Overwrite(parse, c, ds[0]), ds[1..]);
    }
  }

  lemma OverwriteInRange(parse: DurationParser, c: Config, d: Directive)
    requires InRange(c) && Defect(parse, d).None?
    ensures InRange(Overwrite(parse, c, d)) && Overwrite(parse, c, d).zone == c.zone
  {
    hide ParseUint32;
  }

  /** Whatever directives a block holds, in whatever order and number, an accepted configuration is
      within every bound. */
  lemma AcceptedIsBounded(parse: DurationParser, zone: string, ds: seq<Directive>)
    ensures var r := Configure(parse, zone, ds);
      r.Ok? ==>
        && 5 * SECOND <= r.value.syncInterval <= 300 * SECOND
        && SECOND <= r.value.timeout < r.value.syncInterval
        && 0 < r.value.ttl < 0x1_0000_0000
        && |r.value.secret| >= 8
        && r.value.zone == zone != "" && r.value.endpoint != "" && r.value.nodeIP != ""
  {
    ReadAllInRange(parse, Defaults(zone), ds);
  }

  /* ---------- order ---------- */

  /** The directives of one kind, in their order. */
  function OfName(ds: seq<Directive>, name: string): seq<Directive>
    decreases |ds|
  {
    if ds == [] then []
    else (if ds[0].name == name then [ds[0]] else []) + OfName(ds[1..], name)
  }

  predicate Sound(parse: DurationParser, ds: seq<Directive>) {
    forall d | d in ds :: Defect(parse, d).None?
  }

  lemma {:induction false} ReadAllIffSound(parse: DurationParser, c: Config, ds: seq<Directive>)
    ensures ReadAll(parse, c, ds).Ok? <==> Sound(parse, ds)
    decreases |ds|
  {
    hide Defect, Overwrite;
    if ds != [] {
      assert ds == [ds[0]] + ds[1..];
      assert ds[0] in ds;
      if Defect(parse, ds[0]).None? {
        ReadAllIffSound(parse, Overwrite(parse, c, ds[0]), ds[1..]);
      }
    }
  }

  lemma {:induction false} OfNameMembers(ds: seq<Directive>, name: string)
    ensures forall d :: d in OfName(ds, name) <==> d in ds && d.name == name
    decreases |ds|
  {
    if ds != [] {
      OfNameMembers(ds[1..], name);
      assert ds == [ds[0]] + ds[1..];
    }
  }

  /** The part of a configuration that directives of one kind write. */
  predicate SameSlot(x: Config, y: Config, name: string) {
    && (name == "endpoint" ==> x.endpoint == y.endpoint)
    && (name == "secret" ==> x.secret == y.secret)
    && (name == "ttl" ==> x.ttl == y.ttl)
    && (name == "sync_interval" ==> x.syncInterval == y.syncInterval)
    && (name == "timeout" ==> x.timeout == y.timeout)
    && (name == "webhook" ==> x.webhookEnable == y.webhookEnable && x.webhookAddr == y.webhookAddr)
    && (name == "fallthrough" ==> x.fallthrough == y.fallthrough)
    && (name == "tls_skip_verify" ==> x.tlsSkipVerify == y.tlsSkipVerify)
    && (name == "node_ip" ==> x.nodeIP == y.nodeIP)
    && (name == "regions" ==> x.regions == y.regions)
  }

  /** A directive writes its own slot from that slot alone. */
  lemma OverwriteOwn(parse: DurationParser, x: Config, y: Config, d: Directive)
    requires Defect(parse, d).None? && SameSlot(x, y, d.name)
    ensures SameSlot(Overwrite(parse, x, d), Overwrite(parse, y, d), d.name)
  {
    hide ParseUint32, Defect;
  }

  /** A directive leaves every other slot. */
  lemma OverwriteForeign(parse: DurationParser, x: Config, d: Directive, name: string)
    requires Defect(parse, d).None? && d.name != name
    ensures SameSlot(Overwrite(parse, x, d), x, name)
  {
    OverwriteKnown(parse, d);
    hide ParseUint32, Defect;
  }

  lemma OverwriteKnown(parse: DurationParser, d: Directive)
    requires Defect(parse, d).None?
    ensures d.name in {"endpoint", "secret", "ttl", "sync_interval", "timeout", "webhook", "fallthrough",
                       "tls_skip_verify", "node_ip", "regions"}
  {
    hide ParseUint32;
  }

  lemma SameSlotTrans(x: Config, y: Config, z: Config, name: string)
    requires SameSlot(x, y, name) && SameSlot(y, z, name)
    ensures SameSlot(x, z, name)
  {
  }

  /** What a block leaves in a slot is what its directives of that kind alone would leave there. */
  lemma {:induction false} SlotFromOwnDirectives(
    parse: DurationParser, x: Config, y: Config, ds: seq<Directive>, name: string)
    requires Sound(parse, ds) && SameSlot(x, y, name)
    ensures ReadAll(parse, x, ds).Ok? && ReadAll(parse, y, OfName(ds, name)).Ok?
    ensures SameSlot(ReadAll(parse, x, ds).value, ReadAll(parse, y, OfName(ds, name)).value, name)
    decreases |ds|
  {
    if ds != [] {
      assert ds[0] in ds && ds == [ds[0]] + ds[1..];
      hide Defect, Overwrite, SameSlot;
      var x' := Overwrite(parse, x, ds[0]);
      var own := OfName(ds, name);
      if ds[0].name == name {
        OverwriteOwn(parse, x, y, ds[0]);
        SlotFromOwnDirectives(parse, x', Overwrite(parse, y, ds[0]), ds[1..], name);
        assert own[1..] == OfName(ds[1..], name);
      } else {
        OverwriteForeign(parse, x, ds[0], name);
        SameSlotTrans(x', x, y, name);
        SlotFromOwnDirectives(parse, x', y, ds[1..], name);
        assert own == OfName(ds[1..], name);
      }
    }
  }

  lemma SameSlotsSameConfig(x: Config, y: Config)
    requires x.zone == y.zone && forall name :: SameSlot(x, y, name)
    ensures x == y
  {
    assert SameSlot(x, y, "endpoint") && SameSlot(x, y, "secret") && SameSlot(x, y, "ttl");
    assert SameSlot(x, y, "sync_interval") && SameSlot(x, y, "timeout") && SameSlot(x, y, "webhook");
    assert SameSlot(x, y, "fallthrough") && SameSlot(x, y, "tls_skip_verify");
    assert SameSlot(x, y, "node_ip") && SameSlot(x, y, "regions");
  }

  lemma SoundByKind(parse: DurationParser, xs: seq<Directive>, ys: seq<Directive>)
    requires forall name :: OfName(xs, name) == OfName(ys, name)
    ensures Sound(parse, xs) ==> Sound(parse, ys)
  {
    hide Defect, OfName;
    forall d | d in ys
      ensures d in xs
    {
      OfNameMembers(xs, d.name);
      OfNameMembers(ys, d.name);
      assert OfName(xs, d.name) == OfName(ys, d.name);
    }
  }

  lemma ReadAllByKind(parse: DurationParser, zone: string, xs: seq<Directive>, ys: seq<Directive>)
    requires forall name :: OfName(xs, name) == OfName(ys, name)
    requires Sound(parse, xs) && Sound(parse, ys)
    ensures ReadAll(parse, Defaults(zone), xs) == ReadAll(parse, Defaults(zone), ys)
  {
    var c := Defaults(zone);
    ReadAllIffSound(parse, c, xs);
    ReadAllIffSound(parse, c, ys);
    ReadAllInRange(parse, c, xs);
    ReadAllInRange(parse, c, ys);
    var x, y := ReadAll(parse, c, xs).value, ReadAll(parse, c, ys).value;
    forall name
      ensures SameSlot(x, y, name)
    {
      hide ReadAll, Sound;
      assert SameSlot(c, c, name);
      SlotFromOwnDirectives(parse, c, c, xs, name);
      SlotFromOwnDirectives(parse, c, c, ys, name);
      assert OfName(xs, name) == OfName(ys, name);
    }
    SameSlotsSameConfig(x, y);
  }

  /** Two blocks with the same directives of each kind, in the same order within each kind, are
      both refused or give the same configuration, however the kinds are interleaved. Only which
      defective directive is reported can depend on the interleaving. */
  lemma OrderAcrossKindsIsIrrelevant(parse: DurationParser, zone: string, xs: seq<Directive>, ys: seq<Directive>)
    requires forall name :: OfName(xs, name) == OfName(ys, name)
    ensures Configure(parse, zone, xs).Ok? <==> Configure(parse, zone, ys).Ok?
    ensures Sound(parse, xs) || Configure(parse, zone, xs).Ok? ==>
      Configure(parse, zone, xs) == Configure(parse, zone, ys)
  {
    ReadAllIffSound(parse, Defaults(zone), xs);
    ReadAllIffSound(parse, Defaults(zone), ys);
    SoundByKind(parse, xs, ys);
    SoundByKind(parse, ys, xs);
    if Sound(parse, xs) {
      ReadAllByKind(parse, zone, xs, ys);
    }
    hide ReadAll, Sound, FinalCheck;
  }

  /* ---------- what an accepted block says ---------- */

  /** The last directive of a kind. */
  function LastOf(ds: seq<Directive>, name: string): Option<Directive>
    decreases |ds|
  {
    if ds == [] then None
    else
      var later := LastOf(ds[1..], name);
      if later.Some? then later else if ds[0].name == name then Some(ds[0]) else None
  }

  /** The last address given to a webhook directive; one without an address gives none. */
  function LastAddress(ds: seq<Directive>): Option<string>
    decreases |ds|
  {
    if ds == [] then None
    else
      var later := LastAddress(ds[1..]);
      if later.Some? then later
      else if ds[0].name == "webhook" && ds[0].args != [] then Some(ds[0].args[0])
      else None
  }

  /** The first argument of a directive, or what stands otherwise. */
  predicate Says(d: Option<Directive>, value: string, otherwise: string) {
    match d
    case None => value == otherwise
    case Some(d) => d.args != [] && value == d.args[0]
  }

  predicate SaysDuration(parse: DurationParser, d: Option<Directive>, value: int, otherwise: int) {
    match d
    case None => value == otherwise
    case Some(d) => d.args != [] && parse(d.args[0]) == Some(value)
  }

  predicate SaysNumber(d: Option<Directive>, value: Uint32, otherwise: Uint32) {
    match d
    case None => value == otherwise
    case Some(d) => d.args != [] && ParseUint32(d.args[0]) == Some(value)
  }

  predicate SaysAll(d: Option<Directive>, value: seq<string>, otherwise: seq<string>) {
    match d
    case None => value == otherwise
    case Some(d) => d.args != [] && value == d.args
  }

  /** The slot of one kind holds what the last directive of that kind says, or what stood there. */
  predicate SlotSays(parse: DurationParser, base: Config, ds: seq<Directive>, c: Config, name: string) {
    var d := LastOf(ds, name);
    && (name == "endpoint" ==> Says(d, c.endpoint, base.endpoint))
    && (name == "secret" ==> Says(d, c.secret, base.secret))
    && (name == "node_ip" ==> Says(d, c.nodeIP, base.nodeIP))
    && (name == "ttl" ==> SaysNumber(d, c.ttl, base.ttl))
    && (name == "sync_interval" ==> SaysDuration(parse, d, c.syncInterval, base.syncInterval))
    && (name == "timeout" ==> SaysDuration(parse, d, c.timeout, base.timeout))
    && (name == "regions" ==> SaysAll(d, c.regions, base.regions))
    && (name == "webhook" ==>
          && c.webhookEnable == (base.webhookEnable || d.Some?)
          && c.webhookAddr == match LastAddress(ds) case None => base.webhookAddr case Some(a) => a)
    && (name == "fallthrough" ==> c.fallthrough == match d case None => base.fallthrough case Some(d) => Some(d.args))
    && (name == "tls_skip_verify" ==> c.tlsSkipVerify == (base.tlsSkipVerify || d.Some?))
  }

  /** One more directive in front: either a later one of its kind overrides it, or it is the last. */
  lemma SlotSaysStep(parse: DurationParser, base: Config, ds: seq<Directive>, c: Config, name: string)
    requires ds != [] && Defect(parse, ds[0]).None?
    requires SlotSays(parse, Overwrite(parse, base, ds[0]), ds[1..], c, name)
    ensures SlotSays(parse, base, ds, c, name)
  {
    hide ParseUint32;
    if ds[0].name != name {
      OverwriteForeign(parse, base, ds[0], name);
      hide Overwrite, Defect;
    }
  }

  lemma {:induction false} ReadAllSays(parse: DurationParser, base: Config, ds: seq<Directive>, name: string)
    requires ReadAll(parse, base, ds).Ok?
    ensures SlotSays(parse, base, ds, ReadAll(parse, base, ds).value, name)
    decreases |ds|
  {
    if ds != [] {
      var c := ReadAll(parse, base, ds).value;
      hide Defect, Overwrite, SlotSays;
      ReadAllSays(parse, Overwrite(parse, base, ds[0]), ds[1..], name);
      SlotSaysStep(parse, base, ds, c, name);
    }
  }

  /** Every field of an accepted configuration is what the last directive of its kind says, or the
      default when the block has none. */
  lemma AcceptedSays(parse: DurationParser, zone: string, ds: seq<Directive>)
    requires Configure(parse, zone, ds).Ok?
    ensures var c := Configure(parse, zone, ds).value;
      && Says(LastOf(ds, "endpoint"), c.endpoint, "")
      && Says(LastOf(ds, "secret"), c.secret, "")
      && Says(LastOf(ds, "node_ip"), c.nodeIP, "")
      && SaysNumber(LastOf(ds, "ttl"), c.ttl, 300)
      && SaysDuration(parse, LastOf(ds, "sync_interval"), c.syncInterval, 300_000_000_000)
      && SaysDuration(parse, LastOf(ds, "timeout"), c.timeout, 4_000_000_000)
      && SaysAll(LastOf(ds, "regions"), c.regions, [])
      && c.webhookEnable == LastOf(ds, "webhook").Some?
      && c.webhookAddr == (match LastAddress(ds) case None => ":8053" case Some(a) => a)
      && c.fallthrough == (match LastOf(ds, "fallthrough") case None => None case Some(d) => Some(d.args))
      && c.tlsSkipVerify == LastOf(ds, "tls_skip_verify").Some?
      && c.zone == zone
  {
    var base := Defaults(zone);
    ReadAllInRange(parse, base, ds);
    ReadAllSays(parse, base, ds, "endpoint");
    ReadAllSays(parse, base, ds, "secret");
    ReadAllSays(parse, base, ds, "node_ip");
    ReadAllSays(parse, base, ds, "ttl");
    ReadAllSays(parse, base, ds, "sync_interval");
    ReadAllSays(parse, base, ds, "timeout");
    ReadAllSays(parse, base, ds, "regions");
    ReadAllSays(parse, base, ds, "webhook");
    ReadAllSays(parse, base, ds, "fallthrough");
    ReadAllSays(parse, base, ds, "tls_skip_verify");
    hide ReadAll, LastOf, LastAddress, Says, SaysNumber, SaysDuration, SaysAll;
  }

  /* ---------- when a block is accepted ---------- */

  predicate NeedsArgument(name: string) {
    name in {"endpoint", "secret", "node_ip", "regions", "ttl", "sync_interval", "timeout"}
  }

  /** A directive that can stand on its own: known, with its argument, and that within bounds. */
  predicate WellFormed(parse: DurationParser, d: Directive) {
    && (NeedsArgument(d.name) || d.name in {"webhook", "fallthrough", "tls_skip_verify"})
    && (NeedsArgument(d.name) ==> d.args != [])
    && (d.name == "ttl" ==> ParseUint32(d.args[0]).Some? && ParseUint32(d.args[0]).value > 0)
    && (d.name == "sync_interval" ==>
          parse(d.args[0]).Some? && 5_000_000_000 <= parse(d.args[0]).value <= 300_000_000_000)
    && (d.name == "timeout" ==> parse(d.args[0]).Some? && parse(d.args[0]).value >= 1_000_000_000)
  }

  lemma DefectIff(parse: DurationParser, d: Directive)
    ensures Defect(parse, d).None? <==> WellFormed(parse, d)
    ensures Defect(parse, d) == Some(MissingArgument) <==> NeedsArgument(d.name) && d.args == []
    ensures Defect(parse, d) == Some(UnknownDirective) <==>
            !NeedsArgument(d.name) && d.name !in {"webhook", "fallthrough", "tls_skip_verify"}
    ensures !WellFormed(parse, d) && d.args != [] ==>
      && (d.name == "ttl" ==> Defect(parse, d) == Some(InvalidTTL))
      && (d.name == "sync_interval" ==> Defect(parse, d) == Some(InvalidSyncInterval))
      && (d.name == "timeout" ==> Defect(parse, d) == Some(InvalidTimeout))
  {
    hide ParseUint32;
  }

  /** A block with directives that are not well formed is refused for the first of them. */
  lemma {:induction false} FirstDefect(parse: DurationParser, c: Config, ds: seq<Directive>, i: nat)
    requires i < |ds| && Defect(parse, ds[i]).Some?
    requires forall j | 0 <= j < i :: Defect(parse, ds[j]).None?
    ensures ReadAll(parse, c, ds) == Err(Defect(parse, ds[i]).value)
    decreases |ds|
  {
    hide Defect, Overwrite;
    if i > 0 {
      assert Defect(parse, ds[0]).None?;
      FirstDefect(parse, Overwrite(parse, c, ds[0]), ds[1..], i - 1);
    }
  }

  /** The value of the last directive of a kind that takes one, or what stands otherwise. */
  function ValueOf(d: Option<Directive>, otherwise: string): string {
    if d.Some? && d.value.args != [] then d.value.args[0] else otherwise
  }

  function DurationOf(parse: DurationParser, d: Option<Directive>, otherwise: int): int {
    if d.Some? && d.value.args != [] && parse(d.value.args[0]).Some? then parse(d.value.args[0]).value else otherwise
  }

  /** A block is accepted exactly when each of its directives is well formed, the required fields
      are given and not empty, the secret has 8 characters, and the timeout is below the interval. */
  lemma AcceptedIff(parse: DurationParser, zone: string, ds: seq<Directive>)
    ensures Configure(parse, zone, ds).Ok? <==>
      && (forall d | d in ds :: WellFormed(parse, d))
      && zone != ""
      && ValueOf(LastOf(ds, "endpoint"), "") != ""
      && ValueOf(LastOf(ds, "node_ip"), "") != ""
      && |ValueOf(LastOf(ds, "secret"), "")| >= 8
      && DurationOf(parse, LastOf(ds, "timeout"), 4_000_000_000)
         < DurationOf(parse, LastOf(ds, "sync_interval"), 300_000_000_000)
  {
    var base := Defaults(zone);
    ReadAllIffSound(parse, base, ds);
    forall d | d in ds
      ensures Defect(parse, d).None? <==> WellFormed(parse, d)
    {
      DefectIff(parse, d);
    }
    hide Defect, WellFormed;
    if Sound(parse, ds) {
      ReadAllInRange(parse, base, ds);
      ReadAllSays(parse, base, ds, "endpoint");
      ReadAllSays(parse, base, ds, "secret");
      ReadAllSays(parse, base, ds, "node_ip");
      ReadAllSays(parse, base, ds, "sync_interval");
      ReadAllSays(parse, base, ds, "timeout");
      hide ReadAll, LastOf, LastAddress;
    }
  }

  /* ---------- numbers and lines ---------- */

  function Digit(n: nat): char
    requires n < 10
  {
    "0123456789"[n]
  }

  /** The decimal spelling of a number. */
  function Spelled(n: nat): string {
    if n < 10 then [Digit(n)] else Spelled(n / 10) + [Digit(n % 10)]
  }

  lemma DigitAt(n: nat)
    requires n < 10
    ensures Digit(n) as int == 48 + n
  {
  }

  lemma {:induction false} SpelledDecimal(n: nat)
    ensures Spelled(n) != "" && forall i | 0 <= i < |Spelled(n)| :: IsDigit(Spelled(n)[i])
    ensures Decimal(Spelled(n)) == n
  {
    DigitAt(n % 10);
    if n < 10 {
      assert [Digit(n)][..0] == "";
      assert Decimal([Digit(n)][..0]) == 0;
    } else {
      SpelledDecimal(n / 10);
      assert Spelled(n)[..|Spelled(n)| - 1] == Spelled(n / 10);
    }
  }

  /** A number is read back from its decimal spelling exactly when it has 32 bits. */
  lemma ParseSpelled(n: nat)
    ensures ParseUint32(Spelled(n)) == if n < 0x1_0000_0000 then Some(n) else None
  {
    SpelledDecimal(n);
    hide Spelled, Decimal;
  }

  function OnLine(words: seq<string>, line: int): (tokens: seq<Token>)
    ensures |tokens| == |words|
    ensures forall i | 0 <= i < |words| :: tokens[i] == Token(words[i], line)
  {
    seq(|words|, i requires 0 <= i < |words| => Token(words[i], line))
  }

  /** A block written with one directive a line. */
  function LaidOut(ds: seq<Directive>, line: int): seq<Token>
    decreases |ds|
  {
    if ds == [] then [] else OnLine([ds[0].name] + ds[0].args, line) + LaidOut(ds[1..], line + 1)
  }

  /** The directive takes all the words of its line: at most one, any number, or none. */
  predicate TakesLine(d: Directive) {
    match AppetiteOf(d.name)
    case One => |d.args| <= 1
    case Rest => true
    case Zero => d.args == []
  }

  lemma LaidOutAhead(ds: seq<Directive>, line: int, j: nat)
    requires j < |LaidOut(ds, line)|
    ensures LaidOut(ds, line)[j].line >= line
    decreases |ds|
  {
    var first := OnLine([ds[0].name] + ds[0].args, line);
    if j >= |first| {
      LaidOutAhead(ds[1..], line + 1, j - |first|);
    }
  }

  lemma {:induction false} RestOfLineIs(tokens: seq<Token>, i: nat, args: seq<string>, line: int)
    requires i + |args| <= |tokens|
    requires forall k | 0 <= k < |args| :: tokens[i + k] == Token(args[k], line)
    requires i + |args| < |tokens| ==> tokens[i + |args|].line != line
    ensures RestOfLine(tokens, i, line) == args
    decreases |args|
  {
    if args != [] {
      assert tokens[i + 0] == Token(args[0], line);
      forall k | 0 <= k < |args[1..]|
        ensures tokens[i + 1 + k] == Token(args[1..][k], line)
      {
        assert tokens[i + (k + 1)] == Token(args[k + 1], line);
      }
      RestOfLineIs(tokens, i + 1, args[1..], line);
    }
  }

  /** The first line of such a block: its directive's words, and then another line or the end. */
  lemma FirstLine(tokens: seq<Token>, i: nat, ds: seq<Directive>, line: int)
    requires i <= |tokens| && tokens[i..] == LaidOut(ds, line) && ds != []
    ensures var next := i + 1 + |ds[0].args|;
      && next <= |tokens|
      && tokens[i] == Token(ds[0].name, line)
      && tokens[next..] == LaidOut(ds[1..], line + 1)
      && RestOfLine(tokens, i + 1, line) == ds[0].args
  {
    var d, rest := ds[0], LaidOut(ds[1..], line + 1);
    var first := OnLine([d.name] + d.args, line);
    assert tokens[i..] == first + rest;
    hide LaidOut;
    assert tokens[i] == tokens[i..][0];
    forall k | 0 <= k < |d.args|
      ensures tokens[i + 1 + k] == Token(d.args[k], line)
    {
      assert tokens[i + 1 + k] == tokens[i..][1 + k] == first[1 + k];
    }
    var next := i + 1 + |d.args|;
    assert tokens[next..] == tokens[i..][|first|..] == rest;
    if next < |tokens| {
      assert tokens[next] == tokens[next..][0];
      LaidOutAhead(ds[1..], line + 1, 0);
    }
    RestOfLineIs(tokens, i + 1, d.args, line);
  }

  lemma TakenIff(tokens: seq<Token>, i: nat, d: Directive)
    requires i < |tokens| && tokens[i].text == d.name
    requires RestOfLine(tokens, i + 1, tokens[i].line) == d.args
    ensures ArgsAt(tokens, i) == d.args <==> TakesLine(d)
  {
    hide RestOfLine;
  }

  /** Cutting a block with one directive a line gives the directives back exactly when each takes
      all the words of its line. */
  lemma {:induction false} CutLaidOut(tokens: seq<Token>, i: nat, ds: seq<Directive>, line: int)
    requires i <= |tokens| && tokens[i..] == LaidOut(ds, line)
    ensures Cut(tokens, i) == ds <==> forall d | d in ds :: TakesLine(d)
    decreases |ds|
  {
    if ds == [] {
      assert |tokens[i..]| == 0;
    } else {
      FirstLine(tokens, i, ds, line);
      assert tokens[i..] != [];
      TakenIff(tokens, i, ds[0]);
      CutOnce(tokens, i);
      hide RestOfLine, Cut, LaidOut, ArgsAt, TakesLine;
      assert ds == [ds[0]] + ds[1..];
      assert Cut(tokens, i) == [Cut(tokens, i)[0]] + Cut(tokens, i)[1..];
      if TakesLine(ds[0]) {
        CutLaidOut(tokens, i + 1 + |ds[0].args|, ds[1..], line + 1);
      }
    }
  }
}
