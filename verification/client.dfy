/** How the client reads a reply of the controller: status, body, and the two validations. */
module Client {
  import opened Records

  /** The fields a reply body can carry; a snapshot reply has no use for the flag. */
  datatype Payload = Payload(noChange: bool, zone: string, versionHash: string, records: seq<DNSRecord>)

  datatype Body = Unreadable | Malformed | Decoded(payload: Payload)

  datatype Reply = Unreachable | Response(status: int, body: Body)

  datatype ClientError =
    | RequestFailed
    | BodyUnreadable
    | UnexpectedStatus(status: int)
    | DecodeFailed
    | MissingZone
    | MissingVersionHash

  const STATUS_OK := 200
  const STATUS_NOT_MODIFIED := 304

  function FetchSnapshot(reply: Reply): Result<DNSSnapshot, ClientError> {
    match reply
    case Unreachable => Err(RequestFailed)
    case Response(status, body) =>
      if body.Unreadable? then Err(BodyUnreadable)
      else if status != STATUS_OK then Err(UnexpectedStatus(status))
      else if body.Malformed? then Err(DecodeFailed)
      else if body.payload.zone == "" then Err(MissingZone)
      else if body.payload.versionHash == "" then Err(MissingVersionHash)
      else Ok(DNSSnapshot(body.payload.zone, body.payload.versionHash, body.payload.records))
  }

  function CheckChanges(reply: Reply): Result<Payload, ClientError> {
    match reply
    case Unreachable => Err(RequestFailed)
    case Response(status, body) =>
      if status == STATUS_NOT_MODIFIED then Ok(Payload(true, "", "", []))
      else if body.Unreadable? then Err(BodyUnreadable)
      else if status != STATUS_OK then Err(UnexpectedStatus(status))
      else if body.Malformed? then Err(DecodeFailed)
      else if !body.payload.noChange && body.payload.zone == "" then Err(MissingZone)
      else if !body.payload.noChange && body.payload.versionHash == "" then Err(MissingVersionHash)
      else Ok(body.payload)
  }

  /** What one exchange decides, given the hash the cache held when it started. */
  datatype Verdict = Failed(error: ClientError) | Unchanged | Changed(snapshot: DNSSnapshot)

  function Judge(since: string, reply: Reply): Verdict {
    if since == "" then
      match FetchSnapshot(reply)
      case Err(e) => Failed(e)
      case Ok(snapshot) => Changed(snapshot)
    else
      match CheckChanges(reply)
      case Err(e) => Failed(e)
      case Ok(c) => if c.noChange then Unchanged else Changed(DNSSnapshot(c.zone, c.versionHash, c.records))
  }

  /** A reply to a question since a hash that brings no news: not modified, or readable and marked
      unchanged. */
  predicate SaysUnchanged(since: string, reply: Reply) {
    && since != "" && reply.Response?
    && (reply.status == 304 || (reply.status == 200 && reply.body.Decoded? && reply.body.payload.noChange))
  }

  /** A reply that brings a whole snapshot: readable, with a zone and a hash. */
  predicate Delivers(since: string, reply: Reply) {
    && reply.Response? && reply.status == 200 && reply.body.Decoded?
    && reply.body.payload.zone != "" && reply.body.payload.versionHash != ""
    && (since != "" ==> !reply.body.payload.noChange)
  }

  /** Every reply is classified by these two tests alone: it says unchanged, or delivers exactly the
      snapshot it carries, or fails; an unreachable controller and every other status fail. */
  lemma JudgeIff(since: string, reply: Reply)
    ensures Judge(since, reply).Unchanged? <==> SaysUnchanged(since, reply)
    ensures Judge(since, reply).Changed? <==> Delivers(since, reply)
    ensures Delivers(since, reply) ==>
      var p := reply.body.payload;
      Judge(since, reply).snapshot == DNSSnapshot(p.zone, p.versionHash, p.records)
    ensures Judge(since, reply).Failed? <==> !SaysUnchanged(since, reply) && !Delivers(since, reply)
  {
  }

  /** What a failure is blamed on: the first of connection, body, status, format, zone and hash that
      is at fault. */
  lemma FailureCause(since: string, reply: Reply)
    requires Judge(since, reply).Failed?
    ensures var e := Judge(since, reply).error;
      && (e == RequestFailed <==> reply.Unreachable?)
      && (e == BodyUnreadable <==> reply.Response? && reply.body.Unreadable?)
      && (e.UnexpectedStatus? <==> reply.Response? && !reply.body.Unreadable? && reply.status != 200)
      && (e.UnexpectedStatus? ==> e.status == reply.status)
      && (e == DecodeFailed <==> reply.Response? && reply.status == 200 && reply.body.Malformed?)
      && (e == MissingZone <==>
            reply.Response? && reply.status == 200 && reply.body.Decoded? && reply.body.payload.zone == "")
  {
  }

  /** No reply makes the plugin install an empty zone or hash; and without a snapshot nothing
      counts as unchanged. */
  lemma AcceptedIsIdentified(since: string, reply: Reply)
    ensures var v := Judge(since, reply);
      && (v.Changed? ==> v.snapshot.versionHash != "" && v.snapshot.zone != "")
      && (v.Unchanged? ==> since != "")
  {
  }
}
