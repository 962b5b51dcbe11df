/** The REST client for the server-list backend (`core/serverBrowser.py`).

    The HTTP transport is not modelled: every request the client would send
    is a `Request` value, and what came back is an `Attempt` given as input
    (a delivered response with its status and, when the body parsed as
    JSON, the parsed body; or a transport failure). Each call is then a
    function from the attempt(s) to a value or to the exception the client
    raises. */
module ServerBrowser {
  import opened Wrappers
  import opened Text

  // ---------------------------------------------------------------------
  // JSON values, responses and failures
  // ---------------------------------------------------------------------

  /** A parsed JSON document as Python's `json` module produces it. */
  datatype Json =
    | JNull
    | JBool(b: bool)
    | JInt(i: int)
    | JFloat(x: real)
    | JStr(s: string)
    | JArr(items: seq<Json>)
    | JObj(fields: map<string, Json>)

  /** `j[k]` on a parsed body: only an object with that key has a value;
      anything else raises (`KeyError` or `TypeError`). */
  function Index(j: Json, k: string): (r: Option<Json>)
    ensures r.Some? <==> j.JObj? && k in j.fields
  {
    match j
    case JObj(m) => if k in m then Some(m[k]) else None
    case _ => None
  }

  /** Python's `float(v)` on a JSON value; a string is read by `parse`,
      which stands for Python's float-literal syntax. */
  function FloatOf(v: Json, parse: string -> Option<real>): Option<real> {
    match v
    case JInt(i) => Some(i as real)
    case JFloat(x) => Some(x)
    case JBool(b) => Some(if b then 1.0 else 0.0)
    case JStr(s) => parse(s)
    case _ => None
  }

  /** A delivered HTTP response: the status and the body, `None` when the
      body is not valid JSON. */
  datatype Response = Response(status: int, body: Option<Json>)

  /** `response.ok`: false exactly for the client- and server-error
      classes, statuses 400 to 599 (`raise_for_status` of requests). */
  predicate IsOk(r: Response) {
    !(400 <= r.status < 600)
  }

  /** The server-error class, statuses 500 to 599 (section 15.6 of RFC 9110). */
  predicate IsServerError(status: int) {
    500 <= status < 600
  }

  /** What one send produced. */
  datatype Attempt = Delivered(response: Response) | TransportFailure

  /** Why the backend refused a request. */
  datatype Reason =
    | Unparseable
    | ServerFault
    | Rejected(message: Option<Json>, context: Option<Json>, status: Option<Json>)

  /** `ResponseError`: the reason and the HTTP status it carries as `code`. */
  datatype ResponseError = ResponseError(reason: Reason, code: int)

  /** What a client call raises: a `ResponseError`; an error reading a
      body (`KeyError`, `TypeError`, `ValueError`, `AttributeError`); or the
      transport's own exception. */
  datatype Failure = Refused(error: ResponseError) | Unreadable | TransportError

  /** `dict.get(k)`. */
  function Get(m: map<string, Json>, k: string): Option<Json> {
    if k in m then Some(m[k]) else None
  }

  /** `__checkResponse`: it never returns normally. It raises a
      `ResponseError` carrying the status for an unparseable body, for a 5xx
      status, or for an object body; `__buildError` calls `.get` on the
      body, so any other parsed body raises `AttributeError` instead. */
  function CheckResponse(resp: Response): (r: Failure)
    ensures r.Refused? ==> r.error.code == resp.status
    ensures !r.TransportError?
    ensures r.Unreadable? <==> resp.body.Some? && !resp.body.value.JObj? && !IsServerError(resp.status)
  {
    match resp.body
    case None => Refused(ResponseError(Unparseable, resp.status))
    case Some(j) =>
      if IsServerError(resp.status) then Refused(ResponseError(ServerFault, resp.status))
      else
        match j
        case JObj(m) => Refused(ResponseError(Rejected(Get(m, "message"), Get(m, "context"), Get(m, "status")), resp.status))
        case _ => Unreadable
  }

  /** The three classes of refusal, each in both directions. */
  lemma CheckResponseClasses(resp: Response)
    ensures CheckResponse(resp) == Refused(ResponseError(Unparseable, resp.status)) <==> resp.body.None?
    ensures CheckResponse(resp) == Refused(ResponseError(ServerFault, resp.status))
            <==> resp.body.Some? && IsServerError(resp.status)
    ensures (CheckResponse(resp).Refused? && CheckResponse(resp).error.reason.Rejected?)
            <==> resp.body.Some? && resp.body.value.JObj? && !IsServerError(resp.status)
    ensures resp.body.Some? && resp.body.value.JObj? && !IsServerError(resp.status) ==>
              var m := resp.body.value.fields;
              CheckResponse(resp).error.reason
                == Rejected(Get(m, "message"), Get(m, "context"), Get(m, "status"))
  {
  }

  // ---------------------------------------------------------------------
  // Error messages
  // ---------------------------------------------------------------------

  const UnparseablePrefix := "Server error (could not parse response body): "
  const ServerFaultPrefix := "Server error: "
  const RejectedPrefix := "Server could not be updated: error "

  /** `str()` of an optional field, with `show` for Python's `str` of a
      JSON value. */
  function ShowField(v: Option<Json>, show: Json -> string): string {
    match v
    case None => "None"
    case Some(j) => show(j)
  }

  /** The message a `ResponseError` is raised with (`__buildError` for a
      rejection). */
  function Message(e: ResponseError, show: Json -> string): string {
    match e.reason
    case Unparseable => UnparseablePrefix + IntToString(e.code)
    case ServerFault => ServerFaultPrefix + IntToString(e.code)
    case Rejected(msg, ctx, st) => RejectedPrefix + IntToString(e.code) + Details(msg, ctx, st, show)
  }

  /** The part of `__buildError`'s text after the status code. */
  function Details(msg: Option<Json>, ctx: Option<Json>, st: Option<Json>, show: Json -> string): (d: string)
    ensures d != "" && d[0] == '.'
  {
    ".\nMessage: " + ShowField(msg, show) + "\nContext: " + ShowField(ctx, show)
    + "\nStatus: " + ShowField(st, show) + "\n"
  }

  /** The three kinds of refusal. */
  datatype Kind = UnparseableKind | ServerFaultKind | RejectedKind

  function KindOf(r: Reason): Kind {
    match r
    case Unparseable => UnparseableKind
    case ServerFault => ServerFaultKind
    case Rejected(_, _, _) => RejectedKind
  }

  /** The longest prefix of decimal digits. */
  function LeadingDigits(s: string): (d: string)
    ensures StartsWith(s, d)
    ensures forall i :: 0 <= i < |d| ==> IsDigit(d[i])
  {
    if |s| > 0 && IsDigit(s[0]) then [s[0]] + LeadingDigits(s[1..]) else ""
  }

  /** The status code written right after the prefix `p` of `m`. */
  function CodeAfter(m: string, p: string): nat
    requires |p| <= |m|
  {
    DigitsValue(LeadingDigits(m[|p|..]))
  }

  /** Reading a message back: the kind, from its fixed prefix, and the
      status code written after it. */
  function ReadMessage(m: string): Option<(Kind, nat)> {
    if StartsWith(m, UnparseablePrefix) then Some((UnparseableKind, CodeAfter(m, UnparseablePrefix)))
    else if StartsWith(m, ServerFaultPrefix) then Some((ServerFaultKind, CodeAfter(m, ServerFaultPrefix)))
    else if StartsWith(m, RejectedPrefix) then Some((RejectedKind, CodeAfter(m, RejectedPrefix)))
    else None
  }

  /** The digits of `str(n)` are read back whole when a non-digit (or
      nothing) follows them. */
  lemma {:induction false} LeadingDigitsOf(d: string, rest: string)
    requires forall i :: 0 <= i < |d| ==> IsDigit(d[i])
    requires rest == "" || !IsDigit(rest[0])
    ensures LeadingDigits(d + rest) == d
    decreases |d|
  {
    if |d| > 0 {
      assert (d + rest)[1..] == d[1..] + rest;
      LeadingDigitsOf(d[1..], rest);
      assert [d[0]] + d[1..] == d;
    } else {
      assert d + rest == rest;
    }
  }

  /** `p + x` starts with `p`. */
  lemma PrefixOf(p: string, x: string)
    ensures StartsWith(p + x, p)
  {
    assert (p + x)[..|p|] == p;
  }

  /** The code written after a prefix, followed by a non-digit or by
      nothing, is read back. */
  lemma ReadAfter(p: string, n: nat, rest: string)
    requires rest == "" || !IsDigit(rest[0])
    ensures StartsWith(p + NatToString(n) + rest, p)
    ensures CodeAfter(p + NatToString(n) + rest, p) == n
  {
    var d := NatToString(n);
    assert p + d + rest == p + (d + rest);
    PrefixOf(p, d + rest);
    assert (p + (d + rest))[|p|..] == d + rest;
    LeadingDigitsOf(d, rest);
  }

  lemma ReadUnparseable(n: nat, show: Json -> string)
    ensures ReadMessage(Message(ResponseError(Unparseable, n), show)) == Some((UnparseableKind, n))
  {
    ReadAfter(UnparseablePrefix, n, "");
    assert UnparseablePrefix + NatToString(n) + "" == UnparseablePrefix + NatToString(n);
  }

  lemma ReadServerFault(n: nat, show: Json -> string)
    ensures ReadMessage(Message(ResponseError(ServerFault, n), show)) == Some((ServerFaultKind, n))
  {
    var m := ServerFaultPrefix + NatToString(n);
    ReadAfter(ServerFaultPrefix, n, "");
    assert m + "" == m;
    PrefixLetters();
    PrefixesClash(ServerFaultPrefix, UnparseablePrefix, NatToString(n), 12);
  }

  lemma ReadRejected(n: nat, rest: string)
    requires rest != "" && rest[0] == '.'
    ensures ReadMessage(RejectedPrefix + NatToString(n) + rest) == Some((RejectedKind, n))
  {
    var d := NatToString(n);
    ReadAfter(RejectedPrefix, n, rest);
    assert RejectedPrefix + d + rest == RejectedPrefix + (d + rest);
    PrefixLetters();
    PrefixesClash(RejectedPrefix, UnparseablePrefix, d + rest, 7);
    PrefixesClash(RejectedPrefix, ServerFaultPrefix, d + rest, 7);
  }

  /** Where the three message prefixes part ways. */
  lemma PrefixLetters()
    ensures RejectedPrefix[7] == 'c' && ServerFaultPrefix[7] == 'e' && UnparseablePrefix[7] == 'e'
    ensures ServerFaultPrefix[12] == ':' && UnparseablePrefix[12] == ' '
  {
  }

  /** Two patterns that differ at `i` cannot both start one string. */
  lemma PrefixesClash(p: string, q: string, x: string, i: nat)
    requires i < |p| && i < |q| && p[i] != q[i]
    ensures !StartsWith(p + x, q)
  {
    assert (p + x)[i] == p[i];
  }

  /** The message names the kind of refusal and the status, so different
      kinds or codes never produce the same message. */
  lemma ReadMessageOf(e: ResponseError, show: Json -> string)
    requires e.code >= 0
    ensures ReadMessage(Message(e, show)) == Some((KindOf(e.reason), e.code))
  {
    match e.reason
    case Unparseable => ReadUnparseable(e.code, show);
    case ServerFault => ReadServerFault(e.code, show);
    case Rejected(msg, ctx, st) => ReadRejected(e.code, Details(msg, ctx, st, show));
  }

  // ---------------------------------------------------------------------
  // Requests
  // ---------------------------------------------------------------------

  /** HTTP request methods. */
  datatype Verb = GET | POST | PUT | DELETE

  /** A request as the client hands it to the transport. */
  datatype Request = Request(verb: Verb, url: string, headers: map<string, string>, body: Option<Json>)

  const ServersPath := "/api/v1/servers"
  const KeyHeader := "x-chiv2-server-browser-key"

  /** The collection URL, used to register and to list. */
  function ListUrl(address: string): string {
    address + ServersPath
  }

  /** The resource URL of one registered server. */
  function ServerUrl(address: string, id: string): string {
    ListUrl(address) + "/" + id
  }

  /** The headers that authorise a change to a registration. */
  function KeyHeaders(key: string): map<string, string> {
    map[KeyHeader := key]
  }

  /** The server id a resource URL addresses, if it is one of `address`'s. */
  function TargetOf(address: string, url: string): Option<string> {
    var p := ListUrl(address) + "/";
    if StartsWith(url, p) then Some(url[|p|..]) else None
  }

  /** Everything `registerServer` sends about the game server. */
  datatype Listing = Listing(gamePort: int, pingPort: int, queryPort: int, name: string,
                             description: string, passwordProtected: bool, currentMap: string,
                             playerCount: int, maxPlayers: int, localIp: string, mods: Json)

  /** The keys of the register body and of its `ports` object. */
  const RegisterKeys: set<string> := {"ports", "name", "description", "password_protected", "current_map",
                                      "player_count", "max_players", "local_ip_address", "mods"}
  const PortKeys: set<string> := {"game", "ping", "a2s"}

  /** The body `registerServer` posts. */
  function RegisterBody(l: Listing): Json {
    JObj(map[
      "ports" := JObj(map["game" := JInt(l.gamePort), "ping" := JInt(l.pingPort), "a2s" := JInt(l.queryPort)]),
      "name" := JStr(l.name),
      "description" := JStr(l.description),
      "password_protected" := JBool(l.passwordProtected),
      "current_map" := JStr(l.currentMap),
      "player_count" := JInt(l.playerCount),
      "max_players" := JInt(l.maxPlayers),
      "local_ip_address" := JStr(l.localIp),
      "mods" := l.mods])
  }

  /** The backend's reading of a register body: a listing when every field
      is present with the type the client writes. */
  function ReadListing(j: Json): Option<Listing> {
    if !(j.JObj? && RegisterKeys <= j.fields.Keys) then None
    else
      var m := j.fields;
      var ports := m["ports"];
      if !(ports.JObj? && PortKeys <= ports.fields.Keys) then None
      else
        var p := ports.fields;
        if && p["game"].JInt? && p["ping"].JInt? && p["a2s"].JInt?
           && m["name"].JStr? && m["description"].JStr? && m["password_protected"].JBool?
           && m["current_map"].JStr? && m["player_count"].JInt? && m["max_players"].JInt?
           && m["local_ip_address"].JStr?
        then
          Some(Listing(p["game"].i, p["ping"].i, p["a2s"].i, m["name"].s, m["description"].s,
                       m["password_protected"].b, m["current_map"].s, m["player_count"].i,
                       m["max_players"].i, m["local_ip_address"].s, m["mods"]))
        else None
  }

  /** The register body has exactly the documented keys and carries every
      argument unchanged: the backend reads back the same listing. */
  lemma RegisterBodyRoundTrip(l: Listing)
    ensures RegisterBody(l).fields.Keys == RegisterKeys
    ensures RegisterBody(l).fields["ports"].fields.Keys == PortKeys
    ensures ReadListing(RegisterBody(l)) == Some(l)
  {
  }

  /** Conversely, a body with exactly those keys that reads as a listing is
      the body the client writes for it. */
  lemma RegisterBodyExactly(j: Json, l: Listing)
    requires ReadListing(j) == Some(l)
    requires j.fields.Keys == RegisterKeys && j.fields["ports"].fields.Keys == PortKeys
    ensures j == RegisterBody(l)
  {
    var b := RegisterBody(l);
    assert j.fields["ports"].fields == b.fields["ports"].fields;
    assert j.fields == b.fields;
  }

  function RegisterRequest(address: string, l: Listing): Request {
    Request(POST, ListUrl(address), map[], Some(RegisterBody(l)))
  }

  /** The body `updateServer` puts. */
  function UpdateBody(playerCount: int, maxPlayers: int, currentMap: string): Json {
    JObj(map["player_count" := JInt(playerCount), "max_players" := JInt(maxPlayers),
             "current_map" := JStr(currentMap)])
  }

  function UpdateRequest(address: string, id: string, key: string,
                         playerCount: int, maxPlayers: int, currentMap: string): Request {
    Request(PUT, ServerUrl(address, id), KeyHeaders(key), Some(UpdateBody(playerCount, maxPlayers, currentMap)))
  }

  function DeleteRequest(address: string, id: string, key: string): Request {
    Request(DELETE, ServerUrl(address, id), KeyHeaders(key), Some(JObj(map[])))
  }

  function HeartbeatRequest(address: string, id: string, key: string): Request {
    Request(POST, ServerUrl(address, id) + "/heartbeat", KeyHeaders(key), None)
  }

  function ListRequest(address: string): Request {
    Request(GET, ListUrl(address), map[], None)
  }

  /** A resource URL addresses exactly the server it was built for. */
  lemma TargetOfServerUrl(address: string, id: string, suffix: string)
    ensures TargetOf(address, ServerUrl(address, id) + suffix) == Some(id + suffix)
  {
    var p := ListUrl(address) + "/";
    assert ServerUrl(address, id) + suffix == p + (id + suffix);
    PrefixOf(p, id + suffix);
  }

  /** Update, delete and heartbeat address the registered server's
      resource (the heartbeat one level below it) and carry the key in
      the key header and nowhere else. */
  lemma ChangeRequestsAuthorised(address: string, id: string, key: string, pc: int, mp: int, cm: string)
    ensures var u := UpdateRequest(address, id, key, pc, mp, cm);
            u.verb == PUT && TargetOf(address, u.url) == Some(id) && u.headers == map[KeyHeader := key]
    ensures var d := DeleteRequest(address, id, key);
            d.verb == DELETE && TargetOf(address, d.url) == Some(id) && d.headers == map[KeyHeader := key]
    ensures var h := HeartbeatRequest(address, id, key);
            h.verb == POST && TargetOf(address, h.url) == Some(id + "/heartbeat")
            && h.headers == map[KeyHeader := key] && h.body.None?
  {
    TargetOfServerUrl(address, id, "");
    assert ServerUrl(address, id) + "" == ServerUrl(address, id);
    TargetOfServerUrl(address, id, "/heartbeat");
  }

  /** Different servers of one backend have different resource URLs. */
  lemma ServerUrlInjective(address: string, id1: string, id2: string)
    requires ServerUrl(address, id1) == ServerUrl(address, id2)
    ensures id1 == id2
  {
    TargetOfServerUrl(address, id1, "");
    TargetOfServerUrl(address, id2, "");
    assert ServerUrl(address, id1) + "" == ServerUrl(address, id1);
    assert ServerUrl(address, id2) + "" == ServerUrl(address, id2);
  }

  // ---------------------------------------------------------------------
  // Replies
  // ---------------------------------------------------------------------

  /** What a successful registration returns: `server.unique_id`, `key`
      and `refresh_before` as a float. */
  datatype Registered = Registered(id: string, key: string, refreshBy: real)

  /** `float(body['refresh_before'])`, any failure being a read error. */
  function RefreshIn(body: Option<Json>, parse: string -> Option<real>): (r: Result<real, Failure>)
    ensures r.Err? ==> r.error == Unreadable
  {
    match body
    case None => Err(Unreadable)
    case Some(j) =>
      match Index(j, "refresh_before")
      case None => Err(Unreadable)
      case Some(v) =>
        match FloatOf(v, parse)
        case None => Err(Unreadable)
        case Some(t) => Ok(t)
  }

  /** The three values read out of an OK register reply. */
  function ReadRegistered(j: Json, parse: string -> Option<real>): (r: Result<Registered, Failure>)
    ensures r.Err? ==> r.error == Unreadable
  {
    match Index(j, "server")
    case None => Err(Unreadable)
    case Some(server) =>
      match Index(server, "unique_id")
      case Some(JStr(id)) =>
        (match Index(j, "key")
         case Some(JStr(key)) =>
           (match RefreshIn(Some(j), parse)
            case Ok(t) => Ok(Registered(id, key, t))
            case Err(e) => Err(e))
         case _ => Err(Unreadable))
      case _ => Err(Unreadable)
  }

  /** `registerServer` after the post: an OK reply yields the registration,
      anything else raises. */
  function RegisterReply(a: Attempt, parse: string -> Option<real>): (r: Result<Registered, Failure>)
    ensures r.Ok? ==> a.Delivered? && IsOk(a.response)
    ensures r.Err? && r.error.Refused? ==> a.Delivered? && r.error.error.code == a.response.status && 400 <= a.response.status < 600
  {
    match a
    case TransportFailure => Err(TransportError)
    case Delivered(resp) =>
      if !IsOk(resp) then Err(CheckResponse(resp))
      else
        match resp.body
        case None => Err(Unreadable)
        case Some(j) => ReadRegistered(j, parse)
  }

  /** A register reply as the backend writes it for `reg`. */
  function RegisteredAnswer(reg: Registered): Json {
    JObj(map["server" := JObj(map["unique_id" := JStr(reg.id)]), "key" := JStr(reg.key),
             "refresh_before" := JFloat(reg.refreshBy)])
  }

  /** An OK reply carrying a registration yields exactly that registration. */
  lemma RegisterReplyRoundTrip(reg: Registered, status: int, parse: string -> Option<real>)
    requires !(400 <= status < 600)
    ensures RegisterReply(Delivered(Response(status, Some(RegisteredAnswer(reg)))), parse) == Ok(reg)
  {
  }

  /** `updateServer` and `delete` after the send: `None` on an OK reply,
      whatever its body; otherwise the exception `__checkResponse` raises. */
  function Acknowledge(a: Attempt): (r: Result<(), Failure>)
    ensures r.Ok? <==> a.Delivered? && IsOk(a.response)
    ensures r.Err? && a.Delivered? ==> r.error == CheckResponse(a.response)
    ensures r.Err? && r.error.Refused? ==> a.Delivered? && r.error.error.code == a.response.status && 400 <= a.response.status < 600
  {
    match a
    case TransportFailure => Err(TransportError)
    case Delivered(resp) => if IsOk(resp) then Ok(()) else Err(CheckResponse(resp))
  }

  /** `getServerList` after the get: the `servers` member of an OK reply. */
  function ServerListReply(a: Attempt): (r: Result<Json, Failure>)
    ensures r.Ok? ==> a.Delivered? && IsOk(a.response) && a.response.body.Some?
                      && Index(a.response.body.value, "servers") == Some(r.value)
  {
    match a
    case TransportFailure => Err(TransportError)
    case Delivered(resp) =>
      if !IsOk(resp) then Err(CheckResponse(resp))
      else
        match resp.body
        case None => Err(Unreadable)
        case Some(j) =>
          match Index(j, "servers")
          case None => Err(Unreadable)
          case Some(s) => Ok(s)
  }

  /** Every refusal a reply handler raises carries the HTTP status of a
      failed response. */
  lemma ServerListRefusal(a: Attempt)
    requires ServerListReply(a).Err? && ServerListReply(a).error.Refused?
    ensures a.Delivered? && !IsOk(a.response)
    ensures ServerListReply(a).error.error.code == a.response.status
  {
  }

  // ---------------------------------------------------------------------
  // Heartbeat
  // ---------------------------------------------------------------------

  /** `heartbeat` tries at most this many times. */
  const MaxAttempts := 10

  /** One heartbeat attempt: the new deadline, or what the attempt raised. */
  function BeatOutcome(a: Attempt, parse: string -> Option<real>): (r: Result<real, Failure>)
    ensures r.Ok? ==> a.Delivered? && IsOk(a.response)
    ensures r.Err? && r.error.Refused? ==> a.Delivered? && r.error.error.code == a.response.status && 400 <= a.response.status < 600
  {
    match a
    case TransportFailure => Err(TransportError)
    case Delivered(resp) => if IsOk(resp) then RefreshIn(resp.body, parse) else Err(CheckResponse(resp))
  }

  /** Whether the loop goes on after attempt `i`: a `ResponseError` other
      than 404 is swallowed; any other exception is retried except on the
      last attempt. */
  predicate Retried(o: Result<real, Failure>, i: nat) {
    o.Err? && (if o.error.Refused? then o.error.error.code != 404 else i < MaxAttempts - 1)
  }

  /** What `heartbeat` returns: `Some` deadline, `None` when it falls off
      the end of the loop, or the exception it raises; and how many
      requests it sent. */
  datatype Beat = Beat(deadline: Result<Option<real>, Failure>, sent: nat)

  /** The value an attempt that ends the loop gives it. */
  function Lift(o: Result<real, Failure>): Result<Option<real>, Failure> {
    match o
    case Ok(t) => Ok(Some(t))
    case Err(f) => Err(f)
  }

  /** The loop from attempt `i` on, over the outcomes of the sends it
      could make. */
  function HeartbeatFrom(outs: seq<Attempt>, i: nat, parse: string -> Option<real>): (b: Beat)
    requires |outs| == MaxAttempts && i <= MaxAttempts
    ensures i <= b.sent <= MaxAttempts
    ensures i < MaxAttempts ==> i < b.sent
    decreases MaxAttempts - i
  {
    if i == MaxAttempts then Beat(Ok(None), MaxAttempts)
    else
      var o := BeatOutcome(outs[i], parse);
      if Retried(o, i) then HeartbeatFrom(outs, i + 1, parse) else Beat(Lift(o), i + 1)
  }

  /** `heartbeat`: up to ten posts, no delay between them. */
  function Heartbeat(outs: seq<Attempt>, parse: string -> Option<real>): (b: Beat)
    requires |outs| == MaxAttempts
    ensures 1 <= b.sent <= MaxAttempts
  {
    HeartbeatFrom(outs, 0, parse)
  }

  /** Every attempt before `k` was retried. */
  ghost predicate RetriedBefore(outs: seq<Attempt>, k: nat, parse: string -> Option<real>)
    requires k <= |outs|
  {
    forall j :: 0 <= j < k ==> Retried(BeatOutcome(outs[j], parse), j)
  }

  /** The loop ends at the first attempt it does not retry, with that
      attempt's value, or returns `None` after retrying all of them. */
  lemma {:induction false} HeartbeatFromSpec(outs: seq<Attempt>, i: nat, parse: string -> Option<real>)
    requires |outs| == MaxAttempts && i <= MaxAttempts
    ensures var b := HeartbeatFrom(outs, i, parse);
            && (forall j :: i <= j < b.sent - 1 ==> Retried(BeatOutcome(outs[j], parse), j))
            && (b.deadline == Ok(None) ==>
                  b.sent == MaxAttempts && (i < MaxAttempts ==> Retried(BeatOutcome(outs[MaxAttempts - 1], parse), MaxAttempts - 1)))
            && (b.deadline != Ok(None) ==>
                  && i < b.sent
                  && !Retried(BeatOutcome(outs[b.sent - 1], parse), b.sent - 1)
                  && b.deadline == Lift(BeatOutcome(outs[b.sent - 1], parse)))
    decreases MaxAttempts - i
  {
    if i < MaxAttempts && Retried(BeatOutcome(outs[i], parse), i) {
      HeartbeatFromSpec(outs, i + 1, parse);
    }
  }

  /** The loop stops at the first attempt it does not retry. */
  lemma HeartbeatStopsAt(outs: seq<Attempt>, k: nat, parse: string -> Option<real>)
    requires |outs| == MaxAttempts && k < MaxAttempts
    requires RetriedBefore(outs, k, parse) && !Retried(BeatOutcome(outs[k], parse), k)
    ensures Heartbeat(outs, parse) == Beat(Lift(BeatOutcome(outs[k], parse)), k + 1)
  {
    HeartbeatFromSpec(outs, 0, parse);
  }

  /** `heartbeat` returns the deadline of the first OK reply whose body
      reads, provided every attempt before it was retried; and only then. */
  lemma HeartbeatReturnsFirstOk(outs: seq<Attempt>, parse: string -> Option<real>, t: real)
    requires |outs| == MaxAttempts
    ensures Heartbeat(outs, parse).deadline == Ok(Some(t)) <==>
            exists k :: 0 <= k < MaxAttempts && RetriedBefore(outs, k, parse) && BeatOutcome(outs[k], parse) == Ok(t)
  {
    var b := Heartbeat(outs, parse);
    HeartbeatFromSpec(outs, 0, parse);
    if b.deadline == Ok(Some(t)) {
      var k := b.sent - 1;
      assert RetriedBefore(outs, k, parse);
      assert BeatOutcome(outs[k], parse) == Ok(t);
    }
    if exists k :: 0 <= k < MaxAttempts && RetriedBefore(outs, k, parse) && BeatOutcome(outs[k], parse) == Ok(t) {
      var k :| 0 <= k < MaxAttempts && RetriedBefore(outs, k, parse) && BeatOutcome(outs[k], parse) == Ok(t);
      HeartbeatStopsAt(outs, k, parse);
    }
  }

  /** A 404 ends the loop at once: it is re-raised and nothing more is sent. */
  lemma HeartbeatReraises404(outs: seq<Attempt>, k: nat, parse: string -> Option<real>, e: ResponseError)
    requires |outs| == MaxAttempts && k < MaxAttempts
    requires RetriedBefore(outs, k, parse)
    requires BeatOutcome(outs[k], parse) == Err(Refused(e)) && e.code == 404
    ensures Heartbeat(outs, parse) == Beat(Err(Refused(e)), k + 1)
  {
    HeartbeatStopsAt(outs, k, parse);
  }

  /** `heartbeat` returns `None` exactly when all ten attempts were retried,
      and then the last one was a swallowed non-404 `ResponseError`. */
  lemma HeartbeatReturnsNone(outs: seq<Attempt>, parse: string -> Option<real>)
    requires |outs| == MaxAttempts
    ensures Heartbeat(outs, parse).deadline == Ok(None) <==> RetriedBefore(outs, MaxAttempts, parse)
    ensures Heartbeat(outs, parse).deadline == Ok(None) ==>
              var last := BeatOutcome(outs[MaxAttempts - 1], parse);
              last.Err? && last.error.Refused? && last.error.error.code != 404
  {
    HeartbeatFromSpec(outs, 0, parse);
  }

  /** An exception other than a `ResponseError` escapes only from the last
      attempt. */
  lemma HeartbeatRaisesOtherLast(outs: seq<Attempt>, parse: string -> Option<real>)
    requires |outs| == MaxAttempts
    requires Heartbeat(outs, parse).deadline.Err? && !Heartbeat(outs, parse).deadline.error.Refused?
    ensures Heartbeat(outs, parse).sent == MaxAttempts
  {
    HeartbeatFromSpec(outs, 0, parse);
  }

  /** Only the outcomes of the requests actually sent matter. */
  lemma HeartbeatUsesSentOnly(outs: seq<Attempt>, outs2: seq<Attempt>, parse: string -> Option<real>)
    requires |outs| == MaxAttempts && |outs2| == MaxAttempts
    requires outs[..Heartbeat(outs, parse).sent] == outs2[..Heartbeat(outs, parse).sent]
    ensures Heartbeat(outs2, parse) == Heartbeat(outs, parse)
  {
    var b := Heartbeat(outs, parse);
    HeartbeatFromSpec(outs, 0, parse);
    forall j | 0 <= j < b.sent ensures outs2[j] == outs[j] {
      assert outs[..b.sent][j] == outs[j] && outs2[..b.sent][j] == outs2[j];
    }
    if b.deadline == Ok(None) {
      assert RetriedBefore(outs2, MaxAttempts, parse);
      HeartbeatReturnsNone(outs2, parse);
      HeartbeatFromSpec(outs2, 0, parse);
    } else {
      HeartbeatStopsAt(outs2, b.sent - 1, parse);
    }
  }
}
