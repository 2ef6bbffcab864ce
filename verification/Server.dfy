/** The report and ban server of server/ac_server.py: two-tier authentication, the store, and what a run of
    requests can and cannot change. */
module Server {
  import opened Common
  import opened Database
  import opened RateLimiter

  // ---- start-up ----

  datatype Config = Config(reportKeys: set<string>, adminKeys: set<string>, limit: int, window: real,
                           trustProxy: bool, isIp: string -> bool)

  /** A key that was given and is not empty. */
  function KeySet(key: Option<string>): set<string> {
    if key.Some? && key.value != "" then {key.value} else {}
  }

  /** The configuration the server runs with, or None when it refuses to start. */
  function StartUp(reportKey: Option<string>, adminKey: Option<string>, reportKeyOld: Option<string>,
                   adminKeyOld: Option<string>, limit: int, window: int, trustProxy: bool,
                   isIp: string -> bool): Option<Config>
  {
    var reportKeys := KeySet(reportKey) + KeySet(reportKeyOld);
    var adminKeys := KeySet(adminKey) + KeySet(adminKeyOld);
    if KeySet(reportKey) == {} || KeySet(adminKey) == {} then None
    else if reportKeys * adminKeys != {} then None
    else if limit <= 0 || window <= 0 then None
    else Some(Config(reportKeys, adminKeys, limit, window as real, trustProxy, isIp))
  }

  // ---- requests ----

  datatype Verb = Get | Post

  /** A body as parsed: anything but a non-empty JSON object is Bad. */
  datatype Body = Bad | Object(fields: map<string, Value>)

  /** A request, the clock when the limiter and when the store reads it, and whether the statement the request leads
      to succeeds (one that fails is rolled back). */
  datatype Message = Message(verb: Verb, path: string, authorization: Option<string>, peer: string,
                             forwarded: seq<string>, body: Body, now: real, savedAt: real, dbOk: bool)

  function Join(s: seq<string>): string {
    if s == [] then "" else if |s| == 1 then s[0] else Join(s[..|s| - 1]) + "," + s[|s| - 1]
  }

  /** What follows the last comma. */
  function LastHop(s: string): string {
    if s == "" || s[|s| - 1] == ',' then "" else LastHop(s[..|s| - 1]) + [s[|s| - 1]]
  }

  predicate IsBlank(c: char) {
    c == ' ' || '\t' <= c <= '\r' || '\U{1c}' <= c <= '\U{1f}' || c == '\U{85}' || c == '\U{a0}'
  }

  function Strip(s: string): (r: string)
    ensures r == "" || (!IsBlank(r[0]) && !IsBlank(r[|r| - 1]))
  {
    if s == "" then s
    else if IsBlank(s[0]) then Strip(s[1..])
    else if IsBlank(s[|s| - 1]) then Strip(s[..|s| - 1])
    else s
  }

  function ClientIp(c: Config, m: Message): string {
    if !c.trustProxy || m.forwarded == [] then m.peer else
      var candidate := Strip(LastHop(Join(m.forwarded)));
      if c.isIp(candidate) then candidate else m.peer
  }

  const BEARER := "Bearer "

  datatype Auth = Accepted | Refused | Raised

  /** The constant-time comparison raises on text that is not ASCII. */
  function Authed(keys: set<string>, m: Message): Auth {
    if m.authorization.None? || !(BEARER <= m.authorization.value) then Refused else
      var token := m.authorization.value[|BEARER|..];
      if !Ascii(token) then Raised else if token in keys then Accepted else Refused
  }

  predicate IdChar(c: char) {
    'A' <= c <= 'Z' || 'a' <= c <= 'z' || '0' <= c <= '9' || c == '.' || c == '_' || c == '-'
  }

  predicate IdChars(s: string) {
    1 <= |s| <= 128 && forall i :: 0 <= i < |s| ==> IdChar(s[i])
  }

  /** The pattern's $ also matches before a final newline. */
  predicate ValidClientId(s: string) {
    IdChars(s) || (s != "" && s[|s| - 1] == '\n' && IdChars(s[..|s| - 1]))
  }

  // ---- replies ----

  datatype Reply =
    | RateLimited | Unauthorized | BadRequest | NotFound | InternalError
    | Created
    | Done
    | Unbanned(wasBanned: bool)
    | Status(ban: Option<Ban>)
    | Reports(reports: seq<Report>)

  function TextField(b: Body, name: string): Option<string> {
    if b.Object? && name in b.fields && b.fields[name].Text? then Some(b.fields[name].text) else None
  }

  /** The valid client id of a POST body. */
  function BodyClientId(b: Body): Option<string> {
    var id := TextField(b, "client_id");
    if id.Some? && ValidClientId(id.value) then id else None
  }

  function Stamp(now: real): int { now.Floor }

  function BodyTs(b: Body): Option<real> {
    if b.Object? && "ts" in b.fields && b.fields["ts"].Number? then Some(b.fields["ts"].number) else None
  }

  // ---- the handlers ----

  const BANNED := "/banned/"
  const REPORTS := "/reports/"

  datatype Action =
    | AddReport(report: Report)
    | SetBan(id: string, ban: Ban)
    | LiftBan(id: string)
    | AskBan(askedId: string)
    | AskReports(askedId: string)
    | Answer(reply: Reply)

  /** What an authenticated POST /report is asked to do, or why not. */
  function ReportAction(c: Config, m: Message): Action {
    var id, event, detail := BodyClientId(m.body), TextField(m.body, "event_type"), TextField(m.body, "detail");
    if id.None? || event.None? || |event.value| > 64 || detail.None? || |detail.value| > 2000 then Answer(BadRequest)
    else AddReport(Report(id.value, event.value, detail.value, BodyTs(m.body), Stamp(m.savedAt), ClientIp(c, m)))
  }

  function BanAction(m: Message): Action {
    var id, reason := BodyClientId(m.body), TextField(m.body, "reason");
    if id.None? || reason.None? || !(0 < |reason.value| <= 500) then Answer(BadRequest)
    else SetBan(id.value, Ban(reason.value, Stamp(m.savedAt)))
  }

  function UnbanAction(m: Message): Action {
    var id := BodyClientId(m.body);
    if id.None? then Answer(BadRequest) else LiftBan(id.value)
  }

  /** The action, for a token among the keys only. */
  function Guard(m: Message, keys: set<string>, action: Action): Action {
    match Authed(keys, m)
    case Raised => Answer(InternalError)
    case Refused => Answer(Unauthorized)
    case Accepted => action
  }

  function QueryAction(m: Message, prefix: string): Action
    requires prefix == BANNED || prefix == REPORTS
  {
    if !(prefix <= m.path) || !ValidClientId(m.path[|prefix|..]) then Answer(BadRequest)
    else if prefix == BANNED then AskBan(m.path[|prefix|..]) else AskReports(m.path[|prefix|..])
  }

  function Dispatch(c: Config, m: Message): Action {
    if m.verb.Post? then
      if m.path == "/report" then Guard(m, c.reportKeys, ReportAction(c, m))
      else if m.path == "/ban" then Guard(m, c.adminKeys, BanAction(m))
      else if m.path == "/unban" then Guard(m, c.adminKeys, UnbanAction(m))
      else Answer(NotFound)
    else if BANNED <= m.path then Guard(m, c.adminKeys, QueryAction(m, BANNED))
    else if REPORTS <= m.path then Guard(m, c.adminKeys, QueryAction(m, REPORTS))
    else Answer(NotFound)
  }

  function Perform(s: Store, a: Action, dbOk: bool): (Store, Reply) {
    if !a.Answer? && !dbOk then (s, InternalError) else
      match a
      case AddReport(report) => (Store(s.reports + [report], s.bans), Created)
      case SetBan(id, ban) => (Store(s.reports, s.bans[id := ban]), Done)
      case LiftBan(id) => (Store(s.reports, s.bans - {id}), Unbanned(id in s.bans))
      case AskBan(id) => (s, Status(BanOf(s.bans, id)))
      case AskReports(id) => (s, Reports(Latest(s.reports, id, LIST_LIMIT)))
      case Answer(reply) => (s, reply)
  }

  datatype World = World(limiter: State, store: Store)

  function Serve(c: Config, w: World, m: Message): (World, Reply) {
    var key := Request(ClientIp(c, m), m.now);
    var limiter := Next(w.limiter, c.window, key);
    if !Admits(w.limiter, c.limit, c.window, key) then (World(limiter, w.store), RateLimited)
    else
      var (store, reply) := Perform(w.store, Dispatch(c, m), m.dbOk);
      (World(limiter, store), reply)
  }

  class App {
    const c: Config
    const limiter: Limiter
    const tables: Tables

    ghost predicate Valid()
      reads tables
    {
      limiter.limit == c.limit && limiter.window == c.window && tables.Valid()
    }

    ghost function Abstract(): World
      reads limiter, tables
    {
      World(limiter.Abstract(), tables.Abstract())
    }

    constructor (c: Config, now: real)
      ensures Valid() && fresh(limiter) && fresh(tables)
      ensures this.c == c && Abstract() == World(State(map[], now), Store([], map[]))
    {
      this.c := c;
      limiter := new Limiter(c.limit, c.window, now);
      tables := new Tables();
    }

    method HandleReport(m: Message) returns (reply: Reply)
      requires Valid()
      modifies tables
      ensures Valid()
      ensures (tables.Abstract(), reply) == Perform(old(tables.Abstract()),
             Guard(m, c.reportKeys, ReportAction(c, m)), m.dbOk)
    {
      hide Authed, ClientIp, BodyClientId, TextField, BodyTs;
      var auth := Authed(c.reportKeys, m);
      if !auth.Accepted? {
        return if auth.Raised? then InternalError else Unauthorized;
      }
      var id := BodyClientId(m.body);
      if id.None? {
        return BadRequest;
      }
      var event := TextField(m.body, "event_type");
      if event.None? || |event.value| > 64 {
        return BadRequest;
      }
      var detail := TextField(m.body, "detail");
      if detail.None? || |detail.value| > 2000 {
        return BadRequest;
      }
      if !m.dbOk {
        return InternalError;
      }
      tables.AddReport(Report(id.value, event.value, detail.value, BodyTs(m.body), Stamp(m.savedAt), ClientIp(c, m)));
      reply := Created;
    }

    method HandleBan(m: Message) returns (reply: Reply)
      requires Valid()
      modifies tables
      ensures Valid()
      ensures (tables.Abstract(), reply) == Perform(old(tables.Abstract()), Guard(m, c.adminKeys, BanAction(m)), m.dbOk)
    {
      hide Authed, BodyClientId, TextField;
      var auth := Authed(c.adminKeys, m);
      if !auth.Accepted? {
        return if auth.Raised? then InternalError else Unauthorized;
      }
      var id := BodyClientId(m.body);
      if id.None? {
        return BadRequest;
      }
      var reason := TextField(m.body, "reason");
      if reason.None? || !(0 < |reason.value| <= 500) {
        return BadRequest;
      }
      if !m.dbOk {
        return InternalError;
      }
      tables.BanClient(id.value, Ban(reason.value, Stamp(m.savedAt)));
      reply := Done;
    }

    method HandleUnban(m: Message) returns (reply: Reply)
      requires Valid()
      modifies tables
      ensures Valid()
      ensures (tables.Abstract(), reply) == Perform(old(tables.Abstract()),
             Guard(m, c.adminKeys, UnbanAction(m)), m.dbOk)
    {
      hide Authed, BodyClientId;
      var auth := Authed(c.adminKeys, m);
      if !auth.Accepted? {
        return if auth.Raised? then InternalError else Unauthorized;
      }
      var id := BodyClientId(m.body);
      if id.None? {
        return BadRequest;
      }
      if !m.dbOk {
        return InternalError;
      }
      var existed := tables.Unban(id.value);
      reply := Unbanned(existed);
    }

    method HandleQuery(m: Message, prefix: string) returns (reply: Reply)
      requires Valid() && prefix <= m.path && (prefix == BANNED || prefix == REPORTS)
      ensures (tables.Abstract(), reply) == Perform(tables.Abstract(),
             Guard(m, c.adminKeys, QueryAction(m, prefix)), m.dbOk)
    {
      hide Authed, ValidClientId, Latest;
      var auth := Authed(c.adminKeys, m);
      if !auth.Accepted? {
        return if auth.Raised? then InternalError else Unauthorized;
      }
      var id := m.path[|prefix|..];
      if !ValidClientId(id) {
        return BadRequest;
      }
      if !m.dbOk {
        return InternalError;
      }
      if prefix == BANNED {
        var ban := tables.BanStatus(id);
        return Status(ban);
      }
      var reports := tables.ListReports(id, LIST_LIMIT);
      reply := Reports(reports);
    }

    method Handle(m: Message) returns (reply: Reply)
      requires Valid()
      modifies limiter, tables
      ensures Valid() && (Abstract(), reply) == Serve(c, old(Abstract()), m)
    {
      hide Perform, Guard, ReportAction, BanAction, UnbanAction, QueryAction, ClientIp, RateLimiter.Next, Admits;
      var ok := limiter.Allow(ClientIp(c, m), m.now);
      if !ok {
        return RateLimited;
      }
      if m.verb.Post? {
        if m.path == "/report" {
          reply := HandleReport(m);
        } else if m.path == "/ban" {
          reply := HandleBan(m);
        } else if m.path == "/unban" {
          reply := HandleUnban(m);
        } else {
          NothingToDo(tables.Abstract(), NotFound, m.dbOk);
          reply := NotFound;
        }
      } else if BANNED <= m.path {
        reply := HandleQuery(m, BANNED);
      } else if REPORTS <= m.path {
        reply := HandleQuery(m, REPORTS);
      } else {
        NothingToDo(tables.Abstract(), NotFound, m.dbOk);
        reply := NotFound;
      }
    }
  }

  lemma NothingToDo(s: Store, reply: Reply, dbOk: bool)
    ensures Perform(s, Answer(reply), dbOk) == (s, reply)
  {
  }

  // ---- the two tiers ----

  /** With the start-up checks passed, no token opens both tiers, and every accepted key is non-empty. */
  lemma TiersAreDisjoint(reportKey: Option<string>, adminKey: Option<string>, reportKeyOld: Option<string>,
                         adminKeyOld: Option<string>, limit: int, window: int, trustProxy: bool,
                         isIp: string -> bool, m: Message)
    ensures var c := StartUp(reportKey, adminKey, reportKeyOld, adminKeyOld, limit, window, trustProxy, isIp);
            c.Some? ==> !(Authed(c.value.reportKeys, m).Accepted? && Authed(c.value.adminKeys, m).Accepted?)
                        && "" !in c.value.reportKeys + c.value.adminKeys
  {
  }

  /** Whoever does not hold an admin key changes no ban, and whoever does not hold a report key files no report. */
  lemma TokensLimitChanges(c: Config, w: World, m: Message)
    ensures !Authed(c.adminKeys, m).Accepted? ==> Serve(c, w, m).0.store.bans == w.store.bans
    ensures !Authed(c.reportKeys, m).Accepted? ==> Serve(c, w, m).0.store.reports == w.store.reports
  {
    hide ClientIp, ValidClientId, Latest, BodyTs, Stamp, TextField, BodyClientId;
  }

  // ---- runs ----

  /** m is answered as a successful ban of id. */
  ghost predicate IsBan(c: Config, w: World, m: Message, id: string) {
    m.verb.Post? && m.path == "/ban" && BodyClientId(m.body) == Some(id) && Serve(c, w, m).1.Done?
  }

  ghost predicate IsUnban(c: Config, w: World, m: Message, id: string) {
    m.verb.Post? && m.path == "/unban" && BodyClientId(m.body) == Some(id) && Serve(c, w, m).1.Unbanned?
  }

  /** The ban a successful POST /ban asks for. */
  function AskedBan(m: Message): Ban {
    Ban(TextField(m.body, "reason").GetOr(""), Stamp(m.savedAt))
  }

  /** Whatever is not answered as a ban or unban of id leaves its ban as it was. */
  lemma OnlyDecisionsChangeBans(c: Config, w: World, m: Message, id: string)
    ensures BanOf(Serve(c, w, m).0.store.bans, id) ==
            if IsBan(c, w, m, id) then Some(AskedBan(m)) else if IsUnban(c, w, m, id) then None
            else BanOf(w.store.bans, id)
  {
    hide ClientIp, ValidClientId, Latest, BodyTs, Next, Admits, Ascii, Stamp;
  }

  ghost function After(c: Config, w: World, run: seq<Message>): World {
    if run == [] then w else Serve(c, After(c, w, run[..|run| - 1]), run[|run| - 1]).0
  }

  ghost predicate BansAt(c: Config, w: World, run: seq<Message>, k: nat, id: string) {
    k < |run| && IsBan(c, After(c, w, run[..k]), run[k], id)
  }

  ghost predicate UnbansAt(c: Config, w: World, run: seq<Message>, k: nat, id: string) {
    k < |run| && IsUnban(c, After(c, w, run[..k]), run[k], id)
  }

  lemma PrefixDecides(c: Config, w: World, run: seq<Message>, n: nat, k: nat, id: string)
    requires k < n <= |run|
    ensures BansAt(c, w, run[..n], k, id) <==> BansAt(c, w, run, k, id)
    ensures UnbansAt(c, w, run[..n], k, id) <==> UnbansAt(c, w, run, k, id)
  {
    hide IsBan, IsUnban, After;
    assert run[..n][..k] == run[..k];
  }

  /** A client's ban status after any run is what the last successful ban or unban of that id left. */
  lemma {:induction false} LastDecisionHolds(c: Config, w: World, run: seq<Message>, k: nat, id: string)
    requires BansAt(c, w, run, k, id) || UnbansAt(c, w, run, k, id)
    requires forall j :: k < j < |run| ==> !BansAt(c, w, run, j, id) && !UnbansAt(c, w, run, j, id)
    ensures BanOf(After(c, w, run).store.bans, id) == if BansAt(c, w, run, k, id) then Some(AskedBan(run[k])) else None
  {
    hide IsBan, IsUnban, AskedBan, Serve;
    var n := |run| - 1;
    OnlyDecisionsChangeBans(c, After(c, w, run[..n]), run[n], id);
    if k < n {
      forall j | k <= j < n
        ensures BansAt(c, w, run[..n], j, id) <==> BansAt(c, w, run, j, id)
        ensures UnbansAt(c, w, run[..n], j, id) <==> UnbansAt(c, w, run, j, id)
      {
        PrefixDecides(c, w, run, n, j, id);
      }
      LastDecisionHolds(c, w, run[..n], k, id);
      assert !BansAt(c, w, run, n, id) && !UnbansAt(c, w, run, n, id);
    } else {
      DecideOnce(c, After(c, w, run[..n]), run[n], id);
    }
  }

  lemma DecideOnce(c: Config, w: World, m: Message, id: string)
    ensures !(IsBan(c, w, m, id) && IsUnban(c, w, m, id))
  {
  }

  /** With no such decision it is what it was at the start. */
  lemma {:induction false} NoDecisionNoChange(c: Config, w: World, run: seq<Message>, id: string)
    requires forall j :: 0 <= j < |run| ==> !BansAt(c, w, run, j, id) && !UnbansAt(c, w, run, j, id)
    ensures BanOf(After(c, w, run).store.bans, id) == BanOf(w.store.bans, id)
  {
    hide IsBan, IsUnban, AskedBan, Serve;
    if run != [] {
      var n := |run| - 1;
      forall j | 0 <= j < n
        ensures !BansAt(c, w, run[..n], j, id) && !UnbansAt(c, w, run[..n], j, id)
      {
        PrefixDecides(c, w, run, n, j, id);
      }
      NoDecisionNoChange(c, w, run[..n], id);
      OnlyDecisionsChangeBans(c, After(c, w, run[..n]), run[n], id);
      assert !BansAt(c, w, run, n, id) && !UnbansAt(c, w, run, n, id);
    }
  }

  lemma ReportsGrow(c: Config, w: World, m: Message)
    ensures w.store.reports <= Serve(c, w, m).0.store.reports
    ensures |Serve(c, w, m).0.store.reports| == |w.store.reports| + if Serve(c, w, m).1.Created? then 1 else 0
  {
    hide ClientIp, ValidClientId, Latest, BodyTs, Next, Admits, Ascii, Stamp, BodyClientId, TextField;
  }

  ghost function CreatedReplies(c: Config, w: World, run: seq<Message>): nat {
    if run == [] then 0 else
      CreatedReplies(c, w, run[..|run| - 1])
      + if Serve(c, After(c, w, run[..|run| - 1]), run[|run| - 1]).1.Created? then 1 else 0
  }

  /** Reports are only ever appended, one for each request answered 201. */
  lemma {:induction false} ReportsAreAppended(c: Config, w: World, run: seq<Message>, k: nat)
    requires k <= |run|
    ensures After(c, w, run[..k]).store.reports <= After(c, w, run).store.reports
    ensures |After(c, w, run).store.reports| == |w.store.reports| + CreatedReplies(c, w, run)
  {
    hide Serve;
    if run == [] {
      assert run[..k] == run;
    } else {
      var n := |run| - 1;
      ReportsGrow(c, After(c, w, run[..n]), run[n]);
      if k <= n {
        ReportsAreAppended(c, w, run[..n], k);
        assert run[..n][..k] == run[..k];
      } else {
        ReportsAreAppended(c, w, run[..n], 0);
        assert run[..k] == run;
      }
    }
  }

  // ---- the client address behind a proxy ----

  lemma {:induction false} LastHopIgnoresPrefix(a: string, b: string)
    ensures LastHop(a + "," + b) == LastHop(b)
  {
    var s := a + "," + b;
    if b == "" {
      assert s[|s| - 1] == ',';
    } else {
      assert s[..|s| - 1] == a + "," + b[..|b| - 1];
      LastHopIgnoresPrefix(a, b[..|b| - 1]);
    }
  }

  lemma {:induction false} LastHopOfOne(s: string)
    requires ',' !in s
    ensures LastHop(s) == s
  {
    if s != "" {
      LastHopOfOne(s[..|s| - 1]);
      assert s == s[..|s| - 1] + [s[|s| - 1]];
    }
  }

  /** Behind a proxy that appends its own view of the peer, as a header line of its own or to an existing one,
      nothing the client sends in that header changes the address it is known by. */
  lemma ClientCannotForgeAddress(c: Config, m: Message, sent: seq<string>, own: string, hop: string)
    requires c.trustProxy && ',' !in hop
    ensures ClientIp(c, m.(forwarded := sent + [hop])) == ClientIp(c, m.(forwarded := [hop]))
    ensures ClientIp(c, m.(forwarded := sent + [own + "," + hop])) == ClientIp(c, m.(forwarded := [hop]))
  {
    LastHopOfOne(hop);
    LastHopIgnoresPrefix(own, hop);
    LastOfJoin(sent, hop);
    LastOfJoin(sent, own + "," + hop);
  }

  lemma LastOfJoin(sent: seq<string>, last: string)
    ensures LastHop(Join(sent + [last])) == LastHop(last)
  {
    if sent != [] {
      var all := sent + [last];
      assert all[..|all| - 1] == sent;
      LastHopIgnoresPrefix(Join(sent), last);
    }
  }
}
