/** What the server of server/ac_server.py answers, by the words of the request and the requests before it. */
module ServerReplies {
  import opened Common
  import opened Database
  import RateLimiter
  import opened Server

  // ---- start-up ----

  ghost predicate Given(k: string, key: Option<string>) {
    key == Some(k) && k != ""
  }

  /** The server starts if and only if both current keys are given, no key is given for both tiers, and the limit and
      the window are positive; it then accepts exactly the keys given for each tier. */
  lemma StartUpMeans(reportKey: Option<string>, adminKey: Option<string>, reportKeyOld: Option<string>,
                     adminKeyOld: Option<string>, limit: int, window: int, trustProxy: bool, isIp: string -> bool)
    ensures var c := StartUp(reportKey, adminKey, reportKeyOld, adminKeyOld, limit, window, trustProxy, isIp);
            && (c != None <==>
                  && (exists k :: Given(k, reportKey)) && (exists k :: Given(k, adminKey))
                  && (forall k :: Given(k, reportKey) || Given(k, reportKeyOld) ==>
                        !Given(k, adminKey) && !Given(k, adminKeyOld))
                  && limit > 0 && window > 0)
            && (c != None ==>
                  && (forall k :: k in c.value.reportKeys <==> Given(k, reportKey) || Given(k, reportKeyOld))
                  && (forall k :: k in c.value.adminKeys <==> Given(k, adminKey) || Given(k, adminKeyOld))
                  && c.value.limit == limit && c.value.window == window as real
                  && c.value.trustProxy == trustProxy && c.value.isIp == isIp)
  {
    var reportKeys := KeySet(reportKey) + KeySet(reportKeyOld);
    var adminKeys := KeySet(adminKey) + KeySet(adminKeyOld);
    assert forall k :: k in reportKeys <==> Given(k, reportKey) || Given(k, reportKeyOld);
    assert forall k :: k in adminKeys <==> Given(k, adminKey) || Given(k, adminKeyOld);
    assert reportKeys * adminKeys == {} <==> forall k :: k in reportKeys ==> k !in adminKeys;
    assert KeySet(reportKey) != {} ==> Given(reportKey.value, reportKey);
    assert KeySet(adminKey) != {} ==> Given(adminKey.value, adminKey);
  }

  // ---- the words of a request ----

  /** The header is the word Bearer, a space and one of the keys. */
  ghost predicate Bears(m: Message, keys: set<string>) {
    exists k :: k in keys && Ascii(k) && m.authorization == Some("Bearer " + k)
  }

  ghost predicate Garbles(m: Message) {
    exists t :: !Ascii(t) && m.authorization == Some("Bearer " + t)
  }

  lemma AuthedMeans(keys: set<string>, m: Message)
    ensures Authed(keys, m).Accepted? <==> Bears(m, keys)
    ensures Authed(keys, m).Raised? <==> Garbles(m)
  {
    hide Ascii;
    if m.authorization.Some? && BEARER <= m.authorization.value {
      var token := m.authorization.value[|BEARER|..];
      assert m.authorization.value == BEARER + token;
      assert forall t :: "Bearer " + t == m.authorization.value ==> t == token by {
        forall t | "Bearer " + t == m.authorization.value ensures t == token {
          assert ("Bearer " + t)[|BEARER|..] == t;
        }
      }
    }
  }

  /** A letter, a digit, a full stop, an underscore or a hyphen, by its ASCII code. */
  ghost predicate IsLetter(code: int) {
    65 <= code < 91 || 97 <= code < 123 || 48 <= code < 58 || code == 46 || code == 95 || code == 45
  }

  ghost predicate IsWord(s: string) {
    1 <= |s| <= 128 && forall i :: 0 <= i < |s| ==> IsLetter(s[i] as int)
  }

  /** One to 128 of these characters, and perhaps a newline. */
  ghost predicate IsId(s: string) {
    IsWord(s) || exists word :: IsWord(word) && s == word + "\n"
  }

  lemma WordMeans(s: string)
    ensures IdChars(s) <==> IsWord(s)
  {
  }

  lemma IdMeans(s: string)
    ensures ValidClientId(s) <==> IsId(s)
  {
    hide IsWord, IdChars;
    WordMeans(s);
    if s != "" {
      WordMeans(s[..|s| - 1]);
      if s[|s| - 1] == '\n' {
        assert s == s[..|s| - 1] + "\n";
      }
    }
    if word :| IsWord(word) && s == word + "\n" {
      assert s[..|s| - 1] == word;
    }
  }

  /** A field of the body is this text. */
  ghost predicate Says(m: Message, name: string, text: string) {
    m.body.Object? && name in m.body.fields && m.body.fields[name] == Text(text)
  }

  ghost predicate SaysId(m: Message) {
    exists id :: Says(m, "client_id", id) && IsId(id)
  }

  /** The keys the route asks for; None for no route. */
  ghost function KeysFor(c: Config, m: Message): Option<set<string>> {
    if m.verb == Post && m.path == "/report" then Some(c.reportKeys)
    else if m.verb == Post && m.path in {"/ban", "/unban"} then Some(c.adminKeys)
    else if m.verb == Get && ("/banned/" <= m.path || "/reports/" <= m.path) then Some(c.adminKeys)
    else None
  }

  ghost predicate WellFormed(m: Message) {
    if m.verb == Get then
      exists id :: (m.path == "/banned/" + id || m.path == "/reports/" + id) && IsId(id)
    else
      && SaysId(m)
      && (m.path == "/report" ==> exists event :: Says(m, "event_type", event) && |event| <= 64)
      && (m.path == "/report" ==> exists detail :: Says(m, "detail", detail) && |detail| <= 2000)
      && (m.path == "/ban" ==> exists reason :: Says(m, "reason", reason) && 1 <= |reason| <= 500)
  }

  lemma BodyMeans(m: Message)
    ensures BodyClientId(m.body).Some? <==> SaysId(m)
    ensures forall name, text :: Says(m, name, text) <==> TextField(m.body, name) == Some(text)
  {
    hide ValidClientId, IsId;
    var id := TextField(m.body, "client_id");
    if id.Some? {
      IdMeans(id.value);
      assert Says(m, "client_id", id.value);
    }
    forall id' | Says(m, "client_id", id')
      ensures ValidClientId(id') <==> IsId(id')
    {
      IdMeans(id');
    }
  }

  lemma PostMeans(c: Config, m: Message)
    requires m.verb == Post
    ensures m.path == "/report" ==> if WellFormed(m) then ReportAction(c, m).AddReport?
                                    else ReportAction(c, m) == Answer(BadRequest)
    ensures m.path == "/ban" ==> if WellFormed(m) then BanAction(m).SetBan? else BanAction(m) == Answer(BadRequest)
    ensures m.path == "/unban" ==>
              if WellFormed(m) then UnbanAction(m).LiftBan? else UnbanAction(m) == Answer(BadRequest)
  {
    hide BodyClientId, SaysId, TextField, Says, ClientIp, BodyTs;
    BodyMeans(m);
  }

  lemma GetMeans(m: Message, prefix: string)
    requires m.verb == Get && (prefix == BANNED || prefix == REPORTS) && prefix <= m.path
    ensures if WellFormed(m) then !QueryAction(m, prefix).Answer? else QueryAction(m, prefix) == Answer(BadRequest)
  {
    hide ValidClientId, IsId;
    var id := m.path[|prefix|..];
    IdMeans(id);
    assert m.path == prefix + id;
    PrefixIsOne(m.path);
    forall other | m.path == BANNED + other || m.path == REPORTS + other
      ensures other == id
    {
      assert (BANNED + other)[|BANNED|..] == other && (REPORTS + other)[|REPORTS|..] == other;
      assert BANNED <= BANNED + other && REPORTS <= REPORTS + other;
    }
  }

  lemma PrefixIsOne(path: string)
    ensures !(BANNED <= path && REPORTS <= path)
  {
    if BANNED <= path {
      assert path[1] == BANNED[1];
    }
  }

  ghost predicate Admitted(c: Config, w: World, m: Message) {
    RateLimiter.Admits(w.limiter, c.limit, c.window, RateLimiter.Request(ClientIp(c, m), m.now))
  }

  /** The request gets past the limiter and the keys, says what it must, and the statement works. */
  ghost predicate Succeeds(c: Config, w: World, m: Message) {
    Admitted(c, w, m) && KeysFor(c, m) != None && Bears(m, KeysFor(c, m).value) && WellFormed(m) && m.dbOk
  }

  /** When each error is answered; an error changes neither table. */
  lemma EveryReply(c: Config, w: World, m: Message)
    ensures var keys, reply := KeysFor(c, m), Serve(c, w, m).1;
            var bears := keys != None && Bears(m, keys.value);
            && (reply == RateLimited <==> !Admitted(c, w, m))
            && (reply == NotFound <==> Admitted(c, w, m) && keys == None)
            && (reply == Unauthorized <==> Admitted(c, w, m) && keys != None && !bears && !Garbles(m))
            && (reply == BadRequest <==> Admitted(c, w, m) && bears && !WellFormed(m))
            && (reply == InternalError <==>
                  Admitted(c, w, m) && keys != None && (Garbles(m) || (bears && WellFormed(m) && !m.dbOk)))
    ensures !Succeeds(c, w, m) ==> Serve(c, w, m).0.store == w.store
  {
    hide Bears, Garbles, WellFormed, ReportAction, BanAction, UnbanAction, QueryAction, ClientIp, Latest, Authed;
    hide RateLimiter.Admits, RateLimiter.Next;
    var keys := KeysFor(c, m);
    if keys != None {
      AuthedMeans(keys.value, m);
      if m.verb == Post {
        PostMeans(c, m);
      } else {
        GetMeans(m, if BANNED <= m.path then BANNED else REPORTS);
      }
    }
  }

  lemma Succeeded(c: Config, w: World, m: Message)
    requires Succeeds(c, w, m)
    ensures var keys := KeysFor(c, m);
            && keys != None && Authed(keys.value, m) == Accepted && WellFormed(m) && m.dbOk
            && (Serve(c, w, m).0.store, Serve(c, w, m).1) == Perform(w.store, Dispatch(c, m), m.dbOk)
  {
    hide Bears, WellFormed, Dispatch, Perform, ClientIp, RateLimiter.Admits, RateLimiter.Next, Authed;
    AuthedMeans(KeysFor(c, m).value, m);
  }

  /** The number in the body's ts field, if that is a number. */
  ghost function SaysTime(m: Message): Option<real> {
    if m.body.Object? && "ts" in m.body.fields && m.body.fields["ts"].Number? then Some(m.body.fields["ts"].number)
    else None
  }

  /** A report that succeeds is filed as it says, stamped with the whole seconds of the clock and the address. */
  lemma ReportIsFiled(c: Config, w: World, m: Message, id: string, event: string, detail: string)
    requires Succeeds(c, w, m) && m.verb == Post && m.path == "/report"
    requires Says(m, "client_id", id) && Says(m, "event_type", event) && Says(m, "detail", detail)
    ensures Serve(c, w, m).1 == Created
    ensures var r := Report(id, event, detail, SaysTime(m), m.savedAt.Floor, ClientIp(c, m));
            Serve(c, w, m).0.store == Store(w.store.reports + [r], w.store.bans)
  {
    hide ClientIp, ValidClientId, IsId, Serve, Authed, Succeeds;
    Succeeded(c, w, m);
    PostMeans(c, m);
  }

  /** A ban that succeeds sets the client's ban and no other. */
  lemma BanIsSet(c: Config, w: World, m: Message, id: string, reason: string)
    requires Succeeds(c, w, m) && m.verb == Post && m.path == "/ban"
    requires Says(m, "client_id", id) && Says(m, "reason", reason)
    ensures Serve(c, w, m).1 == Done
    ensures Serve(c, w, m).0.store == Store(w.store.reports, w.store.bans[id := Ban(reason, m.savedAt.Floor)])
  {
    hide ClientIp, ValidClientId, IsId, Serve, Authed, Succeeds;
    Succeeded(c, w, m);
    PostMeans(c, m);
  }

  /** An unban that succeeds lifts the client's ban and no other, and says whether there was one. */
  lemma BanIsLifted(c: Config, w: World, m: Message, id: string)
    requires Succeeds(c, w, m) && m.verb == Post && m.path == "/unban" && Says(m, "client_id", id)
    ensures Serve(c, w, m).1 == Unbanned(id in w.store.bans)
    ensures Serve(c, w, m).0.store == Store(w.store.reports, w.store.bans - {id})
  {
    hide ClientIp, ValidClientId, IsId, Serve, Authed, Succeeds;
    Succeeded(c, w, m);
    PostMeans(c, m);
  }

  /** The two queries answer from the tables as they are, and change nothing. */
  lemma QueriesAnswer(c: Config, w: World, m: Message, id: string)
    requires Succeeds(c, w, m) && m.verb == Get
    ensures m.path == "/banned/" + id ==>
              Serve(c, w, m).1 == Status(if id in w.store.bans then Some(w.store.bans[id]) else None)
    ensures m.path == "/reports/" + id ==>
              Serve(c, w, m).1 == Reports(Take(Reversed(Mine(w.store.reports, id)), 200))
    ensures Serve(c, w, m).0.store == w.store
  {
    hide ClientIp, ValidClientId, IsId, Serve, Authed, Succeeds, ReportsOf, Mine, Reversed;
    Succeeded(c, w, m);
    var prefix := if BANNED <= m.path then BANNED else REPORTS;
    GetMeans(m, prefix);
    PrefixIsOne(m.path);
    NewestFirst(w.store.reports, id);
    if m.path == "/banned/" + id {
      assert BANNED <= BANNED + id && (BANNED + id)[|BANNED|..] == id;
    }
    if m.path == "/reports/" + id {
      assert REPORTS <= REPORTS + id && (REPORTS + id)[|REPORTS|..] == id;
    }
  }

  // ---- what the queries answer after a run ----

  /** A ban or an unban of the id that succeeds. */
  ghost predicate Decides(c: Config, w: World, m: Message, id: string) {
    Succeeds(c, w, m) && m.verb == Post && m.path in {"/ban", "/unban"} && Says(m, "client_id", id)
  }

  lemma DecisionMeans(c: Config, w: World, m: Message, id: string)
    ensures IsBan(c, w, m, id) <==> Decides(c, w, m, id) && m.path == "/ban"
    ensures IsUnban(c, w, m, id) <==> Decides(c, w, m, id) && m.path == "/unban"
  {
    hide Serve, WellFormed, Bears, ValidClientId;
    EveryReply(c, w, m);
    if m.verb == Post && BodyClientId(m.body) == Some(id) {
      assert Says(m, "client_id", id);
    }
    if Decides(c, w, m, id) {
      DecidedReply(c, w, m, id);
    }
  }

  lemma DecidedReply(c: Config, w: World, m: Message, id: string)
    requires Decides(c, w, m, id)
    ensures if m.path == "/ban" then Serve(c, w, m).1.Done? else Serve(c, w, m).1.Unbanned?
    ensures BodyClientId(m.body) == Some(id)
  {
    hide Serve, Bears, IsId, Succeeds, ValidClientId;
    Succeeded(c, w, m);
    BodyMeans(m);
    if m.path == "/ban" {
      var reason :| Says(m, "reason", reason);
      BanIsSet(c, w, m, id, reason);
    } else {
      BanIsLifted(c, w, m, id);
    }
  }

  ghost predicate DecidesAt(c: Config, w: World, run: seq<Message>, k: nat, id: string) {
    k < |run| && Decides(c, After(c, w, run[..k]), run[k], id)
  }

  lemma DecisionsMean(c: Config, w: World, run: seq<Message>, id: string)
    ensures forall k: nat :: BansAt(c, w, run, k, id) <==> DecidesAt(c, w, run, k, id) && run[k].path == "/ban"
    ensures forall k: nat :: UnbansAt(c, w, run, k, id) <==> DecidesAt(c, w, run, k, id) && run[k].path == "/unban"
  {
    hide IsBan, IsUnban, Decides, After;
    forall k: nat | k < |run|
      ensures BansAt(c, w, run, k, id) <==> DecidesAt(c, w, run, k, id) && run[k].path == "/ban"
      ensures UnbansAt(c, w, run, k, id) <==> DecidesAt(c, w, run, k, id) && run[k].path == "/unban"
    {
      DecisionMeans(c, After(c, w, run[..k]), run[k], id);
    }
  }

  /** After any run, GET /banned/id answers what the last ban or unban of the id that succeeded said. */
  lemma BannedTellsLastDecision(c: Config, w: World, run: seq<Message>, k: nat, id: string, m: Message)
    requires DecidesAt(c, w, run, k, id) && forall j: nat :: DecidesAt(c, w, run, j, id) ==> j <= k
    requires Succeeds(c, After(c, w, run), m) && m.verb == Get && m.path == "/banned/" + id
    ensures var reply := Serve(c, After(c, w, run), m).1;
            if run[k].path == "/unban" then reply == Status(None)
            else exists reason :: Says(run[k], "reason", reason)
                   && reply == Status(Some(Ban(reason, run[k].savedAt.Floor)))
  {
    hide Serve, After, Succeeds, BansAt, UnbansAt;
    DecisionsMean(c, w, run, id);
    LastDecisionHolds(c, w, run, k, id);
    QueriesAnswer(c, After(c, w, run), m, id);
    if run[k].path == "/ban" {
      ReasonIsGiven(c, After(c, w, run[..k]), run[k]);
      var reason :| Says(run[k], "reason", reason);
      BodyMeans(run[k]);
    }
  }

  lemma ReasonIsGiven(c: Config, w: World, m: Message)
    requires Succeeds(c, w, m) && m.verb == Post && m.path == "/ban"
    ensures exists reason :: Says(m, "reason", reason)
  {
    hide Bears, SaysId, Says;
  }

  /** With none, that the id is not banned, if the server started with no bans. */
  lemma BannedTellsNoDecision(c: Config, w: World, run: seq<Message>, id: string, m: Message)
    requires w.store.bans == map[] && forall j: nat :: !DecidesAt(c, w, run, j, id)
    requires Succeeds(c, After(c, w, run), m) && m.verb == Get && m.path == "/banned/" + id
    ensures Serve(c, After(c, w, run), m).1 == Status(None)
  {
    hide Serve, After, Succeeds, BansAt, UnbansAt, DecidesAt;
    DecisionsMean(c, w, run, id);
    NoDecisionNoChange(c, w, run, id);
    QueriesAnswer(c, After(c, w, run), m, id);
  }

  /** The report a request files if it succeeds. */
  ghost predicate Files(c: Config, m: Message, r: Report) {
    && Says(m, "client_id", r.clientId) && Says(m, "event_type", r.eventType) && Says(m, "detail", r.detail)
    && r.clientTs == SaysTime(m) && r.receivedAt == m.savedAt.Floor && r.source == ClientIp(c, m)
  }

  /** The reports filed by a run, in order: one for each request to file one that succeeded. */
  ghost predicate Filed(c: Config, w: World, run: seq<Message>, reports: seq<Report>) {
    if run == [] then reports == [] else
      var n, last := |run| - 1, |reports| - 1;
      if Succeeds(c, After(c, w, run[..n]), run[n]) && run[n].verb == Post && run[n].path == "/report"
      then reports != [] && Files(c, run[n], reports[last]) && Filed(c, w, run[..n], reports[..last])
      else Filed(c, w, run[..n], reports)
  }

  lemma OneRequest(c: Config, w: World, m: Message)
    ensures var before, after := w.store.reports, Serve(c, w, m).0.store.reports;
            if Succeeds(c, w, m) && m.verb == Post && m.path == "/report"
            then |after| == |before| + 1 && after[..|before|] == before && Files(c, m, after[|before|])
            else after == before
  {
    hide Serve, IsId, ClientIp, Succeeds, Perform, Dispatch, KeysFor, Says, SaysTime;
    EveryReply(c, w, m);
    if Succeeds(c, w, m) {
      SuccessIsPossible(c, w, m);
      if m.verb == Get {
        QueryIsQuiet(c, w, m);
      } else {
        var id :| Says(m, "client_id", id);
        if m.path == "/report" {
          var event :| Says(m, "event_type", event);
          var detail :| Says(m, "detail", detail);
          ReportIsFiled(c, w, m, id, event, detail);
        } else if m.path == "/ban" {
          var reason :| Says(m, "reason", reason);
          BanIsSet(c, w, m, id, reason);
        } else {
          BanIsLifted(c, w, m, id);
        }
      }
    }
  }

  lemma SuccessIsPossible(c: Config, w: World, m: Message)
    requires Succeeds(c, w, m)
    ensures WellFormed(m) && (m.verb == Post ==> m.path in {"/report", "/ban", "/unban"})
  {
    hide WellFormed, Bears;
  }

  lemma QueryIsQuiet(c: Config, w: World, m: Message)
    requires Succeeds(c, w, m) && m.verb == Get
    ensures Serve(c, w, m).0.store == w.store
  {
    QueriesAnswer(c, w, m, "");
  }

  lemma {:induction false} StoreIsFiled(c: Config, w: World, run: seq<Message>)
    requires w.store.reports == []
    ensures Filed(c, w, run, After(c, w, run).store.reports)
  {
    hide Serve, Succeeds, Files;
    if run != [] {
      var n := |run| - 1;
      StoreIsFiled(c, w, run[..n]);
      OneRequest(c, After(c, w, run[..n]), run[n]);
    }
  }

  /** After any run of a server that started with no reports, GET /reports/id answers the reports the run filed for the
      id, the last one first, and the first 200 of them. */
  lemma ReportsTellsWhatWasFiled(c: Config, w: World, run: seq<Message>, id: string, m: Message)
    requires w.store.reports == []
    requires Succeeds(c, After(c, w, run), m) && m.verb == Get && m.path == "/reports/" + id
    ensures exists filed ::
              && Filed(c, w, run, filed)
              && Serve(c, After(c, w, run), m).1 == Reports(Take(Reversed(Mine(filed, id)), 200))
  {
    hide Serve, Succeeds, Filed;
    StoreIsFiled(c, w, run);
    QueriesAnswer(c, After(c, w, run), m, id);
  }

  // ---- the address ----

  /** What str.strip() strips, of the characters a header can hold, by code. */
  ghost predicate IsSpace(code: int) {
    9 <= code <= 13 || 28 <= code <= 32 || code == 133 || code == 160
  }

  lemma SpaceMeans(c: char)
    ensures IsBlank(c) <==> IsSpace(c as int)
  {
  }

  ghost predicate AllSpace(s: string) {
    forall i :: 0 <= i < |s| ==> IsSpace(s[i] as int)
  }

  ghost predicate Trimmed(s: string) {
    s == "" || (!IsSpace(s[0] as int) && !IsSpace(s[|s| - 1] as int))
  }

  lemma {:induction false} StripPads(before: string, s: string, after: string)
    requires AllSpace(before) && AllSpace(after) && Trimmed(s)
    ensures Strip(before + s + after) == s
    decreases |before| + |after|
  {
    hide IsBlank, IsSpace;
    var all := before + s + after;
    if all != "" {
      SpaceMeans(all[0]);
      SpaceMeans(all[|all| - 1]);
    }
    if before != "" {
      assert all[1..] == before[1..] + s + after;
      StripPads(before[1..], s, after);
    } else if after != "" && s == "" {
      assert all == after && all[1..] == "" + s + after[1..];
      StripPads("", s, after[1..]);
    } else if after != "" {
      assert all[..|all| - 1] == "" + s + after[..|after| - 1];
      StripPads("", s, after[..|after| - 1]);
    } else {
      assert all == s;
    }
  }

  /** The address a client is known by: the peer's, unless a trusted proxy gave one. What counts then is what follows
      the last comma of the last line, without the white space around it, if it is an address at all. */
  lemma AddressMeans(c: Config, m: Message, sent: seq<string>, own: string, before: string, hop: string, after: string)
    requires AllSpace(before) && AllSpace(after) && Trimmed(hop) && ',' !in hop
    requires m.forwarded in {sent + [before + hop + after], sent + [own + "," + (before + hop + after)]}
    ensures ClientIp(c, m) == if c.trustProxy && c.isIp(hop) then hop else m.peer
    ensures ClientIp(c, m.(forwarded := [])) == m.peer
  {
    hide Strip, LastHop, Join, IsSpace;
    var last := before + hop + after;
    assert ',' !in last by {
      NoCommas(before);
      NoCommas(after);
    }
    LastHopOfOne(last);
    LastHopIgnoresPrefix(own, last);
    LastOfJoin(sent, last);
    LastOfJoin(sent, own + "," + last);
    StripPads(before, hop, after);
  }

  lemma NoCommas(s: string)
    requires AllSpace(s)
    ensures ',' !in s
  {
  }
}
