/** The parts put together: what a daemon's report becomes on the server, and how many requests of one
    address the server serves. */
module Pipeline {
  import ClockDisorder
  import opened Common
  import opened Database
  import Json
  import JsonReader
  import PidTables
  import RateLimiter
  import Registry
  import opened Server
  import Slots
  import Utf8

  // ---- rate limiting of the whole server ----

  ghost function Requests(c: Config, run: seq<Message>): (r: seq<RateLimiter.Request>)
    ensures |r| == |run|
  {
    seq(|run|, i requires 0 <= i < |run| => RateLimiter.Request(ClientIp(c, run[i]), run[i].now))
  }

  ghost function Started(start: real, store: Store): World {
    World(RateLimiter.State(map[], start), store)
  }

  lemma {:induction false} LimiterSeesEveryRequest(c: Config, start: real, store: Store, run: seq<Message>)
    ensures After(c, Started(start, store), run).limiter == RateLimiter.After(Requests(c, run), c.window, start)
  {
    hide Dispatch, ClientIp, Perform;
    if run != [] {
      var n := |run| - 1;
      LimiterSeesEveryRequest(c, start, store, run[..n]);
      assert Requests(c, run)[..n] == Requests(c, run[..n]);
    }
  }

  /** Requests from one address in [lo, hi) that were not answered 429. */
  ghost function Served(c: Config, w: World, run: seq<Message>, ip: string, lo: real, hi: real): nat {
    if run == [] then 0 else
      var n := |run| - 1;
      Served(c, w, run[..n], ip, lo, hi)
      + if ClientIp(c, run[n]) == ip && lo <= run[n].now < hi && !Serve(c, After(c, w, run[..n]), run[n]).1.RateLimited?
        then 1 else 0
  }

  lemma OnlyTheLimiterRefuses(c: Config, w: World, m: Message)
    ensures Serve(c, w, m).1.RateLimited? <==>
            !RateLimiter.Admits(w.limiter, c.limit, c.window, RateLimiter.Request(ClientIp(c, m), m.now))
  {
    hide ClientIp, ValidClientId, Latest, BodyTs, Ascii, Stamp, BodyClientId, TextField;
  }

  lemma {:induction false} ServedIsAdmitted(c: Config, start: real, store: Store, run: seq<Message>, ip: string,
                                            lo: real, hi: real)
    ensures Served(c, Started(start, store), run, ip, lo, hi)
         == RateLimiter.Admitted(Requests(c, run), c.limit, c.window, start, ip, lo, hi)
  {
    hide Serve, ClientIp, RateLimiter.Admits;
    if run != [] {
      var n := |run| - 1;
      ServedIsAdmitted(c, start, store, run[..n], ip, lo, hi);
      assert Requests(c, run)[..n] == Requests(c, run[..n]);
      LimiterSeesEveryRequest(c, start, store, run[..n]);
      OnlyTheLimiterRefuses(c, After(c, Started(start, store), run[..n]), run[n]);
    }
  }

  /** Whatever mix of endpoints an address asks for, fewer than 2 * limit of its requests are served in any
      interval as long as the window. */
  lemma ServedBound(c: Config, start: real, store: Store, run: seq<Message>, ip: string, lo: real)
    requires c.limit >= 1 && c.window > 0.0 && RateLimiter.Ordered(Requests(c, run), start)
    ensures Served(c, Started(start, store), run, ip, lo, lo + c.window) <= 2 * c.limit - 1
  {
    ServedIsAdmitted(c, start, store, run, ip, lo, lo + c.window);
    RateLimiter.SlidingWindowBound(Requests(c, run), c.limit, c.window, start, ip, lo);
  }

  /** Fewer than 3 * limit are when threads pass the limiter out of the order in which they read the clock, as long as
      no reading lies before the limiter's last prune. */
  lemma ServedBoundInDisorder(c: Config, start: real, store: Store, run: seq<Message>, ip: string, lo: real)
    requires c.limit >= 1 && c.window > 0.0 && RateLimiter.AfterPrunes(Requests(c, run), c.window, start)
    ensures Served(c, Started(start, store), run, ip, lo, lo + c.window) <= 3 * c.limit - 2
  {
    ServedIsAdmitted(c, start, store, run, ip, lo, lo + c.window);
    ClockDisorder.DisorderedBound(Requests(c, run), c.limit, c.window, start, ip, lo);
  }

  /** A server that started has such limits, whatever its arguments were. */
  lemma StartedServerIsBounded(reportKey: Option<string>, adminKey: Option<string>, reportKeyOld: Option<string>,
                               adminKeyOld: Option<string>, limit: int, window: int, trustProxy: bool,
                               isIp: string -> bool, start: real, store: Store, run: seq<Message>, ip: string, lo: real)
    requires StartUp(reportKey, adminKey, reportKeyOld, adminKeyOld, limit, window, trustProxy, isIp).Some?
    requires var c := StartUp(reportKey, adminKey, reportKeyOld, adminKeyOld, limit, window, trustProxy, isIp).value;
             RateLimiter.Ordered(Requests(c, run), start)
    ensures var c := StartUp(reportKey, adminKey, reportKeyOld, adminKeyOld, limit, window, trustProxy, isIp).value;
            Served(c, Started(start, store), run, ip, lo, lo + window as real) <= 2 * limit - 1
  {
    hide Served;
    var c := StartUp(reportKey, adminKey, reportKeyOld, adminKeyOld, limit, window, trustProxy, isIp).value;
    ServedBound(c, start, store, run, ip, lo);
  }

  // ---- from a detection to the report log ----

  /** The server's view of a body: the members of a non-empty JSON object. */
  function ParsedBody(text: string): Body {
    var r := JsonReader.ReadObject(text);
    if r.None? || r.value == map[] then Bad else Object(r.value)
  }

  /** How much of an event and of a detail the daemon's buffers take. */
  function KeptEvent(event: string): string {
    event[..Json.Fitting(event, Json.EVENT_SIZE)]
  }

  function Kept(detail: string): string {
    detail[..Json.Fitting(detail, Json.DETAIL_SIZE)]
  }

  function ReportBody(fields: map<string, Value>, event: string, detail: string, ts: int): Body {
    Object(fields["event_type" := Text(event)]["detail" := Text(detail)]["ts" := Number(ts as real)])
  }

  ghost predicate IsTime(ts: int) {
    -0x8000_0000_0000_0000 <= ts < 0x8000_0000_0000_0000
  }

  /** What the server reads of any body the daemon sends. */
  lemma DaemonBodyParses(dec: string -> string, id: string, event: string, detail: string, ts: int)
    requires Utf8.KeepsAscii(dec) && |id| < Json.CLIENT_ID_SIZE && IsTime(ts)
    ensures ParsedBody(dec(Json.Body(id, event, detail, ts)))
         == if JsonReader.IdFields(dec(id)).None? then Bad
            else ReportBody(JsonReader.IdFields(dec(id)).value, dec(KeptEvent(event)), dec(Kept(detail)), ts)
  {
    hide Json.Body, Json.Fitting, Json.Formatted, Json.Escape, JsonReader.ReadObject, JsonReader.IdFields;
    hide Utf8.KeepsAscii;
    Json.BodyIsNeverCut(id, event, detail, ts);
    Utf8.DecodedBody(dec, id, KeptEvent(event), Kept(detail), ts);
    JsonReader.BodyReadsExactly(dec(id), dec(KeptEvent(event)), dec(Kept(detail)), ts);
    var f := JsonReader.IdFields(dec(id));
    if f.Some? {
      assert "ts" in ReportBody(f.value, dec(KeptEvent(event)), dec(Kept(detail)), ts).fields;
    }
  }

  lemma DecodedFieldsAreShort(dec: string -> string, event: string, detail: string)
    requires Utf8.KeepsAscii(dec)
    ensures |dec(KeptEvent(event))| < Json.EVENT_SIZE && |dec(Kept(detail))| < Json.DETAIL_SIZE
  {
    hide Json.Fitting, Json.Escape, Utf8.KeepsAscii;
    Json.FittingBounds(event, Json.EVENT_SIZE);
    Json.FittingBounds(detail, Json.DETAIL_SIZE);
    Utf8.DecodedIsNoLonger(dec, KeptEvent(event));
    Utf8.DecodedIsNoLonger(dec, Kept(detail));
  }

  /** The client id the server files a report under, if any, by the id in its body. */
  function FiledUnder(id: string): Option<string> {
    var f := JsonReader.IdFields(id);
    if f.Some? then BodyClientId(Object(f.value)) else None
  }

  /** m is a report with a report key that is not rate limited, and the insert succeeds. */
  ghost predicate GetsThrough(c: Config, w: World, m: Message) {
    && m.verb.Post? && m.path == "/report" && Authed(c.reportKeys, m).Accepted? && m.dbOk
    && RateLimiter.Admits(w.limiter, c.limit, c.window, RateLimiter.Request(ClientIp(c, m), m.now))
  }

  /** What the server does with such a report: store it, or answer 400 and change nothing. */
  ghost predicate Files(c: Config, w: World, m: Message, id: Option<string>, event: string, detail: string, ts: int) {
    var (after, reply) := Serve(c, w, m);
    if id.None? then reply == BadRequest && after.store == w.store
    else
      var stored := Report(id.value, event, detail, Some(ts as real), Stamp(m.savedAt), ClientIp(c, m));
      reply == Created && after.store == Store(w.store.reports + [stored], w.store.bans)
  }

  lemma ReportIsFiled(c: Config, w: World, m: Message, fields: map<string, Value>, event: string,
                      detail: string, ts: int)
    requires GetsThrough(c, w, m) && m.body == ReportBody(fields, event, detail, ts)
           && |event| <= 64 && |detail| <= 2000
    ensures Files(c, w, m, BodyClientId(Object(fields)), event, detail, ts)
  {
    hide ClientIp, Authed, RateLimiter.Admits, RateLimiter.Next, ValidClientId;
    assert BodyClientId(m.body) == BodyClientId(Object(fields));
    assert TextField(m.body, "event_type") == Some(event) && TextField(m.body, "detail") == Some(detail);
    assert BodyTs(m.body) == Some(ts as real);
  }

  lemma NothingIsFiled(c: Config, w: World, m: Message, event: string, detail: string, ts: int)
    requires GetsThrough(c, w, m) && m.body.Bad?
    ensures Files(c, w, m, None, event, detail, ts)
  {
    hide ClientIp, Authed, RateLimiter.Admits, RateLimiter.Next, ValidClientId;
    assert BodyClientId(m.body) == None;
  }

  /** Every report the daemon sends, whatever its client id, event and detail and however the server decodes them: it is
      stored under the id the server reads, or answered 400 if it reads none; the event, the detail and the time are
      always the daemon's own, decoded and as far as they fitted, and nothing else changes. */
  lemma EveryReportIsFiledExactly(dec: string -> string, c: Config, w: World, m: Message, id: string, event: string,
                                  detail: string, ts: int)
    requires Utf8.KeepsAscii(dec) && |id| < Json.CLIENT_ID_SIZE && IsTime(ts) && GetsThrough(c, w, m)
    ensures Files(c, w, m.(body := ParsedBody(dec(Json.Body(id, event, detail, ts)))),
                  FiledUnder(dec(id)), dec(KeptEvent(event)), dec(Kept(detail)), ts)
  {
    hide Serve, ParsedBody, ReportBody, Kept, KeptEvent, Json.Body, RateLimiter.Admits, Utf8.KeepsAscii,
         Files, BodyClientId;
    hide JsonReader.IdFields;
    var f, e, d := JsonReader.IdFields(dec(id)), dec(KeptEvent(event)), dec(Kept(detail));
    var sent := m.(body := ParsedBody(dec(Json.Body(id, event, detail, ts))));
    DaemonBodyParses(dec, id, event, detail, ts);
    DecodedFieldsAreShort(dec, event, detail);
    assert ClientIp(c, sent) == ClientIp(c, m) && Authed(c.reportKeys, sent) == Authed(c.reportKeys, m);
    if f.Some? {
      ReportIsFiled(c, w, sent, f.value, e, d, ts);
    } else {
      NothingIsFiled(c, w, sent, e, d, ts);
    }
  }

  /** A report is filed under its own id if and only if that is made of the characters of an id. */
  lemma FiledUnderItselfExactly(id: string)
    ensures FiledUnder(id) == Some(id) <==> IdChars(id)
  {
    hide JsonReader.IdFields;
    JsonReader.IdReadsBackIffPlain(id);
    if IdChars(id) {
      IdIsPlain(id);
    }
  }

  lemma IdIsPlain(id: string)
    requires IdChars(id)
    ensures Json.Plain(id) && Ascii(id)
  {
  }

  /** Not every other id is refused: this one files reports under another. */
  lemma SomeReportsAreFiledElsewhere()
    ensures FiledUnder("a\",\"z\":\"") == Some("a")
  {
    hide JsonReader.IdFields;
    JsonReader.SomeIdsReadAsOthers();
    assert IdChars("a");
  }

  /** So a detection with a proper client id is stored with its own id, event and time, and with the decoding of as much
      of its detail as fitted the daemon's buffer. */
  lemma DetectionIsLogged(dec: string -> string, c: Config, w: World, m: Message, id: string, event: string,
                          detail: string, ts: int)
    requires Utf8.KeepsAscii(dec) && IdChars(id) && |id| < Json.CLIENT_ID_SIZE && IsTime(ts) && GetsThrough(c, w, m)
    requires event == "ALERT" || event == "CRITICAL"
    ensures Files(c, w, m.(body := ParsedBody(dec(Json.Body(id, event, detail, ts)))),
                  Some(id), event, dec(Kept(detail)), ts)
  {
    hide Files, ParsedBody, Json.Body, Json.Fitting, Json.Escape, FiledUnder, Utf8.KeepsAscii, GetsThrough, IdChars;
    EveryReportIsFiledExactly(dec, c, w, m, id, event, detail, ts);
    FiledUnderItselfExactly(id);
    IdIsPlain(id);
    Utf8.AsciiDecodes(dec, id);
    Json.FittingAll(event, Json.EVENT_SIZE);
    assert event[..|event|] == event;
    Utf8.AsciiDecodes(dec, event);
  }

  /** With the server's own decoder, a detail that is the UTF-8 form of some text and fits the buffer is stored as that
      text. */
  lemma TextIsLoggedAsItself(c: Config, w: World, m: Message, id: string, event: string, text: string, ts: int)
    requires IdChars(id) && |id| < Json.CLIENT_ID_SIZE && IsTime(ts) && GetsThrough(c, w, m)
    requires event == "ALERT" || event == "CRITICAL"
    requires Json.Fitting(Utf8.Encode(text), Json.DETAIL_SIZE) == |Utf8.Encode(text)|
    ensures Files(c, w, m.(body := ParsedBody(Utf8.Decode(Json.Body(id, event, Utf8.Encode(text), ts)))),
                  Some(id), event, text, ts)
  {
    hide Utf8.Decode, Utf8.Encode, Utf8.KeepsAscii, Files, ParsedBody, Json.Body, GetsThrough, IdChars;
    var bytes := Utf8.Encode(text);
    assert bytes[..|bytes|] == bytes;
    Utf8.DecodeKeepsAscii();
    Utf8.EncodeRoundTrip(text);
    DetectionIsLogged(Utf8.Decode, c, w, m, id, event, bytes, ts);
  }

  /** An id that the server accepts but that ends in a newline never has a report filed under it, since the daemon does
      not escape it. */
  lemma NewlineIdIsLost(dec: string -> string, id: string)
    requires Utf8.KeepsAscii(dec) && ValidClientId(id) && !IdChars(id)
    ensures FiledUnder(dec(id)) != Some(id)
  {
    hide FiledUnder, Utf8.KeepsAscii;
    Utf8.AsciiDecodes(dec, id);
    FiledUnderItselfExactly(id);
  }

  // ---- the kernel's list and the daemon's tables ----

  ghost function LooksOf(items: seq<Registry.Info>, isSet: int -> bool): seq<PidTables.Look> {
    seq(|items|, i requires 0 <= i < |items| => PidTables.Look(PidTables.Pid(items[i].pid), isSet(items[i].pid)))
  }

  /** LIST_PROTECTED never reports more tasks than the daemon's tables have slots, so a pass over all protected
      processes always finds the slots it needs: every protected task whose variable is set is warned about exactly
      once, unless its pid already was. */
  method PreloadPass(registry: Registry.Table, warned: PidTables.Table, isSet: int -> bool)
    returns (warnings: seq<PidTables.Pid>)
    requires registry.Valid() && warned.Valid() && registry.slots.Length == Registry.PROT_MAX == warned.slots.Length
    modifies warned.slots
    ensures registry.Valid() && warned.Valid() && registry.Abstract() == old(registry.Abstract())
    ensures var looks := LooksOf(old(Registry.Items(registry.slots[..])), isSet);
            var kept := PidTables.Restrict(old(warned.Abstract()), PidTables.LookPids(looks));
            warned.Abstract() == PidTables.Warned(kept, looks) && warnings == PidTables.Warnings(kept, looks)
    ensures forall t :: t in registry.Abstract() && isSet(registry.Abstract()[t].pid) ==>
              var pid := PidTables.Pid(registry.Abstract()[t].pid);
              pid in warned.Abstract()
              && PidTables.Count(warnings, pid) == if pid in old(warned.Abstract()) then 0 else 1
  {
    hide Registry.Items, PidTables.Warned, PidTables.Warnings, PidTables.Restrict, PidTables.Count,
         Slots.Entries, Slots.Distinct;
    var items := registry.ListProtected(Registry.PROT_MAX, multiset{});
    AllListed(registry);
    var looks := seq(|items|, i requires 0 <= i < |items| =>
                     PidTables.Look(PidTables.Pid(items[i].pid), isSet(items[i].pid)));
    assert items == Registry.Items(registry.slots[..]);
    assert looks == LooksOf(items, isSet);
    ghost var before := warned.Abstract();
    warnings := PidTables.CheckLdPreloadPeriodic(warned, looks);
    forall t | t in registry.Abstract() && isSet(registry.Abstract()[t].pid)
      ensures var pid := PidTables.Pid(registry.Abstract()[t].pid);
              pid in warned.Abstract() && PidTables.Count(warnings, pid) == if pid in before then 0 else 1
    {
      ListedIsLookedAt(registry.slots[..], isSet, t, before);
    }
  }

  lemma ListedIsLookedAt(s: seq<Registry.Entry>, isSet: int -> bool, t: Registry.Task, before: map<PidTables.Pid, nat>)
    requires Slots.Distinct(s) && t in Slots.Entries(s) && isSet(Slots.Entries(s)[t].pid)
    ensures var pid, looks := PidTables.Pid(Slots.Entries(s)[t].pid), LooksOf(Registry.Items(s), isSet);
            var kept := PidTables.Restrict(before, PidTables.LookPids(looks));
            && pid in PidTables.Warned(kept, looks)
            && PidTables.Count(PidTables.Warnings(kept, looks), pid) == if pid in before then 0 else 1
  {
    hide Registry.Items, PidTables.Warned, PidTables.Warnings, PidTables.Count, Slots.Entries, Slots.Distinct;
    var info := Slots.Entries(s)[t];
    var items := Registry.Items(s);
    Registry.ItemsAreEntries(s, info);
    var looks, pid := LooksOf(items, isSet), PidTables.Pid(info.pid);
    var i :| 0 <= i < |items| && items[i] == info;
    assert looks[i] == PidTables.Look(pid, true) && PidTables.LookPids(looks)[i] == pid;
    PidTables.WarningsInCycle(PidTables.Restrict(before, PidTables.LookPids(looks)), looks, pid);
  }

  lemma AllListed(registry: Registry.Table)
    requires registry.Valid() && registry.slots.Length == Registry.PROT_MAX
    ensures |Registry.Items(registry.slots[..])| == registry.count <= Registry.PROT_MAX
  {
    Registry.ItemsSize(registry.slots[..]);
    Slots.Size(registry.slots[..]);
  }
}
