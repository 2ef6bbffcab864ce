/** The two tables of server/ac_server.py and the statements run on them. */
module Database {
  import opened Common

  datatype Report = Report(clientId: string, eventType: string, detail: string, clientTs: Option<real>,
                           receivedAt: int, source: string)

  datatype Ban = Ban(reason: string, bannedAt: int)

  datatype BanRow = BanRow(clientId: string, ban: Ban)

  /** What the tables stand for: the reports in the order they came in, and the ban of each banned id. */
  datatype Store = Store(reports: seq<Report>, bans: map<string, Ban>)

  // ---- the reports table ----

  /** The rows with an id from 1 to n, by id. Ids may be missing. */
  ghost function ById(rows: map<nat, Report>, n: nat): seq<Report> {
    if n == 0 then [] else ById(rows, n - 1) + if n in rows then [rows[n]] else []
  }

  lemma {:induction false} ByIdIgnoresLater(rows: map<nat, Report>, n: nat, id: nat, r: Report)
    requires id > n
    ensures ById(rows[id := r], n) == ById(rows, n)
  {
    if n > 0 {
      ByIdIgnoresLater(rows, n - 1, id, r);
    }
  }

  /** A client's reports, newest first. */
  function ReportsOf(reports: seq<Report>, id: string): seq<Report> {
    if reports == [] then [] else
      (if reports[|reports| - 1].clientId == id then [reports[|reports| - 1]] else [])
      + ReportsOf(reports[..|reports| - 1], id)
  }

  lemma OneRowLess(rows: map<nat, Report>, n: nat, id: string)
    requires n > 0
    ensures ReportsOf(ById(rows, n), id)
         == (if n in rows && rows[n].clientId == id then [rows[n]] else []) + ReportsOf(ById(rows, n - 1), id)
  {
    var all, before := ById(rows, n), ById(rows, n - 1);
    if n in rows {
      assert all[..|all| - 1] == before;
    } else {
      assert all == before;
    }
  }

  lemma NoRows(rows: map<nat, Report>, id: string)
    ensures ReportsOf(ById(rows, 0), id) == []
  {
  }

  const LIST_LIMIT: nat := 200

  function Latest(reports: seq<Report>, id: string, limit: nat): seq<Report> {
    Take(ReportsOf(reports, id), limit)
  }

  ghost function Mine(reports: seq<Report>, id: string): seq<Report> {
    if reports == [] then [] else
      (if reports[0].clientId == id then [reports[0]] else []) + Mine(reports[1..], id)
  }

  ghost function Reversed(s: seq<Report>): seq<Report> {
    if s == [] then [] else Reversed(s[1..]) + [s[0]]
  }

  /** ReportsOf is the client's reports in the order they came in, reversed. */
  lemma {:induction false} NewestFirst(reports: seq<Report>, id: string)
    ensures ReportsOf(reports, id) == Reversed(Mine(reports, id))
  {
    if reports != [] {
      NewestFirst(reports[1..], id);
      OldestLast(reports, id);
      var mine := Mine(reports, id);
      if reports[0].clientId == id {
        assert mine[1..] == Mine(reports[1..], id);
      } else {
        assert mine == Mine(reports[1..], id);
      }
    }
  }

  lemma {:induction false} OldestLast(reports: seq<Report>, id: string)
    requires reports != []
    ensures ReportsOf(reports, id)
         == ReportsOf(reports[1..], id) + if reports[0].clientId == id then [reports[0]] else []
  {
    var n := |reports| - 1;
    if n > 0 {
      OldestLast(reports[..n], id);
      assert reports[..n][1..] == reports[1..][..n - 1];
      assert reports[1..][n - 1] == reports[n];
    }
  }

  // ---- the bans table ----

  ghost predicate Unique(rows: seq<BanRow>) {
    forall i, j :: 0 <= i < j < |rows| ==> rows[i].clientId != rows[j].clientId
  }

  ghost function BanMap(rows: seq<BanRow>): map<string, Ban> {
    if rows == [] then map[] else BanMap(rows[..|rows| - 1])[rows[|rows| - 1].clientId := rows[|rows| - 1].ban]
  }

  function BanOf(bans: map<string, Ban>, id: string): Option<Ban> {
    if id in bans then Some(bans[id]) else None
  }

  lemma {:induction false} BanMapHas(rows: seq<BanRow>, i: nat)
    requires Unique(rows) && i < |rows|
    ensures BanOf(BanMap(rows), rows[i].clientId) == Some(rows[i].ban)
  {
    if i < |rows| - 1 {
      BanMapHas(rows[..|rows| - 1], i);
    }
  }

  lemma {:induction false} BanMapLacks(rows: seq<BanRow>, id: string)
    requires forall i :: 0 <= i < |rows| ==> rows[i].clientId != id
    ensures id !in BanMap(rows)
  {
    if rows != [] {
      BanMapLacks(rows[..|rows| - 1], id);
    }
  }

  lemma {:induction false} BanMapUpdates(rows: seq<BanRow>, i: nat, ban: Ban)
    requires Unique(rows) && i < |rows|
    ensures BanMap(rows[i := BanRow(rows[i].clientId, ban)]) == BanMap(rows)[rows[i].clientId := ban]
  {
    var n, row := |rows| - 1, BanRow(rows[i].clientId, ban);
    assert rows[i := row][..n] == if i < n then rows[..n][i := row] else rows[..n];
    if i < n {
      BanMapUpdates(rows[..n], i, ban);
      assert rows[i].clientId != rows[n].clientId;
    }
  }

  lemma {:induction false} BanMapConcat(a: seq<BanRow>, b: seq<BanRow>)
    ensures BanMap(a + b) == BanMap(a) + BanMap(b)
  {
    if b == [] {
      assert a + b == a;
    } else {
      assert (a + b)[..|a + b| - 1] == a + b[..|b| - 1];
      BanMapConcat(a, b[..|b| - 1]);
    }
  }

  lemma BanMapDeletes(rows: seq<BanRow>, i: nat)
    requires Unique(rows) && i < |rows|
    ensures BanMap(rows[..i] + rows[i + 1..]) == BanMap(rows) - {rows[i].clientId}
  {
    hide BanMap;
    var pre, row, post := rows[..i], rows[i], rows[i + 1..];
    assert rows == pre + ([row] + post);
    BanMapConcat(pre, post);
    BanMapConcat(pre, [row] + post);
    BanMapConcat([row], post);
    BanMapOfOne(row);
    BanMapLacks(pre, row.clientId);
    BanMapLacks(post, row.clientId);
    OneKeyOut(BanMap(pre), row.clientId, row.ban, BanMap(post));
  }

  lemma BanMapOfOne(row: BanRow)
    ensures BanMap([row]) == map[row.clientId := row.ban]
  {
  }

  lemma OneKeyOut<K, V>(a: map<K, V>, k: K, v: V, b: map<K, V>)
    requires k !in a && k !in b
    ensures a + (map[k := v] + b) - {k} == a + b
  {
  }

  class Tables {
    var reports: map<nat, Report>
    var lastId: nat
    var bans: seq<BanRow>

    ghost predicate Valid()
      reads this
    {
      Unique(bans)
    }

    ghost function Abstract(): Store
      reads this
    {
      Store(ById(reports, lastId), BanMap(bans))
    }

    constructor ()
      ensures Valid() && Abstract() == Store([], map[])
    {
      reports, lastId, bans := map[], 0, [];
    }

    /** INSERT INTO reports, with the next id. */
    method AddReport(r: Report)
      requires Valid()
      modifies this
      ensures Valid() && Abstract() == Store(old(Abstract()).reports + [r], old(Abstract()).bans)
    {
      ByIdIgnoresLater(reports, lastId, lastId + 1, r);
      lastId := lastId + 1;
      reports := reports[lastId := r];
    }

    /** SELECT FROM reports WHERE client_id = id ORDER BY id DESC LIMIT limit. */
    method ListReports(id: string, limit: nat) returns (r: seq<Report>)
      requires Valid()
      ensures r == Latest(Abstract().reports, id, limit)
    {
      hide ById, ReportsOf;
      r := [];
      var n := lastId;
      while n > 0 && |r| < limit
        invariant |r| <= limit
        invariant ReportsOf(ById(reports, lastId), id) == r + ReportsOf(ById(reports, n), id)
      {
        OneRowLess(reports, n, id);
        if n in reports && reports[n].clientId == id {
          r := r + [reports[n]];
        }
        n := n - 1;
      }
      NoRows(reports, id);
    }

    /** The position of the row with this primary key. */
    method FindBan(id: string) returns (i: nat)
      ensures i <= |bans| && (i < |bans| ==> bans[i].clientId == id)
      ensures forall j :: 0 <= j < i ==> bans[j].clientId != id
    {
      i := 0;
      while i < |bans| && bans[i].clientId != id
        invariant i <= |bans| && forall j :: 0 <= j < i ==> bans[j].clientId != id
      {
        i := i + 1;
      }
    }

    /** INSERT INTO bans ON CONFLICT(client_id) DO UPDATE. */
    method BanClient(id: string, ban: Ban)
      requires Valid()
      modifies this
      ensures Valid() && Abstract() == Store(old(Abstract()).reports, old(Abstract()).bans[id := ban])
    {
      var i := FindBan(id);
      if i < |bans| {
        BanMapUpdates(bans, i, ban);
        bans := bans[i := BanRow(id, ban)];
      } else {
        ghost var before := bans;
        bans := bans + [BanRow(id, ban)];
        assert bans[..|bans| - 1] == before;
      }
    }

    /** DELETE FROM bans WHERE client_id = id, and whether a row went. */
    method Unban(id: string) returns (existed: bool)
      requires Valid()
      modifies this
      ensures Valid() && Abstract() == Store(old(Abstract()).reports, old(Abstract()).bans - {id})
      ensures existed <==> id in old(Abstract()).bans
    {
      var i := FindBan(id);
      existed := i < |bans|;
      if existed {
        BanMapHas(bans, i);
        BanMapDeletes(bans, i);
        bans := bans[..i] + bans[i + 1..];
      } else {
        BanMapLacks(bans, id);
      }
    }

    /** SELECT FROM bans WHERE client_id = id. */
    method BanStatus(id: string) returns (r: Option<Ban>)
      requires Valid()
      ensures r == BanOf(Abstract().bans, id)
    {
      var i := FindBan(id);
      if i < |bans| {
        BanMapHas(bans, i);
        return Some(bans[i].ban);
      }
      BanMapLacks(bans, id);
      return None;
    }
  }
}
