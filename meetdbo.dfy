/** org.gcsl.db.MeetDbo: the Meets table, the Athlete_Meet credits of a meet, and the writes that store one meet's
    results. The meet comes as a MeetResults object, which MeetDbo only reads. */
module MeetDbo {
  import opened Base
  import opened Utils
  import opened Athletes
  import T = Teams
  import MI = MeetInfos
  import Scn = ArchiveItems
  import M = MeetResultsModel
  import S = Store
  import TD = TeamDbo
  import OD = OrphanDbo

  /** What MeetDbo reads of a team: its key and its athletes with their ids. */
  datatype TeamData = TeamData(key: T.TeamKey, athletes: map<Athlete, int>)

  /** What MeetDbo reads of a MeetResults. */
  datatype MeetData = MeetData(date: MI.Date, fileDate: Option<string>, scenario: Scn.Scenario, orphans: seq<Athlete>, teams: seq<TeamData>)

  function TeamDataOf(t: T.Team): TeamData
    reads t
  {
    TeamData(t.Key(), t.athletes)
  }

  function DataOf(m: M.MeetResults): (d: MeetData)
    reads m, m.teams
    ensures |d.teams| == |m.teams| && forall k :: 0 <= k < |m.teams| ==> d.teams[k] == TeamDataOf(m.teams[k])
  {
    MeetData(m.info.date, m.resultsFileDate, m.scenario, m.orphans,
             seq(|m.teams|, k reads m, m.teams requires 0 <= k < |m.teams| => TeamDataOf(m.teams[k])))
  }

  // ----- Finding a meet

  predicate Matches(row: S.MeetRow, id1: int, id2: int, meetDate: string) {
    row.team1Id == id1 && row.team2Id == id2 && row.meetDate == meetDate
  }

  /** The index of the first row for the ordered pair of teams on the date. */
  function MatchIndex(rows: seq<S.MeetRow>, id1: int, id2: int, meetDate: string): (r: Option<nat>)
    ensures r.Some? ==> r.value < |rows| && Matches(rows[r.value], id1, id2, meetDate)
    ensures forall k :: 0 <= k < |rows| && (r.None? || k < r.value) ==> !Matches(rows[k], id1, id2, meetDate)
  {
    if rows == [] then None
    else if Matches(rows[0], id1, id2, meetDate) then Some(0)
    else
      match MatchIndex(rows[1..], id1, id2, meetDate)
      case None => None
      case Some(i) => Some(i + 1)
  }

  lemma {:induction false} MatchIndexOfSnoc(rows: seq<S.MeetRow>, row: S.MeetRow, id1: int, id2: int, meetDate: string)
    ensures MatchIndex(rows + [row], id1, id2, meetDate)
            == if MatchIndex(rows, id1, id2, meetDate).Some? then MatchIndex(rows, id1, id2, meetDate)
               else if Matches(row, id1, id2, meetDate) then Some(|rows|) else None
  {
    if rows != [] {
      assert (rows + [row])[1..] == rows[1..] + [row];
      MatchIndexOfSnoc(rows[1..], row, id1, id2, meetDate);
    }
  }

  /** findMeetByTeamIds: the first meet whose team1_id and team2_id are the ids, in that order, and whose meet_date is
      the date written yyyy-MM-dd. */
  function FindMeetByTeamIds(t: S.Tables, id1: int, id2: int, date: MI.Date): (r: Option<S.MeetRow>)
    requires MI.ValidDate(date)
    ensures r.None? <==> forall k :: 0 <= k < |t.meets| ==> !Matches(t.meets[k], id1, id2, MI.FormatIso(date))
    ensures r.Some? ==> r.value in t.meets && Matches(r.value, id1, id2, MI.FormatIso(date))
  {
    match MatchIndex(t.meets, id1, id2, MI.FormatIso(date))
    case None => None
    case Some(k) => Some(t.meets[k])
  }

  /** findMeetByTeamCodes: both codes resolved to team ids first; a code with no team means no meet. */
  function FindMeetByTeamCodes(t: S.Tables, code1: string, code2: string, date: MI.Date): (r: Option<S.MeetRow>)
    requires MI.ValidDate(date)
    ensures TD.FindByCode(t, code1).None? || TD.FindByCode(t, code2).None? ==> r.None?
    ensures TD.FindByCode(t, code1).Some? && TD.FindByCode(t, code2).Some? ==>
              r == FindMeetByTeamIds(t, TD.FindByCode(t, code1).value.id, TD.FindByCode(t, code2).value.id, date)
  {
    var team1 := TD.FindByCode(t, code1);
    var team2 := TD.FindByCode(t, code2);
    if team1.Some? && team2.Some? then FindMeetByTeamIds(t, team1.value.id, team2.value.id, date) else None
  }

  /** findByTeams: the meet of the first two teams on the meet's date; by their ids when both have one, by their codes
      otherwise; no meet at all for fewer than two teams. */
  function FindByTeams(t: S.Tables, teams: seq<T.TeamKey>, date: MI.Date): (r: Option<S.MeetRow>)
    requires MI.ValidDate(date)
    ensures |teams| < 2 ==> r.None?
    ensures r.Some? ==> r.value in t.meets && r.value.meetDate == MI.FormatIso(date)
    ensures |teams| >= 2 && teams[0].id != INVALID_ID && teams[1].id != INVALID_ID ==>
              r == FindMeetByTeamIds(t, teams[0].id, teams[1].id, date)
    ensures |teams| >= 2 && (teams[0].id == INVALID_ID || teams[1].id == INVALID_ID) ==>
              r == FindMeetByTeamCodes(t, teams[0].code, teams[1].code, date)
  {
    if |teams| < 2 then None
    else if teams[0].id != INVALID_ID && teams[1].id != INVALID_ID then FindMeetByTeamIds(t, teams[0].id, teams[1].id, date)
    else FindMeetByTeamCodes(t, teams[0].code, teams[1].code, date)
  }

  /** The index of the first row with the id. */
  function IdIndex(rows: seq<S.MeetRow>, id: int): (r: Option<nat>)
    ensures r.Some? ==> r.value < |rows| && rows[r.value].id == id
    ensures forall k :: 0 <= k < |rows| && (r.None? || k < r.value) ==> rows[k].id != id
  {
    if rows == [] then None
    else if rows[0].id == id then Some(0)
    else
      match IdIndex(rows[1..], id)
      case None => None
      case Some(i) => Some(i + 1)
  }

  /** findById: the meet with that id, or null; INVALID_ID is not looked up. */
  function FindById(t: S.Tables, meetId: int): (r: Option<S.MeetRow>)
    ensures meetId == INVALID_ID ==> r.None?
    ensures meetId != INVALID_ID ==> (r.None? <==> forall k :: 0 <= k < |t.meets| ==> t.meets[k].id != meetId)
    ensures r.Some? ==> r.value in t.meets && r.value.id == meetId
  {
    if meetId == INVALID_ID then None
    else
      match IdIndex(t.meets, meetId)
      case None => None
      case Some(k) => Some(t.meets[k])
  }

  // ----- Writing a meet

  /** The table after the INSERT INTO Meets of insertMeet: one row with the next id. */
  function WithMeet(t: S.Tables, meetDate: string, fileDate: Option<string>, id1: int, id2: int, resultType: string): (r: S.Tables)
    ensures S.WellFormed(t) ==> S.WellFormed(r)
    ensures r.meets == t.meets + [S.MeetRow(t.nextId, meetDate, fileDate, id1, id2, resultType)] && r.nextId == t.nextId + 1
    ensures r.(meets := t.meets, nextId := t.nextId) == t
  {
    var r := t.(meets := t.meets + [S.MeetRow(t.nextId, meetDate, fileDate, id1, id2, resultType)], nextId := t.nextId + 1);
    assert S.MeetIds(r) == S.MeetIds(t) + [t.nextId];
    assert S.TeamIds(r) == S.TeamIds(t) && S.AthleteIds(r) == S.AthleteIds(t);
    r
  }

  /** The id insertMeet reads back: the row just written always matches, so the lookup finds a meet, though an older
      meet of the same teams on the same date comes first. Only when there is none is it the new row. */
  lemma InsertMeetFinds(t: S.Tables, date: MI.Date, fileDate: Option<string>, id1: int, id2: int, resultType: string)
    requires MI.ValidDate(date)
    ensures var r := FindMeetByTeamIds(WithMeet(t, MI.FormatIso(date), fileDate, id1, id2, resultType), id1, id2, date);
            && r.Some?
            && (FindMeetByTeamIds(t, id1, id2, date).Some? ==> r == FindMeetByTeamIds(t, id1, id2, date))
            && (FindMeetByTeamIds(t, id1, id2, date).None? ==> r.value.id == t.nextId)
  {
    MatchIndexOfSnoc(t.meets, S.MeetRow(t.nextId, MI.FormatIso(date), fileDate, id1, id2, resultType), id1, id2, MI.FormatIso(date));
  }

  /** insertMeet: the meet row (its date yyyy-MM-dd, the file date, the ids of the first two teams, the scenario's
      name), then the id of the meet found for those teams and that date. With fewer than two teams getTeams().get
      throws before anything is written. */
  method InsertMeet(db: S.Database, m: M.MeetResults) returns (r: Result<int>)
    requires db.Consistent() && MI.ValidDate(m.info.date)
    modifies db
    ensures |m.teams| < 2 ==> r == Err(IndexOutOfBounds) && db.tables == old(db.tables)
    ensures |m.teams| >= 2 ==>
              var id1 := m.teams[0].id;
              var id2 := m.teams[1].id;
              && db.tables == WithMeet(old(db.tables), MI.FormatIso(m.info.date), m.resultsFileDate, id1, id2, Scn.ScenarioName(m.scenario))
              && FindMeetByTeamIds(db.tables, id1, id2, m.info.date).Some?
              && r == Ok(FindMeetByTeamIds(db.tables, id1, id2, m.info.date).value.id)
    ensures db.autoCommit == old(db.autoCommit) && db.Consistent() && (!db.autoCommit ==> db.committed == old(db.committed))
  {
    if |m.teams| < 2 {
      return Err(IndexOutOfBounds);
    }
    var id1 := m.teams[0].id;
    var id2 := m.teams[1].id;
    InsertMeetFinds(db.tables, m.info.date, m.resultsFileDate, id1, id2, Scn.ScenarioName(m.scenario));
    db.Write(WithMeet(db.tables, MI.FormatIso(m.info.date), m.resultsFileDate, id1, id2, Scn.ScenarioName(m.scenario)));
    var dbMeet := FindMeetByTeamIds(db.tables, id1, id2, m.info.date);
    r := Ok(dbMeet.value.id);
  }

  /** The tables with rows added to Athlete_Meet, and nothing else changed. */
  function WithCredits(t: S.Tables, rows: seq<S.CreditRow>): S.Tables {
    t.(credits := t.credits + rows)
  }

  lemma WithCreditsAppend(t: S.Tables, xs: seq<S.CreditRow>, ys: seq<S.CreditRow>)
    ensures WithCredits(WithCredits(t, xs), ys) == WithCredits(t, xs + ys)
  {
    assert t.credits + xs + ys == t.credits + (xs + ys);
  }

  /** The Athlete_Meet rows insertAthleteMeet writes for the athletes in the order the set is iterated in. */
  function CreditRows(order: seq<(Athlete, int)>, meetId: int): (r: seq<S.CreditRow>)
    ensures |r| == |order| && forall k :: 0 <= k < |r| ==> r[k] == S.CreditRow(order[k].1, meetId)
  {
    if order == [] then [] else [S.CreditRow(order[0].1, meetId)] + CreditRows(order[1..], meetId)
  }

  /** Whatever order the set is iterated in, every athlete of it gets exactly one credit for the meet, under its id,
      and nothing else is credited. */
  lemma CreditsCoverAthletes(order: seq<(Athlete, int)>, athletes: map<Athlete, int>, meetId: int)
    requires S.Enumerates(order, athletes.Items)
    ensures |CreditRows(order, meetId)| == |athletes|
    ensures forall c :: c in CreditRows(order, meetId) <==> c.meetId == meetId && exists a :: a in athletes && athletes[a] == c.athleteId
  {
    var rows := CreditRows(order, meetId);
    S.EnumerationSize(order, athletes.Items);
    assert |athletes.Items| == |athletes| by {
      MapItemsSize(athletes);
    }
    forall c: S.CreditRow | c.meetId == meetId && exists a :: a in athletes && athletes[a] == c.athleteId
      ensures c in rows
    {
      var a :| a in athletes && athletes[a] == c.athleteId;
      assert (a, athletes[a]) in athletes.Items;
      var k :| 0 <= k < |order| && order[k] == (a, athletes[a]);
      assert rows[k] == c;
    }
    forall c | c in rows
      ensures c.meetId == meetId && exists a :: a in athletes && athletes[a] == c.athleteId
    {
      var k :| 0 <= k < |rows| && rows[k] == c;
      assert order[k] in athletes.Items;
    }
  }

  lemma MapItemsSize<K, V>(m: map<K, V>)
    ensures |m.Items| == |m|
  {
    var f := (p: (K, V)) => p.0;
    forall k | k in m.Keys
      ensures k in set p | p in m.Items :: f(p)
    {
      assert (k, m[k]) in m.Items && f((k, m[k])) == k;
    }
    assert m.Keys == set p | p in m.Items :: f(p);
    InjectiveImageSize(m.Items, f);
  }

  lemma {:induction false} InjectiveImageSize<X, Y>(s: set<X>, f: X -> Y)
    requires forall x, y :: x in s && y in s && f(x) == f(y) ==> x == y
    ensures |set x | x in s :: f(x)| == |s|
    decreases |s|
  {
    if s != {} {
      var x :| x in s;
      var rest := s - {x};
      InjectiveImageSize(rest, f);
      assert (set y | y in s :: f(y)) == (set y | y in rest :: f(y)) + {f(x)};
    }
  }

  /** insertAthleteMeet: one INSERT INTO Athlete_Meet per athlete of the set, in the set's iteration order, which is
      returned. */
  method InsertAthleteMeet(db: S.Database, athletes: map<Athlete, int>, meetId: int) returns (ghost order: seq<(Athlete, int)>)
    requires db.Consistent()
    modifies db
    ensures S.Enumerates(order, athletes.Items)
    ensures db.tables == WithCredits(old(db.tables), CreditRows(order, meetId))
    ensures db.autoCommit == old(db.autoCommit) && db.Consistent() && (!db.autoCommit ==> db.committed == old(db.committed))
  {
    ghost var t0 := db.tables;
    var rest := athletes.Items;
    order := [];
    while rest != {}
      invariant rest <= athletes.Items
      invariant forall k :: 0 <= k < |order| ==> order[k] in athletes.Items && order[k] !in rest
      invariant forall p :: p in athletes.Items ==> p in rest || p in order
      invariant forall j, k :: 0 <= j < k < |order| ==> order[j] != order[k]
      invariant db.tables == WithCredits(t0, CreditRows(order, meetId))
      invariant db.autoCommit == old(db.autoCommit) && db.Consistent() && (!db.autoCommit ==> db.committed == old(db.committed))
      decreases |rest|
    {
      var p :| p in rest;
      CreditRowsSnoc(order, p, meetId);
      WithCreditsAppend(t0, CreditRows(order, meetId), [S.CreditRow(p.1, meetId)]);
      db.Write(WithCredits(db.tables, [S.CreditRow(p.1, meetId)]));
      order := order + [p];
      rest := rest - {p};
    }
  }

  lemma CreditRowsSnoc(order: seq<(Athlete, int)>, p: (Athlete, int), meetId: int)
    ensures CreditRows(order + [p], meetId) == CreditRows(order, meetId) + [S.CreditRow(p.1, meetId)]
  {
  }

  /** The credits of all the teams, team by team, each in its own iteration order. */
  function AllCreditRows(orders: seq<seq<(Athlete, int)>>, meetId: int): seq<S.CreditRow> {
    if orders == [] then [] else AllCreditRows(orders[..|orders| - 1], meetId) + CreditRows(orders[|orders| - 1], meetId)
  }

  lemma AllCreditRowsSnoc(orders: seq<seq<(Athlete, int)>>, order: seq<(Athlete, int)>, meetId: int)
    ensures AllCreditRows(orders + [order], meetId) == AllCreditRows(orders, meetId) + CreditRows(order, meetId)
  {
    assert (orders + [order])[..|orders|] == orders;
  }

  /** Each order lists the athletes of the team at the same position. */
  predicate EnumeratesTeams(orders: seq<seq<(Athlete, int)>>, m: M.MeetResults)
    reads m, m.teams
  {
    |orders| == |m.teams| && forall k :: 0 <= k < |m.teams| ==> S.Enumerates(orders[k], m.teams[k].athletes.Items)
  }

  /** creditAthletesForMeet: every athlete of every team credited with the meet; nothing for INVALID_ID. */
  method CreditAthletesForMeet(db: S.Database, m: M.MeetResults, meetId: int) returns (ghost orders: seq<seq<(Athlete, int)>>)
    requires db.Consistent()
    modifies db
    ensures meetId == INVALID_ID ==> db.tables == old(db.tables) && orders == []
    ensures meetId != INVALID_ID ==> EnumeratesTeams(orders, m)
    ensures db.tables == WithCredits(old(db.tables), AllCreditRows(orders, meetId))
    ensures db.autoCommit == old(db.autoCommit) && db.Consistent() && (!db.autoCommit ==> db.committed == old(db.committed))
  {
    orders := [];
    if meetId == INVALID_ID {
      return;
    }
    ghost var t0 := db.tables;
    var i := 0;
    while i < |m.teams|
      invariant 0 <= i <= |m.teams| && |orders| == i
      invariant forall k :: 0 <= k < i ==> S.Enumerates(orders[k], m.teams[k].athletes.Items)
      invariant db.tables == WithCredits(t0, AllCreditRows(orders, meetId))
      invariant db.autoCommit == old(db.autoCommit) && db.Consistent() && (!db.autoCommit ==> db.committed == old(db.committed))
    {
      var order := InsertAthleteMeet(db, m.teams[i].athletes, meetId);
      AllCreditRowsSnoc(orders, order, meetId);
      WithCreditsAppend(t0, AllCreditRows(orders, meetId), CreditRows(order, meetId));
      orders := orders + [order];
      i := i + 1;
    }
  }

  /** The Athlete_Meet table after removeResults: the credits of every other meet, in order. */
  function WithoutCredits(credits: seq<S.CreditRow>, meetId: int): (r: seq<S.CreditRow>)
    ensures forall c :: c in r <==> c in credits && c.meetId != meetId
    ensures |r| <= |credits|
  {
    if credits == [] then []
    else if credits[0].meetId == meetId then WithoutCredits(credits[1..], meetId)
    else [credits[0]] + WithoutCredits(credits[1..], meetId)
  }

  /** removeResults: the meet's credits deleted, its Meets row kept; nothing happens for INVALID_ID. */
  method RemoveResults(db: S.Database, meetId: int)
    requires db.Consistent()
    modifies db
    ensures meetId == INVALID_ID ==> db.tables == old(db.tables)
    ensures meetId != INVALID_ID ==> db.tables == old(db.tables).(credits := WithoutCredits(old(db.tables).credits, meetId))
    ensures db.autoCommit == old(db.autoCommit) && db.Consistent() && (!db.autoCommit ==> db.committed == old(db.committed))
  {
    if meetId != INVALID_ID {
      db.Write(db.tables.(credits := WithoutCredits(db.tables.credits, meetId)));
    }
  }

  /** The Meets table after UPDATE Meets SET file_date = ? WHERE id = ?: only that column of the row with the id. */
  function WithFileDate(meets: seq<S.MeetRow>, meetId: int, fileDate: Option<string>): (r: seq<S.MeetRow>)
    ensures |r| == |meets|
    ensures forall k :: 0 <= k < |meets| ==> r[k] == if meets[k].id == meetId then meets[k].(fileDate := fileDate) else meets[k]
  {
    seq(|meets|, k requires 0 <= k < |meets| => if meets[k].id == meetId then meets[k].(fileDate := fileDate) else meets[k])
  }

  /** The update changes no id, so the tables stay well formed. */
  lemma WithFileDateKeepsIds(t: S.Tables, meetId: int, fileDate: Option<string>)
    requires S.WellFormed(t)
    ensures S.WellFormed(t.(meets := WithFileDate(t.meets, meetId, fileDate)))
  {
    assert S.MeetIds(t.(meets := WithFileDate(t.meets, meetId, fileDate))) == S.MeetIds(t);
  }

  /** update: the file date of the meet with that id, then the orphans, then the credits. */
  method Update(db: S.Database, m: M.MeetResults, meetId: int) returns (ghost orders: seq<seq<(Athlete, int)>>)
    requires db.Consistent()
    modifies db
    ensures meetId != INVALID_ID ==> EnumeratesTeams(orders, m)
    ensures meetId == INVALID_ID ==> orders == []
    ensures db.tables == old(db.tables).(meets := WithFileDate(old(db.tables).meets, meetId, m.resultsFileDate),
                                         orphans := old(db.tables).orphans + OD.OrphanRows(m.orphans, meetId),
                                         credits := old(db.tables).credits + AllCreditRows(orders, meetId))
    ensures db.autoCommit == old(db.autoCommit) && db.Consistent() && (!db.autoCommit ==> db.committed == old(db.committed))
  {
    db.Write(db.tables.(meets := WithFileDate(db.tables.meets, meetId, m.resultsFileDate)));
    OD.Insert(db, m.orphans, meetId);
    orders := CreditAthletesForMeet(db, m, meetId);
  }

  /** insert: insertMeet, then the orphans and the credits under the id it reads back. */
  method Insert(db: S.Database, m: M.MeetResults) returns (r: Result<int>, ghost orders: seq<seq<(Athlete, int)>>)
    requires db.Consistent() && MI.ValidDate(m.info.date)
    modifies db
    ensures |m.teams| < 2 ==> r == Err(IndexOutOfBounds) && db.tables == old(db.tables)
    ensures |m.teams| >= 2 ==>
              var id1 := m.teams[0].id;
              var id2 := m.teams[1].id;
              var t1 := WithMeet(old(db.tables), MI.FormatIso(m.info.date), m.resultsFileDate, id1, id2, Scn.ScenarioName(m.scenario));
              && FindMeetByTeamIds(t1, id1, id2, m.info.date).Some?
              && r == Ok(FindMeetByTeamIds(t1, id1, id2, m.info.date).value.id)
              && (r.value != INVALID_ID ==> EnumeratesTeams(orders, m))
              && db.tables == t1.(orphans := t1.orphans + OD.OrphanRows(m.orphans, r.value),
                                  credits := t1.credits + AllCreditRows(orders, r.value))
    ensures db.autoCommit == old(db.autoCommit) && db.Consistent() && (!db.autoCommit ==> db.committed == old(db.committed))
  {
    orders := [];
    r := InsertMeet(db, m);
    if r.Err? {
      return;
    }
    OD.Insert(db, m.orphans, r.value);
    orders := CreditAthletesForMeet(db, m, r.value);
  }
}
