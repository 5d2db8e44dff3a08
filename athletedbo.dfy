/** org.gcsl.db.AthleteDbo: the Athletes table, looked up by its four key columns or by id, and appended to. */
module AthleteDbo {
  import opened Base
  import opened Athletes
  import S = Store

  /** The value identity of a row: what Athlete.equals compares. */
  function KeyOf(row: S.AthleteRow): Athlete {
    Athlete(row.name, row.dob, row.gender, row.teamId)
  }

  /** The index of the first row whose name, dob, gender and team_id are the athlete's. */
  function KeyIndex(rows: seq<S.AthleteRow>, a: Athlete): (r: Option<nat>)
    ensures r.Some? ==> r.value < |rows| && KeyOf(rows[r.value]) == a
    ensures forall k :: 0 <= k < |rows| && (r.None? || k < r.value) ==> KeyOf(rows[k]) != a
  {
    if rows == [] then None
    else if KeyOf(rows[0]) == a then Some(0)
    else
      match KeyIndex(rows[1..], a)
      case None => None
      case Some(i) => Some(i + 1)
  }

  /** find(athlete): the database id of the first row matching on all four columns, or null. The athlete found is
      the same value as the one looked for, now carrying that id. */
  function Find(t: S.Tables, a: Athlete): (r: Option<int>)
    ensures r.None? <==> forall k :: 0 <= k < |t.athletes| ==> KeyOf(t.athletes[k]) != a
    ensures r.Some? ==> KeyIndex(t.athletes, a).Some? && r.value == t.athletes[KeyIndex(t.athletes, a).value].id
  {
    match KeyIndex(t.athletes, a)
    case None => None
    case Some(k) => Some(t.athletes[k].id)
  }

  /** The index of the first row with the given id. */
  function IdIndex(rows: seq<S.AthleteRow>, id: int): (r: Option<nat>)
    ensures r.Some? ==> r.value < |rows| && rows[r.value].id == id
    ensures forall k :: 0 <= k < |rows| && (r.None? || k < r.value) ==> rows[k].id != id
  {
    if rows == [] then None
    else if rows[0].id == id then Some(0)
    else
      match IdIndex(rows[1..], id)
      case None => None
      case Some(i) => Some(i + 1)
  }

  /** find(id): the athlete of the row with that id, team_id included, with the id; or null. */
  function FindById(t: S.Tables, id: int): (r: Option<(Athlete, int)>)
    ensures r.None? <==> forall k :: 0 <= k < |t.athletes| ==> t.athletes[k].id != id
    ensures r.Some? ==> r.value.1 == id && exists k :: 0 <= k < |t.athletes| && t.athletes[k].id == id && KeyOf(t.athletes[k]) == r.value.0
  {
    match IdIndex(t.athletes, id)
    case None => None
    case Some(k) => Some((KeyOf(t.athletes[k]), id))
  }

  /** In well-formed tables an id names one row: looking up by id what was found by key gives the athlete back. */
  lemma FindByIdOfFound(t: S.Tables, a: Athlete)
    requires S.WellFormed(t) && Find(t, a).Some?
    ensures FindById(t, Find(t, a).value) == Some((a, Find(t, a).value))
  {
    var k := KeyIndex(t.athletes, a).value;
    var id := t.athletes[k].id;
    assert S.AthleteIds(t)[k] == id;
    var j := IdIndex(t.athletes, id).value;
    assert S.AthleteIds(t)[j] == id;
    assert j == k;
  }

  /** The table after insert(athlete): one row appended, its columns taken from the athlete, its id the next one. */
  function WithAthlete(t: S.Tables, a: Athlete): (r: S.Tables)
    ensures S.WellFormed(t) ==> S.WellFormed(r)
    ensures |r.athletes| == |t.athletes| + 1 && r.athletes[..|t.athletes|] == t.athletes
    ensures KeyOf(r.athletes[|t.athletes|]) == a && r.athletes[|t.athletes|].id == t.nextId
    ensures r.teams == t.teams && r.meets == t.meets && r.credits == t.credits && r.orphans == t.orphans
    ensures r.removedAthletes == t.removedAthletes && r.removedOrphansOf == t.removedOrphansOf
  {
    var r := t.(athletes := t.athletes + [S.AthleteRow(t.nextId, a.name, a.dob, a.gender, a.teamId)], nextId := t.nextId + 1);
    assert S.AthleteIds(r) == S.AthleteIds(t) + [t.nextId];
    assert S.TeamIds(r) == S.TeamIds(t) && S.MeetIds(r) == S.MeetIds(t);
    r
  }

  lemma {:induction false} KeyIndexOfSnoc(rows: seq<S.AthleteRow>, row: S.AthleteRow, a: Athlete)
    ensures KeyIndex(rows + [row], a) == if KeyIndex(rows, a).Some? then KeyIndex(rows, a) else if KeyOf(row) == a then Some(|rows|) else None
  {
    if rows != [] {
      assert (rows + [row])[1..] == rows[1..] + [row];
      KeyIndexOfSnoc(rows[1..], row, a);
    }
  }

  /** insert makes no duplicate check: an athlete already present is still found at its first row, and one that was
      absent is found at the row just added. */
  lemma FindAfterInsert(t: S.Tables, a: Athlete, b: Athlete)
    ensures Find(WithAthlete(t, a), b) == if Find(t, b).Some? then Find(t, b) else if a == b then Some(t.nextId) else None
  {
    var r := WithAthlete(t, a);
    assert r.athletes == t.athletes + [r.athletes[|t.athletes|]];
    KeyIndexOfSnoc(t.athletes, r.athletes[|t.athletes|], b);
  }

  /** insert: executeUpdate of one INSERT INTO Athletes. */
  method Insert(db: S.Database, a: Athlete)
    requires db.Consistent()
    modifies db
    ensures db.tables == WithAthlete(old(db.tables), a)
    ensures db.autoCommit == old(db.autoCommit) && db.Consistent() && (!db.autoCommit ==> db.committed == old(db.committed))
  {
    db.Write(WithAthlete(db.tables, a));
  }

  /** AthleteDbo.remove is not part of this model; the tables keep the athletes it was called for, in order. */
  function WithoutAthlete(t: S.Tables, a: Athlete): (r: S.Tables)
    ensures r.removedAthletes == t.removedAthletes + [a]
    ensures r.(removedAthletes := t.removedAthletes) == t
  {
    t.(removedAthletes := t.removedAthletes + [a])
  }

  method Remove(db: S.Database, a: Athlete)
    requires db.Consistent()
    modifies db
    ensures db.tables == WithoutAthlete(old(db.tables), a)
    ensures db.autoCommit == old(db.autoCommit) && db.Consistent() && (!db.autoCommit ==> db.committed == old(db.committed))
  {
    db.Write(WithoutAthlete(db.tables, a));
  }
}
