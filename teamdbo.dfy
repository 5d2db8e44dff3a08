/** org.gcsl.db.TeamDbo: the Teams table, looked up by code or by id and appended to, and the athletes of a team read
    back from the Athletes table. A team read from the database carries no athletes, so it is its key. */
module TeamDbo {
  import opened Base
  import opened Utils
  import opened Athletes
  import T = Teams
  import S = Store
  import AD = AthleteDbo

  function KeyOf(row: S.TeamRow): T.TeamKey {
    T.TeamKey(row.id, row.code, row.name)
  }

  /** The index of the first row with the code. */
  function CodeIndex(rows: seq<S.TeamRow>, code: string): (r: Option<nat>)
    ensures r.Some? ==> r.value < |rows| && rows[r.value].code == code
    ensures forall k :: 0 <= k < |rows| && (r.None? || k < r.value) ==> rows[k].code != code
  {
    if rows == [] then None
    else if rows[0].code == code then Some(0)
    else
      match CodeIndex(rows[1..], code)
      case None => None
      case Some(i) => Some(i + 1)
  }

  /** The index of the first row with the id. */
  function IdIndex(rows: seq<S.TeamRow>, id: int): (r: Option<nat>)
    ensures r.Some? ==> r.value < |rows| && rows[r.value].id == id
    ensures forall k :: 0 <= k < |rows| && (r.None? || k < r.value) ==> rows[k].id != id
  {
    if rows == [] then None
    else if rows[0].id == id then Some(0)
    else
      match IdIndex(rows[1..], id)
      case None => None
      case Some(i) => Some(i + 1)
  }

  /** findByCode: the first row with that code, or null. */
  function FindByCode(t: S.Tables, code: string): (r: Option<T.TeamKey>)
    ensures r.None? <==> forall k :: 0 <= k < |t.teams| ==> t.teams[k].code != code
    ensures r.Some? ==> r.value.code == code && exists k :: 0 <= k < |t.teams| && KeyOf(t.teams[k]) == r.value
  {
    match CodeIndex(t.teams, code)
    case None => None
    case Some(k) => Some(KeyOf(t.teams[k]))
  }

  /** findById: the row with that id, or null; INVALID_ID is not looked up at all. */
  function FindById(t: S.Tables, id: int): (r: Option<T.TeamKey>)
    ensures id == INVALID_ID ==> r.None?
    ensures id != INVALID_ID ==> (r.None? <==> forall k :: 0 <= k < |t.teams| ==> t.teams[k].id != id)
    ensures r.Some? ==> r.value.id == id && exists k :: 0 <= k < |t.teams| && KeyOf(t.teams[k]) == r.value
  {
    if id == INVALID_ID then None
    else
      match IdIndex(t.teams, id)
      case None => None
      case Some(k) => Some(KeyOf(t.teams[k]))
  }

  /** find: a team that has an id is looked up by it, one without by its code. */
  function Find(t: S.Tables, team: T.TeamKey): (r: Option<T.TeamKey>)
    ensures team.id != INVALID_ID ==> (r.None? <==> forall k :: 0 <= k < |t.teams| ==> t.teams[k].id != team.id)
    ensures team.id == INVALID_ID ==> (r.None? <==> forall k :: 0 <= k < |t.teams| ==> t.teams[k].code != team.code)
    ensures r.Some? && team.id != INVALID_ID ==> r.value.id == team.id
    ensures r.Some? && team.id == INVALID_ID ==> r.value.code == team.code
    ensures r.Some? ==> exists k :: 0 <= k < |t.teams| && KeyOf(t.teams[k]) == r.value
  {
    if team.id != INVALID_ID then FindById(t, team.id) else FindByCode(t, team.code)
  }

  /** In well-formed tables an id names one row, so a team found is found again by its id. */
  lemma FindByIdOfFound(t: S.Tables, team: T.TeamKey)
    requires S.WellFormed(t) && Find(t, team).Some?
    ensures FindById(t, Find(t, team).value.id) == Find(t, team)
  {
    var key := Find(t, team).value;
    var k :| 0 <= k < |t.teams| && KeyOf(t.teams[k]) == key;
    assert S.TeamIds(t)[k] == key.id;
    var j := IdIndex(t.teams, key.id).value;
    assert S.TeamIds(t)[j] == key.id;
    assert j == k;
  }

  /** The table after insert(team): one row (name, code) appended with the next id. */
  function WithTeam(t: S.Tables, code: string, name: string): (r: S.Tables)
    ensures S.WellFormed(t) ==> S.WellFormed(r)
    ensures r.teams == t.teams + [S.TeamRow(t.nextId, code, name)] && r.nextId == t.nextId + 1
    ensures r.(teams := t.teams, nextId := t.nextId) == t
  {
    var r := t.(teams := t.teams + [S.TeamRow(t.nextId, code, name)], nextId := t.nextId + 1);
    assert S.TeamIds(r) == S.TeamIds(t) + [t.nextId];
    assert S.AthleteIds(r) == S.AthleteIds(t) && S.MeetIds(r) == S.MeetIds(t);
    r
  }

  lemma {:induction false} CodeIndexOfSnoc(rows: seq<S.TeamRow>, row: S.TeamRow, code: string)
    ensures CodeIndex(rows + [row], code) == if CodeIndex(rows, code).Some? then CodeIndex(rows, code) else if row.code == code then Some(|rows|) else None
  {
    if rows != [] {
      assert (rows + [row])[1..] == rows[1..] + [row];
      CodeIndexOfSnoc(rows[1..], row, code);
    }
  }

  lemma {:induction false} IdIndexOfSnoc(rows: seq<S.TeamRow>, row: S.TeamRow, id: int)
    ensures IdIndex(rows + [row], id) == if IdIndex(rows, id).Some? then IdIndex(rows, id) else if row.id == id then Some(|rows|) else None
  {
    if rows != [] {
      assert (rows + [row])[1..] == rows[1..] + [row];
      IdIndexOfSnoc(rows[1..], row, id);
    }
  }

  /** What insert returns, find(team) on the grown table: a team without an id that was not there is found by its code
      at the new row; one without an id is always found; one with an id that names no row, old or new, is not. */
  lemma InsertFinds(t: S.Tables, team: T.TeamKey)
    ensures var r := Find(WithTeam(t, team.code, team.name), team);
            && (team.id == INVALID_ID ==> r.Some? && r.value.code == team.code)
            && (team.id == INVALID_ID && FindByCode(t, team.code).None? ==> r == Some(T.TeamKey(t.nextId, team.code, team.name)))
            && (team.id != INVALID_ID && FindById(t, team.id).None? && team.id != t.nextId ==> r.None?)
  {
    var row := S.TeamRow(t.nextId, team.code, team.name);
    CodeIndexOfSnoc(t.teams, row, team.code);
    IdIndexOfSnoc(t.teams, row, team.id);
  }

  /** insert: the row added, then find(team). */
  method Insert(db: S.Database, team: T.TeamKey) returns (r: Option<T.TeamKey>)
    requires db.Consistent()
    modifies db
    ensures db.tables == WithTeam(old(db.tables), team.code, team.name)
    ensures r == Find(db.tables, team)
    ensures db.autoCommit == old(db.autoCommit) && db.Consistent() && (!db.autoCommit ==> db.committed == old(db.committed))
  {
    db.Write(WithTeam(db.tables, team.code, team.name));
    r := Find(db.tables, team);
  }

  /** The athletes of the rows with the team id, each with its row's id; a HashSet keeps the first of equal ones. */
  function Roster(rows: seq<S.AthleteRow>, teamId: int): (r: map<Athlete, int>)
    ensures T.TaggedWith(r, teamId)
  {
    if rows == [] then map[]
    else
      var rest := Roster(rows[1..], teamId);
      if rows[0].teamId == teamId then rest[AD.KeyOf(rows[0]) := rows[0].id] else rest
  }

  /** retrieveAthletes: every athlete of the team, as a set tagged with the team's id; none for INVALID_ID. */
  function RetrieveAthletes(t: S.Tables, teamId: int): (r: map<Athlete, int>)
    ensures T.TaggedWith(r, teamId)
    ensures teamId == INVALID_ID ==> r == map[]
  {
    if teamId == INVALID_ID then map[] else Roster(t.athletes, teamId)
  }

  lemma {:induction false} RosterAgreesWithFind(rows: seq<S.AthleteRow>, teamId: int, a: Athlete)
    ensures a in Roster(rows, teamId) <==> a.teamId == teamId && AD.KeyIndex(rows, a).Some?
    ensures a in Roster(rows, teamId) ==> Roster(rows, teamId)[a] == rows[AD.KeyIndex(rows, a).value].id
  {
    if rows != [] {
      RosterAgreesWithFind(rows[1..], teamId, a);
    }
  }

  /** The roster read back is what AthleteDbo.find answers one athlete at a time: exactly the athletes of the team that
      it finds, each with the id it finds. */
  lemma RetrieveAgreesWithFind(t: S.Tables, teamId: int, a: Athlete)
    requires teamId != INVALID_ID
    ensures a in RetrieveAthletes(t, teamId) <==> a.teamId == teamId && AD.Find(t, a).Some?
    ensures a in RetrieveAthletes(t, teamId) ==> RetrieveAthletes(t, teamId)[a] == AD.Find(t, a).value
  {
    RosterAgreesWithFind(t.athletes, teamId, a);
  }
}
