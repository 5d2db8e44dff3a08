/** org.gcsl.ResultsToDbTask: the meets read from results files, stored one after the other. For each meet the BYE
    team is added when the results are of a bye week, a meet already stored for the same teams and date loses its
    credits and orphans, the teams and athletes get their database ids, the athletes not in the database become the
    meet's orphans, and the meet is updated or inserted. The task writes on the connection as it is given: it neither
    commits nor rolls back. */
module ResultsToDb {
  import opened Base
  import opened Utils
  import opened Athletes
  import T = Teams
  import MI = MeetInfos
  import Scn = ArchiveItems
  import M = MeetResultsModel
  import S = Store
  import AD = AthleteDbo
  import TD = TeamDbo
  import OD = OrphanDbo
  import MD = MeetDbo

  // ----- Which stored meet a meet's results update

  /** existingMeetId once findByTeams has answered found for a meet: the match's id when there is one, otherwise
      the value it had before. */
  function NextMeetId(found: Option<int>, existing: int): int {
    if found.Some? then found.value else existing
  }

  /** existingMeetId after the meets whose lookups answered found, from existing before the first. */
  function CarriedAfter(found: seq<Option<int>>, existing: int): int
    decreases |found|
  {
    if found == [] then existing else NextMeetId(found[|found| - 1], CarriedAfter(found[..|found| - 1], existing))
  }

  /** existingMeetId as call() keeps it, meet after meet: given what findByTeams answered for each meet (the id of the
      stored match, or None) and the value before the first meet, the id each meet is updated under, INVALID_ID for
      an insert. It is set when there is a match and never set back: a meet without a match inherits the id of the
      meet before it. */
  function CarriedMeetIds(found: seq<Option<int>>, existing: int): (r: seq<int>)
    ensures |r| == |found|
    ensures forall k :: 0 <= k < |found| && found[k].Some? ==> r[k] == found[k].value
    ensures |found| > 0 && found[0].None? ==> r[0] == existing
    ensures forall k :: 0 < k < |found| && found[k].None? ==> r[k] == r[k - 1]
    decreases |found|
  {
    if found == [] then []
    else
      var n := |found|;
      var prefix := found[..n - 1];
      var init := CarriedMeetIds(prefix, existing);
      var r := init + [CarriedAfter(found, existing)];
      assert forall k :: 0 <= k < n - 1 ==> prefix[k] == found[k] && r[k] == init[k];
      assert n > 1 ==> r[n - 2] == CarriedAfter(prefix, existing);
      assert n == 1 ==> prefix == [];
      r
  }

  /** A meet with no stored match that follows one with a match is not inserted: it is sent to update, under the id
      of the earlier meet's match, whose file date, orphans and credits it then overwrites. */
  lemma {:induction false} UnmatchedMeetUpdatesEarlierMatch()
    ensures CarriedMeetIds([Some(7), None], INVALID_ID) == [7, 7]
  {
  }

  /** The id of a stored match, if any. */
  function MatchedId(dbMeet: Option<S.MeetRow>): Option<int> {
    if dbMeet.Some? then Some(dbMeet.value.id) else None
  }

  /** The decision for one meet: update the stored match, or insert when there is none. */
  function MeetIdToUpdate(found: Option<int>): int {
    if found.Some? then found.value else INVALID_ID
  }

  /** The decisions meet after meet with nothing carried from one meet to the next: a meet goes to update exactly
      when findByTeams found it a match, and then under that match's id. */
  function MeetIdsToUpdate(found: seq<Option<int>>): (r: seq<int>)
    ensures |r| == |found|
    ensures forall k :: 0 <= k < |found| && found[k].Some? ==> r[k] == found[k].value
    ensures forall k :: 0 <= k < |found| && found[k].None? ==> r[k] == INVALID_ID
    decreases |found|
  {
    if found == [] then [] else [MeetIdToUpdate(found[0])] + MeetIdsToUpdate(found[1..])
  }

  lemma MeetIdsToUpdateSnoc(found: seq<Option<int>>, x: Option<int>)
    ensures MeetIdsToUpdate(found + [x]) == MeetIdsToUpdate(found) + [MeetIdToUpdate(x)]
  {
    var r := MeetIdsToUpdate(found + [x]);
    assert forall k :: 0 <= k < |found| ==> (found + [x])[k] == found[k];
    assert (found + [x])[|found|] == x;
  }

  /** The carried id and the corrected decision agree on every meet up to and including the first one with a match;
      they can differ only on a meet without a match that comes after one with a match. */
  lemma {:induction false} CarriedAgreesUpToFirstMatch(found: seq<Option<int>>, k: nat)
    requires k < |found| && forall j :: 0 <= j < k ==> found[j].None?
    ensures CarriedMeetIds(found, INVALID_ID)[k] == MeetIdsToUpdate(found)[k]
    decreases k
  {
    if k > 0 && found[k].None? {
      CarriedAgreesUpToFirstMatch(found, k - 1);
    }
  }

  /** The two disagree only where a meet has no match and an earlier meet had one. */
  lemma CarriedDiffersOnlyAfterMatch(found: seq<Option<int>>, k: nat)
    requires k < |found| && CarriedMeetIds(found, INVALID_ID)[k] != MeetIdsToUpdate(found)[k]
    ensures found[k].None? && exists j :: 0 <= j < k && found[j].Some?
  {
    if forall j :: 0 <= j < k ==> found[j].None? {
      CarriedAgreesUpToFirstMatch(found, k);
    }
  }

  // ----- One meet, on values

  /** The meets call() can be given: a LocalDate is always a valid date, and every athlete of a team carries the
      team's id, as Team.addAthlete tags it. */
  predicate AllTagged(teams: seq<MD.TeamData>) {
    forall k :: 0 <= k < |teams| ==> T.TaggedWith(teams[k].athletes, teams[k].key.id)
  }

  type MeetInput = d: MD.MeetData | MI.ValidDate(d.date) && AllTagged(d.teams)
    witness MD.MeetData(MI.Date(2000, 1, 1), None, Scn.MeetResults, [], [])

  predicate IsByeWeek(s: Scn.Scenario) {
    s == Scn.ByeWeekEntries || s == Scn.ByeWeekResults
  }

  const BYE_CODE: string := "BYE"

  /** The meet after the bye-week step: for bye-week entries or results the team with code BYE, read from the Teams
      table with no athletes, is appended; when the table has no such team, nothing is. */
  function WithBye(t: S.Tables, d: MD.MeetData): MD.MeetData {
    if IsByeWeek(d.scenario) && TD.FindByCode(t, BYE_CODE).Some? then
      d.(teams := d.teams + [MD.TeamData(TD.FindByCode(t, BYE_CODE).value, map[])])
    else d
  }

  function KeysOf(teams: seq<MD.TeamData>): (r: seq<T.TeamKey>)
    ensures |r| == |teams| && forall k :: 0 <= k < |teams| ==> r[k] == teams[k].key
  {
    seq(|teams|, k requires 0 <= k < |teams| => teams[k].key)
  }

  /** The tables after removeResults(meet): the meet's credits deleted, then OrphanDbo.removeOrphans called for it. */
  function WithoutResults(t: S.Tables, meetId: int): S.Tables {
    OD.WithoutOrphansOf(if meetId == INVALID_ID then t else t.(credits := MD.WithoutCredits(t.credits, meetId)), meetId)
  }

  /** The athletes of a team after setId(newId) when they all carry oldId: each retagged with the new id, keeping its
      database id. */
  function RetaggedMap(m: map<Athlete, int>, oldId: int, newId: int): map<Athlete, int> {
    map b | b in T.RetaggedKeys(m.Keys, newId) && T.Retag(b, oldId) in m :: m[T.Retag(b, oldId)]
  }

  /** A team of the results after updateTeamIds: the id of the team TeamDbo.find answers, or unchanged. */
  function TeamIdUpdated(t: S.Tables, team: MD.TeamData): MD.TeamData {
    match TD.Find(t, team.key)
    case None => team
    case Some(dbTeam) => MD.TeamData(team.key.(id := dbTeam.id), RetaggedMap(team.athletes, team.key.id, dbTeam.id))
  }

  function IdsUpdated(t: S.Tables, teams: seq<MD.TeamData>): (r: seq<MD.TeamData>)
    ensures |r| == |teams| && forall k :: 0 <= k < |teams| ==> r[k] == TeamIdUpdated(t, teams[k])
  {
    seq(|teams|, k requires 0 <= k < |teams| => TeamIdUpdated(t, teams[k]))
  }

  /** What updateTeamIds returns: whether TeamDbo.find answered for every team. */
  predicate AllFound(t: S.Tables, teams: seq<MD.TeamData>) {
    forall k :: 0 <= k < |teams| ==> TD.Find(t, teams[k].key).Some?
  }

  /** The athletes AthleteDbo.find answers for, each with the id it answers. */
  function Found(t: S.Tables, m: map<Athlete, int>): map<Athlete, int> {
    map a | a in m && AD.Find(t, a).Some? :: AD.Find(t, a).value
  }

  /** The athletes it does not answer for: the new orphans. */
  function Unfound(t: S.Tables, m: map<Athlete, int>): set<Athlete> {
    set a | a in m && AD.Find(t, a).None?
  }

  /** A team after updateAthlteIds: its athletes found in the database, with their ids; the others removed. */
  function AthletesUpdated(t: S.Tables, teams: seq<MD.TeamData>): (r: seq<MD.TeamData>)
    ensures |r| == |teams| && forall k :: 0 <= k < |teams| ==> r[k] == MD.TeamData(teams[k].key, Found(t, teams[k].athletes))
  {
    seq(|teams|, k requires 0 <= k < |teams| => MD.TeamData(teams[k].key, Found(t, teams[k].athletes)))
  }

  function Concat(xs: seq<seq<Athlete>>): seq<Athlete> {
    if xs == [] then [] else Concat(xs[..|xs| - 1]) + xs[|xs| - 1]
  }

  /** The iteration orders a meet's pass took: over each team's athletes when looking for orphans, and over each
      team's athletes when crediting the meet. */
  datatype Orders = Orders(orphans: seq<seq<Athlete>>, credits: seq<seq<(Athlete, int)>>)

  /** Each order lists the new orphans of the team at the same position. */
  predicate OrphansFit(t: S.Tables, teams: seq<MD.TeamData>, orphans: seq<seq<Athlete>>) {
    |orphans| == |teams| && forall k :: 0 <= k < |teams| ==> S.Enumerates(orphans[k], Unfound(t, teams[k].athletes))
  }

  /** Each order lists the athletes of the team at the same position, with their ids. */
  predicate CreditsFit(teams: seq<MD.TeamData>, credits: seq<seq<(Athlete, int)>>) {
    |credits| == |teams| && forall k :: 0 <= k < |teams| ==> S.Enumerates(credits[k], teams[k].athletes.Items)
  }

  /** The id the meet is stored under: the match's for an update; for an insert, the id of the meet found for the
      first two teams and the date once the new row is written. */
  function StoredId(t: S.Tables, d: MD.MeetData, existing: int): int
    requires MI.ValidDate(d.date) && |d.teams| >= 2
  {
    if existing != INVALID_ID then existing
    else
      var t1 := MD.WithMeet(t, MI.FormatIso(d.date), d.fileDate, d.teams[0].key.id, d.teams[1].key.id, Scn.ScenarioName(d.scenario));
      match MD.FindMeetByTeamIds(t1, d.teams[0].key.id, d.teams[1].key.id, d.date)
      case None => INVALID_ID
      case Some(row) => row.id
  }

  /** The tables after MeetDbo.update (existing is a match's id) or MeetDbo.insert (it is INVALID_ID). */
  function Stored(t: S.Tables, d: MD.MeetData, existing: int, credits: seq<seq<(Athlete, int)>>): S.Tables
    requires MI.ValidDate(d.date) && |d.teams| >= 2
  {
    var id := StoredId(t, d, existing);
    var t1 := if existing != INVALID_ID then t.(meets := MD.WithFileDate(t.meets, existing, d.fileDate))
              else MD.WithMeet(t, MI.FormatIso(d.date), d.fileDate, d.teams[0].key.id, d.teams[1].key.id, Scn.ScenarioName(d.scenario));
    t1.(orphans := t1.orphans + OD.OrphanRows(d.orphans, id), credits := t1.credits + MD.AllCreditRows(credits, id))
  }

  /** How call() ends. It returns null each time; only its status message tells them apart. */
  datatype Ending = Finished | FewerThanTwoTeams | TeamNotFound

  /** One meet's pass: None when the meet was stored and the loop goes on, otherwise how call() ends; the tables,
      the meet as the pass leaves it, and existingMeetId after it (for a stored meet, the id it was updated under,
      INVALID_ID when it was inserted). */
  datatype Pass = Pass(stop: Option<Ending>, t: S.Tables, meet: MD.MeetData, existing: int)

  /** The stored match findByTeams answers for the meet's teams and date, if any. */
  function DbMeet(t: S.Tables, d: MD.MeetData): Option<S.MeetRow>
    requires MI.ValidDate(d.date)
  {
    MD.FindByTeams(t, KeysOf(d.teams), d.date)
  }

  /** The tables once the stored match, if any, has lost its results. */
  function Removed(t: S.Tables, d: MD.MeetData): S.Tables
    requires MI.ValidDate(d.date)
  {
    if DbMeet(t, d).Some? then WithoutResults(t, DbMeet(t, d).value.id) else t
  }

  /** The meet once its teams and athletes have their database ids and its new orphans are added. */
  function Matched(t: S.Tables, d: MD.MeetData, orphans: seq<seq<Athlete>>): MD.MeetData {
    d.(teams := AthletesUpdated(t, IdsUpdated(t, d.teams)), orphans := d.orphans + Concat(orphans))
  }

  /** The pass of a meet with at least two teams, from findByTeams on, with existingMeetId at carried:
      removeResults for a match, which also sets existingMeetId; updateTeamIds; and when every team is found,
      updateAthlteIds, addOrphans, and update under existingMeetId when it is valid, insert otherwise. */
  function Reconciled(t: S.Tables, carried: int, d1: MD.MeetData, o: Orders): Pass
    requires MI.ValidDate(d1.date) && |d1.teams| >= 2
  {
    var e := NextMeetId(MatchedId(DbMeet(t, d1)), carried);
    var t2 := Removed(t, d1);
    if !AllFound(t2, d1.teams) then Pass(Some(TeamNotFound), t2, d1.(teams := IdsUpdated(t2, d1.teams)), e)
    else
      var d3 := Matched(t2, d1, o.orphans);
      Pass(None, Stored(t2, d3, e, o.credits), d3, e)
  }

  /** The orders of a pass that stores its meet fit that pass. */
  predicate ReconciledFits(t: S.Tables, carried: int, d1: MD.MeetData, o: Orders)
    requires MI.ValidDate(d1.date) && |d1.teams| >= 2
  {
    var t2 := Removed(t, d1);
    AllFound(t2, d1.teams) ==>
      && OrphansFit(t2, IdsUpdated(t2, d1.teams), o.orphans)
      && (StoredId(t2, Matched(t2, d1, o.orphans), NextMeetId(MatchedId(DbMeet(t, d1)), carried)) != INVALID_ID ==>
            CreditsFit(Matched(t2, d1, o.orphans).teams, o.credits))
  }

  /** The body of call()'s loop for one meet, from tables t with existingMeetId at carried: the BYE team added for a
      bye week, and a meet left with fewer than two teams ends call(). */
  function MeetPass(t: S.Tables, carried: int, d: MeetInput, o: Orders): Pass {
    var d1 := WithBye(t, d);
    if |d1.teams| < 2 then Pass(Some(FewerThanTwoTeams), t, d1, carried) else Reconciled(t, carried, d1, o)
  }

  predicate MeetFits(t: S.Tables, carried: int, d: MeetInput, o: Orders) {
    var d1 := WithBye(t, d);
    |d1.teams| >= 2 ==> ReconciledFits(t, carried, d1, o)
  }

  /** The pass as evidently intended: existingMeetId starts from INVALID_ID for every meet, so a meet is updated
      exactly when its own lookup finds a stored match (MeetIdsToUpdate). */
  function CorrectedMeetPass(t: S.Tables, carried: int, d: MeetInput, o: Orders): Pass {
    MeetPass(t, INVALID_ID, d, o)
  }

  predicate CorrectedMeetFits(t: S.Tables, carried: int, d: MeetInput, o: Orders) {
    MeetFits(t, INVALID_ID, d, o)
  }

  // ----- One meet, on the objects

  predicate DistinctTeams(teams: seq<T.Team>) {
    forall j, k :: 0 <= j < k < |teams| ==> teams[j] != teams[k]
  }

  function TeamDatas(teams: seq<T.Team>): (r: seq<MD.TeamData>)
    reads teams
    ensures |r| == |teams| && forall k :: 0 <= k < |teams| ==> r[k] == MD.TeamDataOf(teams[k])
  {
    seq(|teams|, k requires 0 <= k < |teams| reads teams => MD.TeamDataOf(teams[k]))
  }

  /** After setId on a team whose athletes carry its old id, the athletes are those of RetaggedMap. */
  lemma SetIdRetags(before: map<Athlete, int>, oldId: int, newId: int, after: map<Athlete, int>)
    requires T.TaggedWith(before, oldId)
    requires after.Keys == T.RetaggedKeys(before.Keys, newId)
    requires forall b :: b in after ==> exists a :: a in before && T.Retag(a, newId) == b && after[b] == before[a]
    ensures after == RetaggedMap(before, oldId, newId)
  {
    forall b | b in after
      ensures T.Retag(b, oldId) in before && after[b] == before[T.Retag(b, oldId)]
    {
      var a :| a in before && T.Retag(a, newId) == b && after[b] == before[a];
      assert T.Retag(b, oldId) == a;
    }
  }

  /** updateTeamIds: every team looked up in turn; each one found gets the database's id. */
  method UpdateTeamIds(tables: S.Tables, teams: seq<T.Team>) returns (rc: bool)
    requires DistinctTeams(teams) && AllTagged(TeamDatas(teams))
    modifies teams
    ensures rc <==> AllFound(tables, old(TeamDatas(teams)))
    ensures TeamDatas(teams) == IdsUpdated(tables, old(TeamDatas(teams)))
  {
    ghost var before := TeamDatas(teams);
    ghost var after := IdsUpdated(tables, before);
    rc := true;
    var i := 0;
    while i < |teams|
      invariant 0 <= i <= |teams|
      invariant rc <==> AllFound(tables, before[..i])
      invariant TeamsUpdatedTo(teams, before, after, i)
    {
      var ok := UpdateTeamIdAt(tables, teams, i, before, after);
      AllFoundSnoc(tables, before, i);
      if !ok {
        rc := false;
      }
      i := i + 1;
    }
    assert before[..i] == before;
  }

  lemma AllFoundSnoc(t: S.Tables, teams: seq<MD.TeamData>, i: nat)
    requires i < |teams|
    ensures AllFound(t, teams[..i + 1]) <==> AllFound(t, teams[..i]) && TD.Find(t, teams[i].key).Some?
  {
    assert forall k :: 0 <= k < i ==> teams[..i + 1][k] == teams[..i][k];
  }

  /** The body of updateTeamIds' loop: team i looked up and, when found, given the database's id. */
  method UpdateTeamIdAt(tables: S.Tables, teams: seq<T.Team>, i: nat, ghost before: seq<MD.TeamData>, ghost after: seq<MD.TeamData>)
    returns (found: bool)
    requires DistinctTeams(teams) && i < |teams| && TeamsUpdatedTo(teams, before, after, i)
    requires after == IdsUpdated(tables, before) && AllTagged(before)
    modifies teams[i]
    ensures found == TD.Find(tables, before[i].key).Some?
    ensures TeamsUpdatedTo(teams, before, after, i + 1)
  {
    found := UpdateTeamId(tables, teams[i]);
  }

  /** The body of updateTeamIds' loop for one team. */
  method UpdateTeamId(tables: S.Tables, team: T.Team) returns (found: bool)
    requires T.TaggedWith(team.athletes, team.id)
    modifies team
    ensures found == TD.Find(tables, old(team.Key())).Some?
    ensures MD.TeamDataOf(team) == TeamIdUpdated(tables, old(MD.TeamDataOf(team)))
  {
    var dbTeam := TD.Find(tables, team.Key());
    found := dbTeam.Some?;
    if found {
      ghost var before := team.athletes;
      team.SetId(dbTeam.value.id);
      SetIdRetags(before, old(team.id), dbTeam.value.id, team.athletes);
    }
  }

  /** The first inner loop of updateAthlteIds for one team: every athlete looked up; those found given the database's
      id, those not found listed in the order visited. */
  method LookUpAthletes(tables: S.Tables, team: T.Team) returns (newOrphans: seq<Athlete>)
    modifies team
    ensures S.Enumerates(newOrphans, Unfound(tables, old(team.athletes)))
    ensures team.athletes.Keys == old(team.athletes).Keys
    ensures forall a :: a in team.athletes && AD.Find(tables, a).Some? ==> team.athletes[a] == AD.Find(tables, a).value
    ensures team.Key() == old(team.Key())
  {
    ghost var m0 := team.athletes;
    var rest := team.athletes.Keys;
    newOrphans := [];
    while rest != {}
      invariant rest <= m0.Keys && team.athletes.Keys == m0.Keys && team.Key() == old(team.Key())
      invariant forall a :: a in m0 && a !in rest && AD.Find(tables, a).Some? ==> team.athletes[a] == AD.Find(tables, a).value
      invariant S.Enumerates(newOrphans, Unfound(tables, m0) - rest)
      decreases |rest|
    {
      var a :| a in rest;
      var dbAthlete := AD.Find(tables, a);
      UnfoundStep(tables, m0, rest, a, newOrphans);
      if dbAthlete.None? {
        newOrphans := newOrphans + [a];
      } else {
        team.athletes := team.athletes[a := dbAthlete.value];
      }
      rest := rest - {a};
    }
  }

  /** Looking up one more athlete a: it is listed when not found. */
  lemma UnfoundStep(t: S.Tables, m0: map<Athlete, int>, rest: set<Athlete>, a: Athlete, listed: seq<Athlete>)
    requires a in rest && rest <= m0.Keys && S.Enumerates(listed, Unfound(t, m0) - rest)
    ensures AD.Find(t, a).None? ==> S.Enumerates(listed + [a], Unfound(t, m0) - (rest - {a}))
    ensures AD.Find(t, a).Some? ==> S.Enumerates(listed, Unfound(t, m0) - (rest - {a}))
  {
    assert Unfound(t, m0) - (rest - {a}) == if AD.Find(t, a).None? then (Unfound(t, m0) - rest) + {a} else Unfound(t, m0) - rest;
  }

  /** The second inner loop: each listed athlete removed from the team. */
  method RemoveAthletes(team: T.Team, orphans: seq<Athlete>)
    modifies team
    ensures forall a :: a in team.athletes <==> a in old(team.athletes) && a !in orphans
    ensures forall a :: a in team.athletes ==> team.athletes[a] == old(team.athletes)[a]
    ensures team.Key() == old(team.Key())
  {
    var j := 0;
    while j < |orphans|
      invariant 0 <= j <= |orphans| && team.Key() == old(team.Key())
      invariant forall a :: a in team.athletes <==> a in old(team.athletes) && a !in orphans[..j]
      invariant forall a :: a in team.athletes ==> team.athletes[a] == old(team.athletes)[a]
    {
      team.RemoveAthlete(orphans[j]);
      j := j + 1;
    }
    assert orphans[..j] == orphans;
  }

  /** updateAthlteIds for one team: its athletes become those found in the database, with their ids, and the others
      are its new orphans. */
  method UpdateTeamAthletes(tables: S.Tables, team: T.Team) returns (newOrphans: seq<Athlete>)
    modifies team
    ensures S.Enumerates(newOrphans, Unfound(tables, old(team.athletes)))
    ensures team.athletes == Found(tables, old(team.athletes))
    ensures team.Key() == old(team.Key())
  {
    ghost var m0 := team.athletes;
    newOrphans := LookUpAthletes(tables, team);
    ghost var m1 := team.athletes;
    RemoveAthletes(team, newOrphans);
    FoundAfterRemoval(tables, m0, m1, newOrphans, team.athletes);
  }

  /** Looking up every athlete and then removing the ones not found leaves the athletes found, with their ids. */
  lemma FoundAfterRemoval(t: S.Tables, m0: map<Athlete, int>, m1: map<Athlete, int>, orphans: seq<Athlete>, m2: map<Athlete, int>)
    requires S.Enumerates(orphans, Unfound(t, m0))
    requires m1.Keys == m0.Keys && forall a :: a in m1 && AD.Find(t, a).Some? ==> m1[a] == AD.Find(t, a).value
    requires forall a :: a in m2 <==> a in m1 && a !in orphans
    requires forall a :: a in m2 ==> m2[a] == m1[a]
    ensures m2 == Found(t, m0)
  {
    assert m2.Keys == Found(t, m0).Keys;
  }

  /** updateAthlteIds: every team in turn; the orphans list holds each team's new orphans, team after team. */
  method UpdateAthleteIds(tables: S.Tables, teams: seq<T.Team>) returns (orphans: seq<Athlete>, ghost orders: seq<seq<Athlete>>)
    requires DistinctTeams(teams)
    modifies teams
    ensures OrphansFit(tables, old(TeamDatas(teams)), orders)
    ensures orphans == Concat(orders)
    ensures TeamDatas(teams) == AthletesUpdated(tables, old(TeamDatas(teams)))
  {
    ghost var before := TeamDatas(teams);
    ghost var after := AthletesUpdated(tables, before);
    orphans, orders := [], [];
    var i := 0;
    while i < |teams|
      invariant 0 <= i <= |teams| && |orders| == i
      invariant orphans == Concat(orders)
      invariant OrphansFit(tables, before[..i], orders)
      invariant TeamsUpdatedTo(teams, before, after, i)
    {
      var newOrphans := UpdateAthletesAt(tables, teams, i, before, after);
      OrphansFitSnoc(tables, before, i, orders, newOrphans);
      assert (orders + [newOrphans])[..i] == orders;
      orphans := orphans + newOrphans;
      orders := orders + [newOrphans];
      i := i + 1;
    }
    assert before[..i] == before;
  }

  lemma OrphansFitSnoc(t: S.Tables, teams: seq<MD.TeamData>, i: nat, orders: seq<seq<Athlete>>, order: seq<Athlete>)
    requires i < |teams| && OrphansFit(t, teams[..i], orders) && S.Enumerates(order, Unfound(t, teams[i].athletes))
    ensures OrphansFit(t, teams[..i + 1], orders + [order])
  {
  }

  /** The first i teams hold what after gives them, the others what before gives them. */
  ghost predicate TeamsUpdatedTo(teams: seq<T.Team>, before: seq<MD.TeamData>, after: seq<MD.TeamData>, i: nat)
    reads teams
  {
    && |before| == |teams| && |after| == |teams|
    && forall k :: 0 <= k < |teams| ==> MD.TeamDataOf(teams[k]) == if k < i then after[k] else before[k]
  }

  /** The body of updateAthlteIds' loop: team i's athletes looked up and its new orphans returned. */
  method UpdateAthletesAt(tables: S.Tables, teams: seq<T.Team>, i: nat, ghost before: seq<MD.TeamData>, ghost after: seq<MD.TeamData>)
    returns (newOrphans: seq<Athlete>)
    requires DistinctTeams(teams) && i < |teams| && TeamsUpdatedTo(teams, before, after, i)
    requires after == AthletesUpdated(tables, before)
    modifies teams[i]
    ensures S.Enumerates(newOrphans, Unfound(tables, before[i].athletes))
    ensures TeamsUpdatedTo(teams, before, after, i + 1)
  {
    newOrphans := UpdateTeamAthletes(tables, teams[i]);
  }

  /** removeResults: the meet's credits deleted, then its orphans. */
  method RemoveResults(db: S.Database, meetId: int)
    requires db.Consistent()
    modifies db
    ensures db.tables == WithoutResults(old(db.tables), meetId)
    ensures db.autoCommit == old(db.autoCommit) && db.Consistent() && (!db.autoCommit ==> db.committed == old(db.committed))
  {
    MD.RemoveResults(db, meetId);
    OD.RemoveOrphans(db, meetId);
  }

  /** What MeetDbo reads of a meet's teams is what TeamDatas reads of them. */
  lemma DataOfTeams(meet: M.MeetResults)
    ensures MD.DataOf(meet).teams == TeamDatas(meet.teams)
  {
  }

  /** The bye-week step of call()'s loop. */
  method AddByeTeam(tables: S.Tables, meet: M.MeetResults) returns (ghost added: seq<T.Team>)
    requires DistinctTeams(meet.teams)
    modifies meet
    ensures MD.DataOf(meet) == WithBye(tables, old(MD.DataOf(meet)))
    ensures DistinctTeams(meet.teams)
    ensures fresh(added) && meet.teams == old(meet.teams) + added
  {
    ghost var d := MD.DataOf(meet);
    added := [];
    if meet.scenario == Scn.ByeWeekEntries || meet.scenario == Scn.ByeWeekResults {
      var byeTeam := TD.FindByCode(tables, BYE_CODE);
      if byeTeam.Some? {
        var team := new T.Team(byeTeam.value.id, byeTeam.value.code, byeTeam.value.name, "");
        meet.AddTeam(team);
        added := [team];
        assert MD.DataOf(meet).teams == d.teams + [MD.TeamData(byeTeam.value, map[])];
      }
    }
  }

  /** findByTeams, and when it answers, existingMeetId set to the match's id and removeResults; otherwise
      existingMeetId keeps the value carried from the meets before. */
  method Prepare(db: S.Database, meet: M.MeetResults, carried: int, ghost d: MD.MeetData) returns (existing: int)
    requires db.Consistent() && d == MD.DataOf(meet) && MI.ValidDate(d.date)
    modifies db
    ensures existing == NextMeetId(MatchedId(DbMeet(old(db.tables), d)), carried)
    ensures db.tables == Removed(old(db.tables), d)
    ensures db.autoCommit == old(db.autoCommit) && db.Consistent() && (!db.autoCommit ==> db.committed == old(db.committed))
  {
    DataOfTeams(meet);
    var dbMeet := MD.FindByTeams(db.tables, KeysOf(TeamDatas(meet.teams)), meet.info.date);
    existing := carried;
    if dbMeet.Some? {
      existing := dbMeet.value.id;
      RemoveResults(db, dbMeet.value.id);
    }
  }

  /** updateTeamIds, and when every team is found, updateAthlteIds and addOrphans. */
  method MatchIds(tables: S.Tables, meet: M.MeetResults, ghost d: MD.MeetData) returns (allFound: bool, ghost orphans: seq<seq<Athlete>>)
    requires d == MD.DataOf(meet) && DistinctTeams(meet.teams) && AllTagged(d.teams)
    modifies meet, meet.teams
    ensures allFound <==> AllFound(tables, d.teams)
    ensures !allFound ==> MD.DataOf(meet) == d.(teams := IdsUpdated(tables, d.teams))
    ensures allFound ==> MD.DataOf(meet) == Matched(tables, d, orphans)
    ensures allFound ==> OrphansFit(tables, IdsUpdated(tables, d.teams), orphans)
  {
    DataOfTeams(meet);
    var teams := meet.teams;
    allFound := UpdateTeamIds(tables, teams);
    DataOfTeams(meet);
    if !allFound {
      return allFound, [];
    }
    orphans := MatchAthletes(tables, meet, MD.DataOf(meet));
  }

  /** updateAthlteIds and addOrphans, once every team has its database id. */
  method MatchAthletes(tables: S.Tables, meet: M.MeetResults, ghost d: MD.MeetData) returns (ghost orphans: seq<seq<Athlete>>)
    requires d == MD.DataOf(meet) && DistinctTeams(meet.teams)
    modifies meet, meet.teams
    ensures MD.DataOf(meet) == d.(teams := AthletesUpdated(tables, d.teams), orphans := d.orphans + Concat(orphans))
    ensures OrphansFit(tables, d.teams, orphans)
  {
    DataOfTeams(meet);
    var list;
    list, orphans := UpdateAthleteIds(tables, meet.teams);
    meet.AddOrphans(list);
    DataOfTeams(meet);
  }

  /** update under the match's id, or insert. */
  method StoreMeet(db: S.Database, meet: M.MeetResults, existing: int, ghost d: MD.MeetData) returns (ghost credits: seq<seq<(Athlete, int)>>)
    requires db.Consistent() && d == MD.DataOf(meet) && MI.ValidDate(d.date) && |d.teams| >= 2
    modifies db
    ensures db.tables == Stored(old(db.tables), d, existing, credits) && MD.DataOf(meet) == d
    ensures StoredId(old(db.tables), d, existing) != INVALID_ID ==> CreditsFit(d.teams, credits)
    ensures db.autoCommit == old(db.autoCommit) && db.Consistent() && (!db.autoCommit ==> db.committed == old(db.committed))
  {
    if existing != INVALID_ID {
      credits := UpdateMatchedMeet(db, meet, existing, d);
    } else {
      credits := InsertNewMeet(db, meet, d);
    }
  }

  /** MeetDbo.update under the match's id. */
  method UpdateMatchedMeet(db: S.Database, meet: M.MeetResults, existing: int, ghost d: MD.MeetData) returns (ghost credits: seq<seq<(Athlete, int)>>)
    requires db.Consistent() && d == MD.DataOf(meet) && MI.ValidDate(d.date) && |d.teams| >= 2 && existing != INVALID_ID
    modifies db
    ensures db.tables == Stored(old(db.tables), d, existing, credits) && MD.DataOf(meet) == d
    ensures CreditsFit(d.teams, credits)
    ensures db.autoCommit == old(db.autoCommit) && db.Consistent() && (!db.autoCommit ==> db.committed == old(db.committed))
  {
    credits := MD.Update(db, meet, existing);
  }

  /** MeetDbo.insert, the id read back. */
  method InsertNewMeet(db: S.Database, meet: M.MeetResults, ghost d: MD.MeetData) returns (ghost credits: seq<seq<(Athlete, int)>>)
    requires db.Consistent() && d == MD.DataOf(meet) && MI.ValidDate(d.date) && |d.teams| >= 2
    modifies db
    ensures db.tables == Stored(old(db.tables), d, INVALID_ID, credits) && MD.DataOf(meet) == d
    ensures StoredId(old(db.tables), d, INVALID_ID) != INVALID_ID ==> CreditsFit(d.teams, credits)
    ensures db.autoCommit == old(db.autoCommit) && db.Consistent() && (!db.autoCommit ==> db.committed == old(db.committed))
  {
    var meetId;
    meetId, credits := MD.Insert(db, meet);
  }

  /** From findByTeams on, as Reconciled describes it. */
  method Reconcile(db: S.Database, meet: M.MeetResults, carried: int, ghost d1: MD.MeetData)
    returns (stop: Option<Ending>, existing: int, ghost o: Orders)
    requires db.Consistent() && DistinctTeams(meet.teams)
    requires d1 == MD.DataOf(meet) && MI.ValidDate(d1.date) && |d1.teams| >= 2 && AllTagged(d1.teams)
    modifies db, meet, meet.teams
    ensures Pass(stop, db.tables, MD.DataOf(meet), existing) == Reconciled(old(db.tables), carried, d1, o)
    ensures ReconciledFits(old(db.tables), carried, d1, o)
    ensures db.autoCommit == old(db.autoCommit) && db.Consistent() && (!db.autoCommit ==> db.committed == old(db.committed))
  {
    ghost var t := db.tables;
    existing := Prepare(db, meet, carried, d1);
    ghost var t2 := db.tables;
    var allFound, orphans := MatchIds(db.tables, meet, d1);
    if !allFound {
      o := Orders([], []);
      ReconciledPaths(t, carried, d1, o);
      return Some(TeamNotFound), existing, o;
    }
    ghost var d3 := MD.DataOf(meet);
    var credits := StoreMeet(db, meet, existing, d3);
    o := Orders(orphans, credits);
    ReconciledPaths(t, carried, d1, o);
    stop := None;
  }

  /** Reconciled and ReconciledFits path by path. */
  lemma ReconciledPaths(t: S.Tables, carried: int, d1: MD.MeetData, o: Orders)
    requires MI.ValidDate(d1.date) && |d1.teams| >= 2
    ensures var t2 := Removed(t, d1);
            var existing := NextMeetId(MatchedId(DbMeet(t, d1)), carried);
            !AllFound(t2, d1.teams) ==>
              Reconciled(t, carried, d1, o) == Pass(Some(TeamNotFound), t2, d1.(teams := IdsUpdated(t2, d1.teams)), existing)
    ensures var t2 := Removed(t, d1);
            var d3 := Matched(t2, d1, o.orphans);
            var existing := NextMeetId(MatchedId(DbMeet(t, d1)), carried);
            AllFound(t2, d1.teams) ==>
              && Reconciled(t, carried, d1, o) == Pass(None, Stored(t2, d3, existing, o.credits), d3, existing)
              && (ReconciledFits(t, carried, d1, o) <==>
                    OrphansFit(t2, IdsUpdated(t2, d1.teams), o.orphans) && (StoredId(t2, d3, existing) != INVALID_ID ==> CreditsFit(d3.teams, o.credits)))
  {
  }

  /** The body of call()'s loop for one meet, as MeetPass describes it. */
  method ProcessMeet(db: S.Database, meet: M.MeetResults, carried: int) returns (stop: Option<Ending>, existing: int, ghost o: Orders)
    requires db.Consistent() && DistinctTeams(meet.teams)
    requires MI.ValidDate(meet.info.date) && AllTagged(MD.DataOf(meet).teams)
    modifies db, meet, meet.teams
    ensures Pass(stop, db.tables, MD.DataOf(meet), existing) == MeetPass(old(db.tables), carried, old(MD.DataOf(meet)), o)
    ensures MeetFits(old(db.tables), carried, old(MD.DataOf(meet)), o)
    ensures db.autoCommit == old(db.autoCommit) && db.Consistent() && (!db.autoCommit ==> db.committed == old(db.committed))
  {
    ghost var t := db.tables;
    ghost var d: MeetInput := MD.DataOf(meet);
    ghost var added := AddByeTeam(db.tables, meet);
    ghost var d1 := MD.DataOf(meet);
    assert d1 == WithBye(t, d);
    if |meet.teams| < 2 {
      return Some(FewerThanTwoTeams), carried, Orders([], []);
    }
    stop, existing, o := Reconcile(db, meet, carried, d1);
  }

  // ----- What one pass does

  /** An athlete is among the new orphans of a meet exactly when the order of one of its teams lists it. */
  lemma {:induction false} ConcatHas(xs: seq<seq<Athlete>>, a: Athlete)
    ensures a in Concat(xs) <==> exists k :: 0 <= k < |xs| && a in xs[k]
    decreases |xs|
  {
    if xs != [] {
      var init := xs[..|xs| - 1];
      ConcatHas(init, a);
      assert forall k :: 0 <= k < |init| ==> init[k] == xs[k];
    }
  }

  /** The Teams table is all that TeamDbo.find reads. */
  lemma TeamFindReadsTeams(t: S.Tables, u: S.Tables, key: T.TeamKey)
    requires t.teams == u.teams
    ensures TD.Find(t, key) == TD.Find(u, key)
  {
    if key.id != INVALID_ID {
      assert TD.FindById(t, key.id) == TD.FindById(u, key.id);
    } else {
      assert TD.FindByCode(t, key.code) == TD.FindByCode(u, key.code);
    }
  }

  /** The Athletes table is all that AthleteDbo.find reads. */
  lemma AthleteFindReadsAthletes(t: S.Tables, u: S.Tables, a: Athlete)
    requires t.athletes == u.athletes
    ensures AD.Find(t, a) == AD.Find(u, a)
  {
  }

  /** How a meet's pass ends: it stops call() with FewerThanTwoTeams, having written nothing and before findByTeams,
      exactly when the meet has fewer than two teams once the BYE team is added; with TeamNotFound exactly when one
      of its teams is not in the Teams table, and then the stored match has already lost its credits; otherwise the
      meet is stored. Once findByTeams has run, existingMeetId is the match's id, or the carried one without a match. */
  lemma HowAPassEnds(t: S.Tables, carried: int, d: MeetInput, o: Orders)
    ensures var p := MeetPass(t, carried, d, o);
            var d1 := WithBye(t, d);
            && p.stop != Some(Finished)
            && (p.stop == Some(FewerThanTwoTeams) <==> |d1.teams| < 2)
            && (p.stop == Some(FewerThanTwoTeams) ==> p.t == t && p.existing == carried)
            && (p.stop == Some(TeamNotFound) <==>
                  |d1.teams| >= 2 && exists k :: 0 <= k < |d1.teams| && TD.Find(t, d1.teams[k].key).None?)
            && (p.stop == Some(TeamNotFound) ==> p.t == Removed(t, d1))
            && (p.stop != Some(FewerThanTwoTeams) ==> p.existing == NextMeetId(MatchedId(DbMeet(t, d1)), carried))
  {
    var d1 := WithBye(t, d);
    if |d1.teams| >= 2 {
      MatchingReadsTeamsAndAthletes(Removed(t, d1), t, d1, o.orphans);
    }
  }

  /** The teams once updateAthlteIds has run: each athlete kept carries the id the Athletes table has for it, each
      athlete of a team is either kept or listed in that team's order, and the orders list exactly the athletes the
      table does not hold. */
  lemma AthletesSplit(t: S.Tables, teams: seq<MD.TeamData>, orphans: seq<seq<Athlete>>)
    requires OrphansFit(t, teams, orphans)
    ensures var r := AthletesUpdated(t, teams);
            && (forall k, a :: 0 <= k < |teams| && a in r[k].athletes ==>
                  a in teams[k].athletes && AD.Find(t, a) == Some(r[k].athletes[a]))
            && (forall k, a :: 0 <= k < |teams| && a in teams[k].athletes ==> (a in r[k].athletes <==> a !in orphans[k]))
            && (forall a :: a in Concat(orphans) <==> exists k :: 0 <= k < |teams| && a in teams[k].athletes && AD.Find(t, a).None?)
  {
    forall a
      ensures a in Concat(orphans) <==> exists k :: 0 <= k < |teams| && a in teams[k].athletes && AD.Find(t, a).None?
    {
      ConcatHas(orphans, a);
    }
  }

  /** A stored meet is the meet of AthletesSplit: every team is in the Teams table and carries its id there, and the
      meet's athletes and new orphans are those of its teams looked up in the Athletes table; removing the old
      results first changes neither lookup. */
  lemma StoredMeet(t: S.Tables, carried: int, d: MeetInput, o: Orders)
    requires MeetPass(t, carried, d, o).stop.None? && MeetFits(t, carried, d, o)
    ensures var d1 := WithBye(t, d);
            && AllFound(t, d1.teams)
            && MeetPass(t, carried, d, o).meet == Matched(t, d1, o.orphans)
            && OrphansFit(t, IdsUpdated(t, d1.teams), o.orphans)
  {
    var d1 := WithBye(t, d);
    MatchingReadsTeamsAndAthletes(Removed(t, d1), t, d1, o.orphans);
  }

  /** The Teams and Athletes tables are all that matching a meet reads. */
  lemma MatchingReadsTeamsAndAthletes(t: S.Tables, u: S.Tables, d: MD.MeetData, orphans: seq<seq<Athlete>>)
    requires t.teams == u.teams && t.athletes == u.athletes
    ensures AllFound(t, d.teams) == AllFound(u, d.teams)
    ensures IdsUpdated(t, d.teams) == IdsUpdated(u, d.teams)
    ensures Matched(t, d, orphans) == Matched(u, d, orphans)
    ensures OrphansFit(t, IdsUpdated(t, d.teams), orphans) == OrphansFit(u, IdsUpdated(u, d.teams), orphans)
  {
    forall k | 0 <= k < |d.teams|
      ensures TD.Find(t, d.teams[k].key) == TD.Find(u, d.teams[k].key)
    {
      TeamFindReadsTeams(t, u, d.teams[k].key);
    }
    var ids := IdsUpdated(t, d.teams);
    assert ids == IdsUpdated(u, d.teams);
    forall k | 0 <= k < |ids|
      ensures Found(t, ids[k].athletes) == Found(u, ids[k].athletes) && Unfound(t, ids[k].athletes) == Unfound(u, ids[k].athletes)
    {
      LookupsReadAthletes(t, u, ids[k].athletes);
    }
    assert AthletesUpdated(t, ids) == AthletesUpdated(u, ids);
  }

  lemma LookupsReadAthletes(t: S.Tables, u: S.Tables, m: map<Athlete, int>)
    requires t.athletes == u.athletes
    ensures Found(t, m) == Found(u, m) && Unfound(t, m) == Unfound(u, m)
  {
    forall a
      ensures AD.Find(t, a) == AD.Find(u, a)
    {
      AthleteFindReadsAthletes(t, u, a);
    }
  }

  /** Every credit written for a meet names that meet. */
  lemma {:induction false} AllCreditRowsOfMeet(orders: seq<seq<(Athlete, int)>>, meetId: int)
    ensures forall c :: c in MD.AllCreditRows(orders, meetId) ==> c.meetId == meetId
    decreases |orders|
  {
    if orders != [] {
      AllCreditRowsOfMeet(orders[..|orders| - 1], meetId);
    }
  }

  /** Results for a meet already stored replace the stored ones, whatever existingMeetId carried: afterwards its
      credits are exactly those of this pass, the credits of other meets are as they were, its row has the new file
      date, removeOrphans was called for it, the meet's orphans are written under its id, and existingMeetId is
      that id. */
  lemma ResultsReplaceStoredMeet(t: S.Tables, carried: int, d: MeetInput, o: Orders)
    requires S.WellFormed(t) && MeetPass(t, carried, d, o).stop.None? && DbMeet(t, WithBye(t, d)).Some?
    ensures var id := DbMeet(t, WithBye(t, d)).value.id;
            var p := MeetPass(t, carried, d, o);
            && p.existing == id
            && (forall c :: c in p.t.credits && c.meetId == id <==> c in MD.AllCreditRows(o.credits, id))
            && (forall c :: c in p.t.credits && c.meetId != id <==> c in t.credits && c.meetId != id)
            && p.t.meets == MD.WithFileDate(t.meets, id, d.fileDate)
            && p.t.removedOrphansOf == t.removedOrphansOf + [id]
            && p.t.orphans == t.orphans + OD.OrphanRows(p.meet.orphans, id)
  {
    var d1 := WithBye(t, d);
    var row := DbMeet(t, d1).value;
    var k :| 0 <= k < |t.meets| && t.meets[k] == row;
    assert S.MeetIds(t)[k] == row.id;
    AllCreditRowsOfMeet(o.credits, row.id);
  }

  /** Results for a meet not stored yet, when no earlier meet had a match (existingMeetId is still INVALID_ID),
      append a new meet row, with the next id, the meet's date, file date and scenario and the ids of its first two
      teams, and a lookup of those teams and that date then finds a meet. */
  lemma ResultsInsertNewMeet(t: S.Tables, carried: int, d: MeetInput, o: Orders)
    requires carried == INVALID_ID
    requires MeetPass(t, carried, d, o).stop.None? && DbMeet(t, WithBye(t, d)).None?
    ensures var p := MeetPass(t, carried, d, o);
            && p.existing == INVALID_ID
            && |p.meet.teams| >= 2
            && p.t.meets == t.meets + [S.MeetRow(t.nextId, MI.FormatIso(d.date), d.fileDate, p.meet.teams[0].key.id,
                                                   p.meet.teams[1].key.id, Scn.ScenarioName(d.scenario))]
            && p.t.nextId == t.nextId + 1
            && MD.FindMeetByTeamIds(p.t, p.meet.teams[0].key.id, p.meet.teams[1].key.id, d.date).Some?
  {
    var p := MeetPass(t, carried, d, o);
    MD.InsertMeetFinds(t, d.date, d.fileDate, p.meet.teams[0].key.id, p.meet.teams[1].key.id, Scn.ScenarioName(d.scenario));
  }

  /** Results for a meet not stored yet, after an earlier meet had a match (existingMeetId still holds that match's
      id), are not inserted: no meet row is added, the earlier match's row takes this meet's file date, and this
      meet's orphans and credits are written under the earlier match's id, next to the credits that match already
      has. */
  lemma UnmatchedMeetUpdatesCarried(t: S.Tables, carried: int, d: MeetInput, o: Orders)
    requires carried != INVALID_ID
    requires MeetPass(t, carried, d, o).stop.None? && DbMeet(t, WithBye(t, d)).None?
    ensures var p := MeetPass(t, carried, d, o);
            && p.existing == carried
            && p.t.meets == MD.WithFileDate(t.meets, carried, d.fileDate)
            && |p.t.meets| == |t.meets| && p.t.nextId == t.nextId
            && p.t.orphans == t.orphans + OD.OrphanRows(p.meet.orphans, carried)
            && p.t.credits == t.credits + MD.AllCreditRows(o.credits, carried)
  {
  }

  // ----- call(): every meet in turn

  /** A pass of the loop, from the tables and existingMeetId it starts with. */
  type PassFn = (S.Tables, int, MeetInput, Orders) -> Pass
  type FitsFn = (S.Tables, int, MeetInput, Orders) -> bool

  /** Where the loop stands: going on from tables t with existingMeetId at existing, or stopped, with how call() ends
      and the tables it leaves. */
  datatype RunState = Running(t: S.Tables, existing: int) | Stopped(ending: Ending, t: S.Tables)

  function OrdersAt(orders: seq<Orders>, i: nat): Orders {
    if i < |orders| then orders[i] else Orders([], [])
  }

  /** The loop after its first n meets from tables t0, each pass as pass does it; existingMeetId starts at
      INVALID_ID and goes from one pass to the next. */
  function RunTo(pass: PassFn, t0: S.Tables, inputs: seq<MeetInput>, orders: seq<Orders>, n: nat): RunState
    requires n <= |inputs|
  {
    if n == 0 then Running(t0, INVALID_ID)
    else
      match RunTo(pass, t0, inputs, orders, n - 1)
      case Stopped(e, t) => Stopped(e, t)
      case Running(t, existing) =>
        var p := pass(t, existing, inputs[n - 1], OrdersAt(orders, n - 1));
        if p.stop.Some? then Stopped(p.stop.value, p.t) else Running(p.t, p.existing)
  }

  /** Each meet's orders fit the tables its pass started from. */
  predicate FitsTo(pass: PassFn, fits: FitsFn, t0: S.Tables,
                   inputs: seq<MeetInput>, orders: seq<Orders>, n: nat)
    requires n <= |inputs|
  {
    n == 0 ||
    (&& FitsTo(pass, fits, t0, inputs, orders, n - 1)
     && match RunTo(pass, t0, inputs, orders, n - 1)
        case Stopped(_, _) => true
        case Running(t, existing) => fits(t, existing, inputs[n - 1], OrdersAt(orders, n - 1)))
  }

  function Min(a: int, b: int): int { if a <= b then a else b }

  /** call() with isCancelled() holding from meet cancelAt on: how it ends and the tables it leaves. A cancelled
      loop ends as a finished one does. */
  function Run(pass: PassFn, t0: S.Tables, inputs: seq<MeetInput>, orders: seq<Orders>,
               cancelAt: nat): (Ending, S.Tables)
  {
    match RunTo(pass, t0, inputs, orders, Min(|inputs|, cancelAt))
    case Running(t, _) => (Finished, t)
    case Stopped(e, t) => (e, t)
  }

  /** Once stopped, the loop stays stopped where it was: later meets are not looked at. */
  lemma {:induction false} StoppedPersists(pass: PassFn, fits: FitsFn,
                                           t0: S.Tables, inputs: seq<MeetInput>, orders: seq<Orders>, k: nat, n: nat)
    requires k <= n <= |inputs| && RunTo(pass, t0, inputs, orders, k).Stopped?
    ensures RunTo(pass, t0, inputs, orders, n) == RunTo(pass, t0, inputs, orders, k)
    ensures FitsTo(pass, fits, t0, inputs, orders, n) == FitsTo(pass, fits, t0, inputs, orders, k)
    decreases n
  {
    if n > k {
      StoppedPersists(pass, fits, t0, inputs, orders, k, n - 1);
    }
  }

  /** Stopped at meet k - 1: call() ends as that pass did, whatever the later meets hold. */
  lemma RunOfStopped(pass: PassFn, fits: FitsFn,
                     t0: S.Tables, inputs: seq<MeetInput>, orders: seq<Orders>, cancelAt: nat, k: nat)
    requires k <= Min(|inputs|, cancelAt) && RunTo(pass, t0, inputs, orders, k).Stopped?
    requires FitsTo(pass, fits, t0, inputs, orders, k)
    ensures FitsTo(pass, fits, t0, inputs, orders, Min(|inputs|, cancelAt))
    ensures Run(pass, t0, inputs, orders, cancelAt) == (RunTo(pass, t0, inputs, orders, k).ending, RunTo(pass, t0, inputs, orders, k).t)
  {
    StoppedPersists(pass, fits, t0, inputs, orders, k, Min(|inputs|, cancelAt));
  }

  /** Orders given for later meets change nothing about the earlier ones. */
  lemma {:induction false} RunToExtend(pass: PassFn, fits: FitsFn,
                                       t0: S.Tables, inputs: seq<MeetInput>, orders: seq<Orders>, o: Orders, m: nat)
    requires m <= |inputs| && m <= |orders|
    ensures RunTo(pass, t0, inputs, orders + [o], m) == RunTo(pass, t0, inputs, orders, m)
    ensures FitsTo(pass, fits, t0, inputs, orders + [o], m) == FitsTo(pass, fits, t0, inputs, orders, m)
    decreases m
  {
    if m > 0 {
      RunToExtend(pass, fits, t0, inputs, orders, o, m - 1);
      assert OrdersAt(orders + [o], m - 1) == OrdersAt(orders, m - 1);
    }
  }

  /** The loop has gone through its first n meets, with orders that fit, and is going on from t with existingMeetId
      at existing. */
  predicate Reached(pass: PassFn, fits: FitsFn, t0: S.Tables,
                    inputs: seq<MeetInput>, orders: seq<Orders>, n: nat, t: S.Tables, existing: int)
  {
    n <= |inputs| && RunTo(pass, t0, inputs, orders, n) == Running(t, existing) && FitsTo(pass, fits, t0, inputs, orders, n)
  }

  /** pass and fits are MeetPass and MeetFits, stated one call at a time. */
  predicate PassesLikeCall(pass: PassFn, fits: FitsFn, t: S.Tables, carried: int, d: MeetInput, o: Orders) {
    pass(t, carried, d, o) == MeetPass(t, carried, d, o) && fits(t, carried, d, o) == MeetFits(t, carried, d, o)
  }

  /** No meet is listed twice, and no team belongs to two meets or twice to one. */
  predicate Separate(meets: seq<M.MeetResults>, teams: seq<seq<T.Team>>) {
    && |teams| == |meets|
    && (forall j, k :: 0 <= j < k < |meets| ==> meets[j] != meets[k])
    && (forall k :: 0 <= k < |teams| ==> DistinctTeams(teams[k]))
    && (forall j, k, a, b :: 0 <= j < |teams| && 0 <= k < |teams| && j != k && 0 <= a < |teams[j]| && 0 <= b < |teams[k]| ==>
          teams[j][a] != teams[k][b])
  }

  function TeamsOf(meets: seq<M.MeetResults>): (r: seq<seq<T.Team>>)
    reads meets
    ensures |r| == |meets| && forall k :: 0 <= k < |meets| ==> r[k] == meets[k].teams
  {
    seq(|meets|, k requires 0 <= k < |meets| reads meets => meets[k].teams)
  }

  function AllTeams(meets: seq<M.MeetResults>): set<T.Team>
    reads meets
  {
    set k, a | 0 <= k < |meets| && 0 <= a < |meets[k].teams| :: meets[k].teams[a]
  }

  function InputsOf(meets: seq<M.MeetResults>): (r: seq<MD.MeetData>)
    reads meets, AllTeams(meets)
    ensures |r| == |meets| && forall k :: 0 <= k < |meets| ==> r[k] == MD.DataOf(meets[k])
  {
    seq(|meets|, k requires 0 <= k < |meets| reads meets, AllTeams(meets) => MD.DataOf(meets[k]))
  }

  /** The meets as call() can be given them. */
  predicate Ready(meets: seq<M.MeetResults>)
    reads meets, AllTeams(meets)
  {
    && Separate(meets, TeamsOf(meets))
    && forall k :: 0 <= k < |meets| ==> MI.ValidDate(meets[k].info.date) && AllTagged(MD.DataOf(meets[k]).teams)
  }

  /** The teams of all the meets. */
  function Flat(teams: seq<seq<T.Team>>): set<T.Team> {
    set k, a | 0 <= k < |teams| && 0 <= a < |teams[k]| :: teams[k][a]
  }

  /** The meets from i on are as call() was given them. */
  ghost predicate Untouched(meets: seq<M.MeetResults>, teams0: seq<seq<T.Team>>, inputs: seq<MeetInput>, i: nat)
    reads meets, Flat(teams0)
  {
    && |teams0| == |meets| && |inputs| == |meets|
    && forall k :: i <= k < |meets| ==> meets[k].teams == teams0[k] && MD.DataOf(meets[k]) == inputs[k]
  }

  /** Reached after all the meets call() looks at: it finishes. */
  lemma RunOfRunning(pass: PassFn, fits: FitsFn, t0: S.Tables,
                     inputs: seq<MeetInput>, orders: seq<Orders>, cancelAt: nat, n: nat, t: S.Tables, existing: int)
    requires n == Min(|inputs|, cancelAt) && Reached(pass, fits, t0, inputs, orders, n, t, existing)
    ensures FitsTo(pass, fits, t0, inputs, orders, Min(|inputs|, cancelAt))
    ensures Run(pass, t0, inputs, orders, cancelAt) == (Finished, t)
  {
  }

  /** One pass of call()'s loop on meet i; the meets after it are not touched. */
  method Step(ghost pass: PassFn, ghost fits: FitsFn,
              db: S.Database, meets: seq<M.MeetResults>, i: nat, carried: int,
              ghost teams0: seq<seq<T.Team>>, ghost t0: S.Tables, ghost inputs: seq<MeetInput>, ghost orders: seq<Orders>)
    returns (stop: Option<Ending>, existing: int, ghost o: Orders)
    requires forall t, e, d, o :: PassesLikeCall(pass, fits, t, e, d, o)
    requires i < |meets| && |orders| == i && Separate(meets, teams0) && Untouched(meets, teams0, inputs, i)
    requires Reached(pass, fits, t0, inputs, orders, i, db.tables, carried)
    requires db.Consistent()
    modifies db, meets[i], meets[i].teams
    ensures Untouched(meets, teams0, inputs, i + 1)
    ensures stop.None? ==> Reached(pass, fits, t0, inputs, orders + [o], i + 1, db.tables, existing)
    ensures stop.Some? ==> RunTo(pass, t0, inputs, orders + [o], i + 1) == Stopped(stop.value, db.tables)
    ensures FitsTo(pass, fits, t0, inputs, orders + [o], i + 1)
    ensures db.autoCommit == old(db.autoCommit) && db.Consistent() && (!db.autoCommit ==> db.committed == old(db.committed))
  {
    ghost var t := db.tables;
    stop, existing, o := ProcessMeet(db, meets[i], carried);
    assert PassesLikeCall(pass, fits, t, carried, inputs[i], o);
    RunToExtend(pass, fits, t0, inputs, orders, o, i);
    assert OrdersAt(orders + [o], i) == o;
  }

  /** call()'s loop, for any pass and fits that are MeetPass and MeetFits, over the meets as inputs describes them. */
  method RunAll(ghost pass: PassFn, ghost fits: FitsFn,
                db: S.Database, meets: seq<M.MeetResults>, cancelAt: nat, ghost teams0: seq<seq<T.Team>>, ghost inputs: seq<MeetInput>)
    returns (r: Ending, ghost orders: seq<Orders>)
    requires forall t, e, d, o :: PassesLikeCall(pass, fits, t, e, d, o)
    requires db.Consistent() && Separate(meets, teams0) && Untouched(meets, teams0, inputs, 0)
    modifies db, meets, Flat(teams0)
    ensures FitsTo(pass, fits, old(db.tables), inputs, orders, Min(|meets|, cancelAt))
    ensures (r, db.tables) == Run(pass, old(db.tables), inputs, orders, cancelAt)
    ensures db.autoCommit == old(db.autoCommit) && db.Consistent() && (!db.autoCommit ==> db.committed == old(db.committed))
  {
    ghost var t0 := db.tables;
    orders := [];
    var i := 0;
    var existing := INVALID_ID;
    while i < |meets| && i < cancelAt
      invariant 0 <= i <= Min(|meets|, cancelAt) && |orders| == i
      invariant Reached(pass, fits, t0, inputs, orders, i, db.tables, existing)
      invariant Untouched(meets, teams0, inputs, i)
      invariant db.autoCommit == old(db.autoCommit) && db.Consistent() && (!db.autoCommit ==> db.committed == old(db.committed))
      decreases |meets| - i
    {
      var stop;
      ghost var o;
      stop, existing, o := Step(pass, fits, db, meets, i, existing, teams0, t0, inputs, orders);
      if stop.Some? {
        RunOfStopped(pass, fits, t0, inputs, orders + [o], cancelAt, i + 1);
        return stop.value, orders + [o];
      }
      orders := orders + [o];
      i := i + 1;
    }
    RunOfRunning(pass, fits, t0, inputs, orders, cancelAt, i, db.tables, existing);
    r := Finished;
  }

  /** call(): every meet, in list order, until the list ends, the task is cancelled (from meet cancelAt on) or a meet
      ends it. inputs are the meets as they were passed in, and orders the iteration orders each pass took. */
  method Call(db: S.Database, meets: seq<M.MeetResults>, cancelAt: nat)
    returns (r: Ending, ghost inputs: seq<MeetInput>, ghost orders: seq<Orders>)
    requires db.Consistent() && Ready(meets)
    modifies db, meets, AllTeams(meets)
    ensures inputs == old(InputsOf(meets))
    ensures FitsTo(MeetPass, MeetFits, old(db.tables), inputs, orders, Min(|meets|, cancelAt))
    ensures (r, db.tables) == Run(MeetPass, old(db.tables), inputs, orders, cancelAt)
    ensures db.autoCommit == old(db.autoCommit) && db.Consistent() && (!db.autoCommit ==> db.committed == old(db.committed))
  {
    ghost var teams0 := TeamsOf(meets);
    assert Flat(teams0) == AllTeams(meets);
    inputs := InputsOf(meets);
    r, orders := RunAll(MeetPass, MeetFits, db, meets, cancelAt, teams0, inputs);
  }

  /** A call() that does not finish ends at the first meet whose pass stops it, with that pass's ending and tables;
      every meet before it was stored. MeetPass never stops with Finished (HowAPassEnds). */
  lemma {:induction false} EndsAtFirstStop(pass: PassFn, t0: S.Tables, inputs: seq<MeetInput>,
                                           orders: seq<Orders>, n: nat)
    requires forall t, e, d, o :: pass(t, e, d, o).stop != Some(Finished)
    requires n <= |inputs| && RunTo(pass, t0, inputs, orders, n).Stopped?
    ensures RunTo(pass, t0, inputs, orders, n).ending != Finished
    ensures exists k :: 0 <= k < n && RunTo(pass, t0, inputs, orders, k).Running? &&
              var r := RunTo(pass, t0, inputs, orders, k);
              var p := pass(r.t, r.existing, inputs[k], OrdersAt(orders, k));
              p.stop == Some(RunTo(pass, t0, inputs, orders, n).ending) && p.t == RunTo(pass, t0, inputs, orders, n).t
    decreases n
  {
    if RunTo(pass, t0, inputs, orders, n - 1).Stopped? {
      EndsAtFirstStop(pass, t0, inputs, orders, n - 1);
    }
  }

  // ----- existingMeetId along a run

  /** What findByTeams answered for each of the first n meets, under the tables its pass started from (None for a
      meet the loop did not reach). */
  function Matches(pass: PassFn, t0: S.Tables, inputs: seq<MeetInput>, orders: seq<Orders>, n: nat): (r: seq<Option<int>>)
    requires n <= |inputs|
    ensures |r| == n
  {
    if n == 0 then []
    else
      Matches(pass, t0, inputs, orders, n - 1) +
      [match RunTo(pass, t0, inputs, orders, n - 1)
       case Running(t, _) => MatchedId(DbMeet(t, WithBye(t, inputs[n - 1])))
       case Stopped(_, _) => None]
  }

  /** existingMeetId after each of the first n meets: for a stored meet, the id StoreMeet updated it under, or
      INVALID_ID when it was inserted (INVALID_ID for a meet the loop did not reach). */
  function StoreIds(pass: PassFn, t0: S.Tables, inputs: seq<MeetInput>, orders: seq<Orders>, n: nat): (r: seq<int>)
    requires n <= |inputs|
    ensures |r| == n
  {
    if n == 0 then []
    else
      StoreIds(pass, t0, inputs, orders, n - 1) +
      [match RunTo(pass, t0, inputs, orders, n - 1)
       case Running(t, e) => pass(t, e, inputs[n - 1], OrdersAt(orders, n - 1)).existing
       case Stopped(_, _) => INVALID_ID]
  }

  /** A run still going after n meets was going after every earlier count. */
  lemma {:induction false} RunningBefore(pass: PassFn, t0: S.Tables, inputs: seq<MeetInput>, orders: seq<Orders>, n: nat)
    requires 0 < n <= |inputs| && RunTo(pass, t0, inputs, orders, n).Running?
    ensures RunTo(pass, t0, inputs, orders, n - 1).Running?
  {
  }

  /** A pass that stores its meet leaves existingMeetId at the id of the meet's match, or where it was without one. */
  ghost predicate CarriesMatch(pass: PassFn) {
    forall t, e, d: MeetInput, o :: pass(t, e, d, o).stop.None? ==> pass(t, e, d, o).existing == NextMeetId(MatchedId(DbMeet(t, WithBye(t, d))), e)
  }

  /** A pass that stores its meet leaves existingMeetId at the id of the meet's match, or INVALID_ID without one. */
  ghost predicate ResetsToMatch(pass: PassFn) {
    forall t, e, d: MeetInput, o :: pass(t, e, d, o).stop.None? ==> pass(t, e, d, o).existing == MeetIdToUpdate(MatchedId(DbMeet(t, WithBye(t, d))))
  }

  lemma MeetPassCarriesMatch()
    ensures CarriesMatch(MeetPass)
  {
    forall t, e, d: MeetInput, o | MeetPass(t, e, d, o).stop.None?
      ensures MeetPass(t, e, d, o).existing == NextMeetId(MatchedId(DbMeet(t, WithBye(t, d))), e)
    {
      HowAPassEnds(t, e, d, o);
    }
  }

  lemma CorrectedMeetPassResetsToMatch()
    ensures ResetsToMatch(CorrectedMeetPass)
  {
    forall t, e, d: MeetInput, o | CorrectedMeetPass(t, e, d, o).stop.None?
      ensures CorrectedMeetPass(t, e, d, o).existing == MeetIdToUpdate(MatchedId(DbMeet(t, WithBye(t, d))))
    {
      HowAPassEnds(t, INVALID_ID, d, o);
    }
  }

  /** For a pass that carries existingMeetId, the ids handed to StoreMeet are CarriedMeetIds of the lookups. */
  lemma {:induction false} CarriedStoreIds(pass: PassFn, t0: S.Tables, inputs: seq<MeetInput>, orders: seq<Orders>, n: nat)
    requires CarriesMatch(pass) && n <= |inputs| && RunTo(pass, t0, inputs, orders, n).Running?
    ensures StoreIds(pass, t0, inputs, orders, n) == CarriedMeetIds(Matches(pass, t0, inputs, orders, n), INVALID_ID)
    ensures RunTo(pass, t0, inputs, orders, n).existing == CarriedAfter(Matches(pass, t0, inputs, orders, n), INVALID_ID)
    decreases n
  {
    if n > 0 {
      RunningBefore(pass, t0, inputs, orders, n);
      CarriedStoreIds(pass, t0, inputs, orders, n - 1);
      var found := Matches(pass, t0, inputs, orders, n);
      assert found[..n - 1] == Matches(pass, t0, inputs, orders, n - 1);
    }
  }

  /** For a pass that starts every meet afresh, the ids handed to StoreMeet are MeetIdsToUpdate of the lookups. */
  lemma {:induction false} ResetStoreIds(pass: PassFn, t0: S.Tables, inputs: seq<MeetInput>, orders: seq<Orders>, n: nat)
    requires ResetsToMatch(pass) && n <= |inputs| && RunTo(pass, t0, inputs, orders, n).Running?
    ensures StoreIds(pass, t0, inputs, orders, n) == MeetIdsToUpdate(Matches(pass, t0, inputs, orders, n))
    decreases n
  {
    if n > 0 {
      RunningBefore(pass, t0, inputs, orders, n);
      ResetStoreIds(pass, t0, inputs, orders, n - 1);
      var found := Matches(pass, t0, inputs, orders, n);
      MeetIdsToUpdateSnoc(Matches(pass, t0, inputs, orders, n - 1), found[n - 1]);
      assert found == Matches(pass, t0, inputs, orders, n - 1) + [found[n - 1]];
    }
  }

  /** call() as written: the ids its stored meets are updated under are CarriedMeetIds of what findByTeams answered,
      from INVALID_ID; a meet without a match takes the id of the last earlier meet that had one. */
  lemma AsWrittenStoreIds(t0: S.Tables, inputs: seq<MeetInput>, orders: seq<Orders>, n: nat)
    requires n <= |inputs| && RunTo(MeetPass, t0, inputs, orders, n).Running?
    ensures StoreIds(MeetPass, t0, inputs, orders, n) == CarriedMeetIds(Matches(MeetPass, t0, inputs, orders, n), INVALID_ID)
  {
    MeetPassCarriesMatch();
    CarriedStoreIds(MeetPass, t0, inputs, orders, n);
  }

  /** The run as evidently intended: each meet's pass starts from INVALID_ID. */
  function CorrectedRun(t0: S.Tables, inputs: seq<MeetInput>, orders: seq<Orders>, cancelAt: nat): (Ending, S.Tables) {
    Run(CorrectedMeetPass, t0, inputs, orders, cancelAt)
  }

  /** In the corrected run the ids stored meets are updated under are MeetIdsToUpdate of what findByTeams answered:
      a meet is updated exactly when its own lookup found a match, and inserted otherwise. */
  lemma CorrectedStoreIds(t0: S.Tables, inputs: seq<MeetInput>, orders: seq<Orders>, n: nat)
    requires n <= |inputs| && RunTo(CorrectedMeetPass, t0, inputs, orders, n).Running?
    ensures StoreIds(CorrectedMeetPass, t0, inputs, orders, n) == MeetIdsToUpdate(Matches(CorrectedMeetPass, t0, inputs, orders, n))
  {
    CorrectedMeetPassResetsToMatch();
    ResetStoreIds(CorrectedMeetPass, t0, inputs, orders, n);
  }
}
