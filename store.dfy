/** The database the tasks write to, as in-memory relations: the Teams, Athletes, Meets, Athlete_Meet and Orphans tables
    with the columns the SQL statements of org.gcsl.db name, and a java.sql.Connection's transaction: the state last
    committed and the auto-commit flag. */
module Store {
  import opened Base
  import opened Utils
  import A = Athletes

  /** Teams (id, name, code). */
  datatype TeamRow = TeamRow(id: int, code: string, name: string)
  /** Athletes (id, name, dob, gender, team_id). */
  datatype AthleteRow = AthleteRow(id: int, name: string, dob: string, gender: string, teamId: int)
  /** Meets (id, meet_date, file_date, team1_id, team2_id, result_type); a null file date is None. */
  datatype MeetRow = MeetRow(id: int, meetDate: string, fileDate: Option<string>, team1Id: int, team2Id: int, resultType: string)
  /** Athlete_Meet (athlete_id, meet_id): one meet's credit for one athlete. */
  datatype CreditRow = CreditRow(athleteId: int, meetId: int)
  /** Orphans (team_id, name, dob, gender, meet_id): a swimmer of a meet with no Athletes row. */
  datatype OrphanRow = OrphanRow(teamId: int, name: string, dob: string, gender: string, meetId: int)

  /** The tables in row order, and the next id an insert generates. AthleteDbo.remove and OrphanDbo.removeOrphans are
      not part of this model: the calls made to them are kept, in order, with the other writes. */
  datatype Tables = Tables(
    teams: seq<TeamRow>,
    athletes: seq<AthleteRow>,
    meets: seq<MeetRow>,
    credits: seq<CreditRow>,
    orphans: seq<OrphanRow>,
    nextId: int,
    removedAthletes: seq<A.Athlete>,
    removedOrphansOf: seq<int>)

  /** Ids as the database generates them: positive, increasing in row order and below nextId. So no row has
      INVALID_ID, a new row's id is new, and an id names at most one row of its table. */
  predicate IdsGenerated(ids: seq<int>, nextId: int) {
    && (forall k :: 0 <= k < |ids| ==> 1 <= ids[k] < nextId)
    && (forall j, k :: 0 <= j < k < |ids| ==> ids[j] < ids[k])
  }

  function TeamIds(t: Tables): seq<int> { seq(|t.teams|, k requires 0 <= k < |t.teams| => t.teams[k].id) }
  function AthleteIds(t: Tables): seq<int> { seq(|t.athletes|, k requires 0 <= k < |t.athletes| => t.athletes[k].id) }
  function MeetIds(t: Tables): seq<int> { seq(|t.meets|, k requires 0 <= k < |t.meets| => t.meets[k].id) }

  predicate WellFormed(t: Tables) {
    && t.nextId >= 1
    && IdsGenerated(TeamIds(t), t.nextId)
    && IdsGenerated(AthleteIds(t), t.nextId)
    && IdsGenerated(MeetIds(t), t.nextId)
  }

  /** A row appended with the next id keeps the ids generated, once nextId moves past it. */
  lemma IdsGeneratedSnoc(ids: seq<int>, nextId: int)
    requires IdsGenerated(ids, nextId) && nextId >= 1
    ensures IdsGenerated(ids + [nextId], nextId + 1)
  {
  }

  /** Distinct elements, listed exactly once each: the order a HashSet's iterator visits a set in. Which order is
      not specified, so the operations that iterate over a set report the order they took. */
  predicate Enumerates<T>(o: seq<T>, s: set<T>) {
    && (forall k :: 0 <= k < |o| ==> o[k] in s)
    && (forall a :: a in s ==> a in o)
    && (forall j, k :: 0 <= j < k < |o| ==> o[j] != o[k])
  }

  /** An enumeration lists as many elements as the set has. */
  lemma {:induction false} EnumerationSize<X>(order: seq<X>, s: set<X>)
    requires Enumerates(order, s)
    ensures |order| == |s|
    decreases |order|
  {
    if order != [] {
      var last := order[|order| - 1];
      var rest := order[..|order| - 1];
      assert forall k :: 0 <= k < |rest| ==> rest[k] == order[k];
      assert Enumerates(rest, s - {last}) by {
        forall a | a in s - {last} ensures a in rest {
          var k :| 0 <= k < |order| && order[k] == a;
          assert k != |order| - 1;
        }
      }
      EnumerationSize(rest, s - {last});
    }
  }

  /** java.sql.Connection: the tables as the transaction sees them, the state last committed, and the auto-commit flag. */
  class Database {
    var tables: Tables
    var committed: Tables
    var autoCommit: bool

    /** Under auto-commit every statement is lasting as soon as it runs: nothing is pending. */
    predicate Consistent()
      reads this
    {
      autoCommit ==> committed == tables
    }

    /** A connection as DriverManager hands it out: auto-commit on, nothing pending. */
    constructor (t: Tables)
      ensures tables == t && committed == t && autoCommit
    {
      tables := t;
      committed := t;
      autoCommit := true;
    }

    /** executeUpdate: the statement's effect is visible at once, and lasting at once under auto-commit. */
    method Write(t: Tables)
      requires Consistent()
      modifies this
      ensures tables == t && autoCommit == old(autoCommit) && Consistent()
      ensures !autoCommit ==> committed == old(committed)
    {
      tables := t;
      if autoCommit {
        committed := t;
      }
    }

    /** commit: what the transaction wrote becomes lasting. */
    method Commit()
      modifies this
      ensures committed == tables && tables == old(tables) && autoCommit == old(autoCommit)
    {
      committed := tables;
    }

    /** rollback: what the transaction wrote is undone. */
    method Rollback()
      modifies this
      ensures tables == old(committed) && committed == old(committed) && autoCommit == old(autoCommit)
    {
      tables := committed;
    }

    /** setAutoCommit: switching auto-commit on commits the pending transaction; setting the mode it already has
        changes nothing. */
    method SetAutoCommit(on: bool)
      requires Consistent()
      modifies this
      ensures autoCommit == on && tables == old(tables) && Consistent()
      ensures committed == if on && !old(autoCommit) then tables else old(committed)
    {
      if on && !autoCommit {
        committed := tables;
      }
      autoCommit := on;
    }
  }
}
