/** org.gcsl.RostersToDbTask: the parsed rosters written to the database, one team per transaction. A team is found
    (by id, or by code while it has none) or inserted; its athletes then get the team's database id, and its roster is
    either inserted whole or merged with the stored one: stored athletes missing from the new roster are removed, new
    athletes are inserted, the others are left alone. */
module RostersToDb {
  import opened Base
  import opened Utils
  import opened Athletes
  import T = Teams
  import S = Store
  import AD = AthleteDbo
  import TD = TeamDbo

  /** A team as call() sees it when its turn comes: its key and the athletes of its set. */
  datatype TeamInput = TeamInput(key: T.TeamKey, athletes: set<Athlete>)

  /** The orders in which one team's HashSets were iterated: the athletes removed, then the athletes inserted. */
  datatype Orders = Orders(deleted: seq<Athlete>, added: seq<Athlete>)

  /** The tables after one AthleteDbo.insert per athlete, in the given order. */
  function InsertAll(t: S.Tables, order: seq<Athlete>): (r: S.Tables)
    ensures S.WellFormed(t) ==> S.WellFormed(r)
    ensures r.nextId == t.nextId + |order|
    ensures r.teams == t.teams && r.meets == t.meets && r.credits == t.credits && r.orphans == t.orphans
    ensures r.removedAthletes == t.removedAthletes && r.removedOrphansOf == t.removedOrphansOf
    decreases |order|
  {
    if order == [] then t else AD.WithAthlete(InsertAll(t, order[..|order| - 1]), order[|order| - 1])
  }

  /** The tables after one AthleteDbo.remove per athlete, in the given order. */
  function RemoveAll(t: S.Tables, order: seq<Athlete>): (r: S.Tables)
    ensures r.removedAthletes == t.removedAthletes + order
    ensures r.(removedAthletes := t.removedAthletes) == t
  {
    t.(removedAthletes := t.removedAthletes + order)
  }

  /** Inserting athletes leaves every athlete that was found where it was, and makes exactly the inserted ones of the
      others found. */
  lemma {:induction false} InsertAllFinds(t: S.Tables, order: seq<Athlete>, b: Athlete)
    ensures AD.Find(t, b).Some? ==> AD.Find(InsertAll(t, order), b) == AD.Find(t, b)
    ensures AD.Find(t, b).None? ==> (AD.Find(InsertAll(t, order), b).Some? <==> b in order)
    decreases |order|
  {
    if order != [] {
      var front := order[..|order| - 1];
      var last := order[|order| - 1];
      InsertAllFinds(t, front, b);
      AD.FindAfterInsert(InsertAll(t, front), last, b);
      assert order == front + [last];
    }
  }

  /** The loop of mergeAthletes: deleteMeCache starts as the stored roster and loses each new athlete it holds; the new
      athletes it did not hold go to addMeCache. */
  method MergeCaches(existing: set<Athlete>, incoming: set<Athlete>) returns (deleteMe: set<Athlete>, addMe: set<Athlete>)
    ensures deleteMe == existing - incoming && addMe == incoming - existing
    ensures deleteMe * addMe == {} && (existing - deleteMe) + addMe == incoming
  {
    deleteMe, addMe := existing, {};
    var rest := incoming;
    while rest != {}
      invariant rest <= incoming
      invariant deleteMe == existing - (incoming - rest)
      invariant addMe == (incoming - rest) - existing
      decreases |rest|
    {
      var a :| a in rest;
      CacheStep(existing, incoming, rest, a);
      if a in deleteMe {
        deleteMe := deleteMe - {a};
      } else {
        addMe := addMe + {a};
      }
      rest := rest - {a};
    }
    assert incoming - rest == incoming;
  }

  /** One turn of mergeAthletes' loop keeps both caches as the part of the roster seen so far makes them. */
  lemma CacheStep(existing: set<Athlete>, incoming: set<Athlete>, rest: set<Athlete>, a: Athlete)
    requires a in rest && rest <= incoming
    ensures a in existing - (incoming - rest) <==> a in existing
    ensures a in existing ==> && (existing - (incoming - rest)) - {a} == existing - (incoming - (rest - {a}))
                              && (incoming - rest) - existing == (incoming - (rest - {a})) - existing
    ensures a !in existing ==> && existing - (incoming - rest) == existing - (incoming - (rest - {a}))
                               && ((incoming - rest) - existing) + {a} == (incoming - (rest - {a})) - existing
  {
  }

  /** insertAthletes: one insert per athlete of the set, in the order the set was iterated. */
  method InsertAthletes(db: S.Database, athletes: set<Athlete>) returns (ghost order: seq<Athlete>)
    requires db.Consistent()
    modifies db
    ensures S.Enumerates(order, athletes)
    ensures db.tables == InsertAll(old(db.tables), order)
    ensures db.autoCommit == old(db.autoCommit) && db.Consistent() && (!db.autoCommit ==> db.committed == old(db.committed))
  {
    order := [];
    ghost var t0 := db.tables;
    var rest := athletes;
    while rest != {}
      invariant rest <= athletes
      invariant S.Enumerates(order, athletes - rest)
      invariant db.tables == InsertAll(t0, order)
      invariant db.autoCommit == old(db.autoCommit) && db.Consistent() && (!db.autoCommit ==> db.committed == old(db.committed))
      decreases |rest|
    {
      var a :| a in rest;
      AD.Insert(db, a);
      assert (order + [a])[..|order|] == order;
      order := order + [a];
      rest := rest - {a};
    }
  }

  /** deleteAthletes: auto-commit switched off, then one remove per athlete of the set, in the order it was iterated. */
  method DeleteAthletes(db: S.Database, athletes: set<Athlete>) returns (ghost order: seq<Athlete>)
    requires db.Consistent()
    modifies db
    ensures S.Enumerates(order, athletes)
    ensures db.tables == RemoveAll(old(db.tables), order)
    ensures !db.autoCommit && db.committed == old(db.committed)
  {
    db.SetAutoCommit(false);
    order := [];
    ghost var t0 := db.tables;
    var rest := athletes;
    while rest != {}
      invariant rest <= athletes
      invariant S.Enumerates(order, athletes - rest)
      invariant db.tables == RemoveAll(t0, order)
      invariant !db.autoCommit && db.committed == old(db.committed)
      decreases |rest|
    {
      var a :| a in rest;
      AD.Remove(db, a);
      order := order + [a];
      rest := rest - {a};
    }
  }

  /** mergeAthletes: the stored athletes the new roster lacks are removed, then the new athletes not stored are
      inserted; an empty cache is not passed on. */
  method MergeAthletes(db: S.Database, existing: set<Athlete>, incoming: set<Athlete>) returns (ghost o: Orders)
    requires db.Consistent() && !db.autoCommit
    modifies db
    ensures S.Enumerates(o.deleted, existing - incoming) && S.Enumerates(o.added, incoming - existing)
    ensures db.tables == InsertAll(RemoveAll(old(db.tables), o.deleted), o.added)
    ensures !db.autoCommit && db.committed == old(db.committed)
  {
    var deleteMe, addMe := MergeCaches(existing, incoming);
    ghost var t0 := db.tables;
    ghost var deleted: seq<Athlete> := [];
    if |deleteMe| > 0 {
      deleted := DeleteAthletes(db, deleteMe);
    } else {
      assert t0.removedAthletes + [] == t0.removedAthletes;
    }
    assert db.tables == RemoveAll(t0, deleted);
    ghost var added: seq<Athlete> := [];
    if |addMe| > 0 {
      added := InsertAthletes(db, addMe);
    }
    o := Orders(deleted, added);
  }

  /** The team the rest of one pass works with: the stored one, or else the one insert returns; None where insert
      finds nothing either, and dbTeam.getId() throws. */
  function DbTeam(t: S.Tables, key: T.TeamKey): (r: Option<T.TeamKey>)
    ensures TD.Find(t, key).Some? ==> r == TD.Find(t, key)
    ensures key.id == INVALID_ID ==> r.Some? && r.value.code == key.code
    ensures TD.Find(t, key).None? && key.id == INVALID_ID ==> r == Some(T.TeamKey(t.nextId, key.code, key.name))
  {
    TD.InsertFinds(t, key);
    match TD.Find(t, key)
    case Some(k) => Some(k)
    case None => TD.Find(TD.WithTeam(t, key.code, key.name), key)
  }

  /** The tables once the team has a row: as they were if it was found, with the inserted row if not. */
  function WithDbTeam(t: S.Tables, key: T.TeamKey): S.Tables {
    if TD.Find(t, key).Some? then t else TD.WithTeam(t, key.code, key.name)
  }

  /** The athletes of dbTeam: those stored under its id when it was found, none when it was just inserted. */
  function Existing(t: S.Tables, key: T.TeamKey): set<Athlete>
    requires DbTeam(t, key).Some?
  {
    if TD.Find(t, key).None? then {} else TD.RetrieveAthletes(t, DbTeam(t, key).value.id).Keys
  }

  /** The parsed athletes once setId has tagged them with dbTeam's id. */
  function Incoming(t: S.Tables, input: TeamInput): set<Athlete>
    requires DbTeam(t, input.key).Some?
  {
    T.RetaggedKeys(input.athletes, DbTeam(t, input.key).value.id)
  }

  /** The orders enumerate what mergeAthletes removes and inserts; with no stored athletes that is nothing removed and
      the whole roster inserted, which is what insertAthletes does. */
  predicate OrdersFit(t: S.Tables, input: TeamInput, o: Orders)
    requires DbTeam(t, input.key).Some?
  {
    && S.Enumerates(o.deleted, Existing(t, input.key) - Incoming(t, input))
    && S.Enumerates(o.added, Incoming(t, input) - Existing(t, input.key))
  }

  /** The writes of one pass, before its commit. */
  function TeamWrites(t: S.Tables, input: TeamInput, o: Orders): (r: S.Tables)
    requires DbTeam(t, input.key).Some?
    ensures S.WellFormed(t) ==> S.WellFormed(r)
    ensures r.teams == WithDbTeam(t, input.key).teams
    ensures r.meets == t.meets && r.credits == t.credits && r.orphans == t.orphans && r.removedOrphansOf == t.removedOrphansOf
  {
    InsertAll(RemoveAll(WithDbTeam(t, input.key), o.deleted), o.added)
  }

  /** The two branches of call() are one: with no stored athletes, the orders that fit remove nothing and insert every
      parsed athlete, tagged with the team's id. */
  lemma NoStoredAthletesInsertsAll(t: S.Tables, input: TeamInput, o: Orders)
    requires DbTeam(t, input.key).Some? && OrdersFit(t, input, o)
    requires Existing(t, input.key) == {}
    ensures o.deleted == [] && S.Enumerates(o.added, Incoming(t, input))
    ensures forall k :: 0 <= k < |o.added| ==> o.added[k].teamId == DbTeam(t, input.key).value.id
  {
    S.EnumerationSize(o.deleted, Existing(t, input.key) - Incoming(t, input));
    assert Incoming(t, input) - Existing(t, input.key) == Incoming(t, input);
  }

  /** After one pass, the team's stored athletes, less those handed to AthleteDbo.remove, are exactly the parsed
      roster; an athlete on both rosters keeps its row and id. A just-inserted team starts from no stored athletes,
      which holds when no row yet refers to the id it gets. */
  lemma StepLeavesParsedRoster(t: S.Tables, input: TeamInput, o: Orders, a: Athlete)
    requires DbTeam(t, input.key).Some? && DbTeam(t, input.key).value.id != INVALID_ID && OrdersFit(t, input, o)
    requires TD.Find(t, input.key).None? ==> forall k :: 0 <= k < |t.athletes| ==> t.athletes[k].teamId != t.nextId
    ensures var id := DbTeam(t, input.key).value.id;
            var after := TD.RetrieveAthletes(TeamWrites(t, input, o), id);
            && (a in after && a !in o.deleted <==> a in Incoming(t, input))
            && (a in Existing(t, input.key) && a in Incoming(t, input) ==> after[a] == TD.RetrieveAthletes(t, id)[a])
  {
    var id := DbTeam(t, input.key).value.id;
    var t1 := WithDbTeam(t, input.key);
    var t2 := RemoveAll(t1, o.deleted);
    var t3 := TeamWrites(t, input, o);
    assert t2.athletes == t1.athletes == t.athletes;
    TD.RetrieveAgreesWithFind(t, id, a);
    TD.RetrieveAgreesWithFind(t3, id, a);
    InsertAllFinds(t2, o.added, a);
    assert forall x :: x in Incoming(t, input) ==> x.teamId == id;
    if TD.Find(t, input.key).None? && a.teamId == id {
      assert id == t.nextId;
      assert AD.Find(t, a).None?;
    }
    if a in o.deleted {
      assert a in Existing(t, input.key);
    }
  }

  /** One pass of the loop up to its commit: the tables it writes, or, where dbTeam is null, the tables with the
      inserted row and nothing else. */
  datatype Pass = Wrote(t: S.Tables) | NoTeam(t: S.Tables)

  function TeamPass(t: S.Tables, input: TeamInput, o: Orders): (r: Pass)
    ensures r.NoTeam? <==> DbTeam(t, input.key).None?
    ensures r.NoTeam? ==> input.key.id != INVALID_ID
  {
    if DbTeam(t, input.key).None? then NoTeam(TD.WithTeam(t, input.key.code, input.key.name))
    else Wrote(TeamWrites(t, input, o))
  }

  /** The orders of a pass that finds its team fit that pass. */
  predicate PassFits(t: S.Tables, input: TeamInput, o: Orders) {
    DbTeam(t, input.key).Some? ==> OrdersFit(t, input, o)
  }

  /** How call() ends: every team done (or cancelled), rolled back after an SQLException, or with an escaping
      exception. It returns null in each case; only the status message tells them apart. */
  datatype Ending = Finished | RolledBack | Threw(error: Error)

  /** Where the loop stands: going on from the committed tables, or stopped with the tables it leaves committed. */
  datatype RunState = Running(t: S.Tables) | Stopped(ending: Ending, t: S.Tables)

  function OrdersAt(orders: seq<Orders>, i: nat): Orders {
    if i < |orders| then orders[i] else Orders([], [])
  }

  /** The loop after its first n teams, from tables t0 with c0 committed, each pass as pass does it; the commit of
      team failAt throws. A NullPointerException escapes, and the finally block's setAutoCommit(true) commits what
      was written; an SQLException rolls back to the last commit. */
  function RunTo(pass: (S.Tables, TeamInput, Orders) -> Pass, t0: S.Tables, c0: S.Tables, inputs: seq<TeamInput>,
                 orders: seq<Orders>, failAt: nat, n: nat): RunState
    requires n <= |inputs|
  {
    if n == 0 then Running(t0)
    else
      match RunTo(pass, t0, c0, inputs, orders, failAt, n - 1)
      case Stopped(e, t) => Stopped(e, t)
      case Running(t) =>
        var i := n - 1;
        match pass(t, inputs[i], OrdersAt(orders, i))
        case NoTeam(written) => Stopped(Threw(NullPointer), written)
        case Wrote(written) => if i == failAt then Stopped(RolledBack, if i == 0 then c0 else t) else Running(written)
  }

  /** Each team's orders fit the tables its pass started from. */
  predicate FitsTo(pass: (S.Tables, TeamInput, Orders) -> Pass, fits: (S.Tables, TeamInput, Orders) -> bool, t0: S.Tables,
                   c0: S.Tables, inputs: seq<TeamInput>, orders: seq<Orders>, failAt: nat, n: nat)
    requires n <= |inputs|
  {
    n == 0 ||
    (&& FitsTo(pass, fits, t0, c0, inputs, orders, failAt, n - 1)
     && match RunTo(pass, t0, c0, inputs, orders, failAt, n - 1)
        case Stopped(_, _) => true
        case Running(t) => fits(t, inputs[n - 1], OrdersAt(orders, n - 1)))
  }

  function Min(a: int, b: int): int { if a <= b then a else b }

  /** call() with isCancelled() holding from team cancelAt on: how it ends and the tables it leaves committed. */
  function Run(pass: (S.Tables, TeamInput, Orders) -> Pass, t0: S.Tables, c0: S.Tables, inputs: seq<TeamInput>,
               orders: seq<Orders>, cancelAt: nat, failAt: nat): (Ending, S.Tables)
  {
    match RunTo(pass, t0, c0, inputs, orders, failAt, Min(|inputs|, cancelAt))
    case Running(t) => (Finished, t)
    case Stopped(e, t) => (e, t)
  }

  /** Once stopped, the loop stays stopped where it was: later teams are not looked at. */
  lemma {:induction false} StoppedPersists(pass: (S.Tables, TeamInput, Orders) -> Pass, fits: (S.Tables, TeamInput, Orders) -> bool,
                                           t0: S.Tables, c0: S.Tables, inputs: seq<TeamInput>, orders: seq<Orders>, failAt: nat, k: nat, n: nat)
    requires k <= n <= |inputs| && RunTo(pass, t0, c0, inputs, orders, failAt, k).Stopped?
    ensures RunTo(pass, t0, c0, inputs, orders, failAt, n) == RunTo(pass, t0, c0, inputs, orders, failAt, k)
    ensures FitsTo(pass, fits, t0, c0, inputs, orders, failAt, n) == FitsTo(pass, fits, t0, c0, inputs, orders, failAt, k)
    decreases n
  {
    if n > k {
      StoppedPersists(pass, fits, t0, c0, inputs, orders, failAt, k, n - 1);
    }
  }

  /** Stopped at team k - 1: call() ends as that pass did, whatever the later teams hold. */
  lemma RunOfStopped(pass: (S.Tables, TeamInput, Orders) -> Pass, fits: (S.Tables, TeamInput, Orders) -> bool,
                     t0: S.Tables, c0: S.Tables, inputs: seq<TeamInput>, orders: seq<Orders>, cancelAt: nat, failAt: nat, k: nat)
    requires k <= Min(|inputs|, cancelAt) && RunTo(pass, t0, c0, inputs, orders, failAt, k).Stopped?
    requires FitsTo(pass, fits, t0, c0, inputs, orders, failAt, k)
    ensures FitsTo(pass, fits, t0, c0, inputs, orders, failAt, Min(|inputs|, cancelAt))
    ensures Run(pass, t0, c0, inputs, orders, cancelAt, failAt) ==
              (RunTo(pass, t0, c0, inputs, orders, failAt, k).ending, RunTo(pass, t0, c0, inputs, orders, failAt, k).t)
  {
    StoppedPersists(pass, fits, t0, c0, inputs, orders, failAt, k, Min(|inputs|, cancelAt));
  }

  lemma RunOfRunning(pass: (S.Tables, TeamInput, Orders) -> Pass, t0: S.Tables, c0: S.Tables, inputs: seq<TeamInput>,
                     orders: seq<Orders>, cancelAt: nat, failAt: nat, n: nat)
    requires n == Min(|inputs|, cancelAt) && RunTo(pass, t0, c0, inputs, orders, failAt, n).Running?
    ensures Run(pass, t0, c0, inputs, orders, cancelAt, failAt) == (Finished, RunTo(pass, t0, c0, inputs, orders, failAt, n).t)
  {
  }

  /** An SQLException at the commit of a team undoes that team's writes only: the teams before it stay committed, and
      no later team is looked at. */
  lemma FailureUndoesOnlyThatTeam(pass: (S.Tables, TeamInput, Orders) -> Pass, t0: S.Tables, c0: S.Tables, inputs: seq<TeamInput>,
                                  orders: seq<Orders>, cancelAt: nat, failAt: nat)
    requires failAt < Min(|inputs|, cancelAt)
    requires RunTo(pass, t0, c0, inputs, orders, failAt, failAt).Running?
    requires pass(RunTo(pass, t0, c0, inputs, orders, failAt, failAt).t, inputs[failAt], OrdersAt(orders, failAt)).Wrote?
    ensures Run(pass, t0, c0, inputs, orders, cancelAt, failAt) ==
              (RolledBack, if failAt == 0 then c0 else RunTo(pass, t0, c0, inputs, orders, failAt, failAt).t)
  {
    StoppedPersists(pass, (t, i, o) => true, t0, c0, inputs, orders, failAt, failAt + 1, Min(|inputs|, cancelAt));
  }

  /** Cancellation stops the loop before team cancelAt: the run is the run of the teams before it. */
  lemma {:induction false} CancelKeepsPrefix(pass: (S.Tables, TeamInput, Orders) -> Pass, t0: S.Tables, c0: S.Tables,
                                             inputs: seq<TeamInput>, orders: seq<Orders>, failAt: nat, n: nat)
    requires n <= |inputs|
    ensures RunTo(pass, t0, c0, inputs[..n], orders, failAt, n) == RunTo(pass, t0, c0, inputs, orders, failAt, n)
    decreases n
  {
    if n > 0 {
      CancelKeepsPrefix(pass, t0, c0, inputs, orders, failAt, n - 1);
      RunToOfPrefix(pass, t0, c0, inputs[..n], inputs[..n - 1], orders, failAt, n - 1);
      assert inputs[..n][n - 1] == inputs[n - 1];
    }
  }

  /** The first n passes look at the first n teams only. */
  lemma {:induction false} RunToOfPrefix(pass: (S.Tables, TeamInput, Orders) -> Pass, t0: S.Tables, c0: S.Tables,
                                         inputs: seq<TeamInput>, shorter: seq<TeamInput>, orders: seq<Orders>, failAt: nat, n: nat)
    requires n <= |shorter| <= |inputs| && shorter == inputs[..|shorter|]
    ensures RunTo(pass, t0, c0, inputs, orders, failAt, n) == RunTo(pass, t0, c0, shorter, orders, failAt, n)
    decreases n
  {
    if n > 0 {
      RunToOfPrefix(pass, t0, c0, inputs, shorter, orders, failAt, n - 1);
      assert shorter[n - 1] == inputs[n - 1];
    }
  }

  /** Orders given for later teams change nothing about the earlier ones. */
  lemma {:induction false} RunToExtend(pass: (S.Tables, TeamInput, Orders) -> Pass, fits: (S.Tables, TeamInput, Orders) -> bool,
                                       t0: S.Tables, c0: S.Tables, inputs: seq<TeamInput>, orders: seq<Orders>, o: Orders, failAt: nat, m: nat)
    requires m <= |inputs| && m <= |orders|
    ensures RunTo(pass, t0, c0, inputs, orders + [o], failAt, m) == RunTo(pass, t0, c0, inputs, orders, failAt, m)
    ensures FitsTo(pass, fits, t0, c0, inputs, orders + [o], failAt, m) == FitsTo(pass, fits, t0, c0, inputs, orders, failAt, m)
    decreases m
  {
    if m > 0 {
      RunToExtend(pass, fits, t0, c0, inputs, orders, o, failAt, m - 1);
      assert OrdersAt(orders + [o], m - 1) == OrdersAt(orders, m - 1);
    }
  }

  predicate Distinct(teams: seq<T.Team>) {
    forall j, k :: 0 <= j < k < |teams| ==> teams[j] != teams[k]
  }

  function InputOf(team: T.Team): TeamInput
    reads team
  {
    TeamInput(team.Key(), team.athletes.Keys)
  }

  function InputsOf(teams: seq<T.Team>): (r: seq<TeamInput>)
    reads teams
    ensures |r| == |teams| && forall k :: 0 <= k < |teams| ==> r[k] == InputOf(teams[k])
  {
    seq(|teams|, k requires 0 <= k < |teams| reads teams => InputOf(teams[k]))
  }

  /** The try block's body for one team, up to its commit: found or inserted, setId, then insert or merge. */
  method ProcessTeam(db: S.Database, team: T.Team) returns (found: bool, ghost o: Orders)
    requires db.Consistent() && !db.autoCommit
    modifies db, team
    ensures found == TeamPass(old(db.tables), old(InputOf(team)), o).Wrote?
    ensures PassFits(old(db.tables), old(InputOf(team)), o)
    ensures db.tables == TeamPass(old(db.tables), old(InputOf(team)), o).t
    ensures found ==> team.id == DbTeam(old(db.tables), old(team.Key())).value.id && team.Tagged()
    ensures !db.autoCommit && db.committed == old(db.committed)
  {
    ghost var t := db.tables;
    ghost var input := InputOf(team);
    var dbTeam := TD.Find(db.tables, team.Key());
    var existing: set<Athlete> := {};
    if dbTeam.None? {
      dbTeam := TD.Insert(db, team.Key());
    } else {
      existing := TD.RetrieveAthletes(db.tables, dbTeam.value.id).Keys;
    }
    if dbTeam.None? {
      return false, Orders([], []);
    }
    found := true;
    assert db.tables == WithDbTeam(t, input.key) && existing == Existing(t, input.key);
    team.SetId(dbTeam.value.id);
    assert team.athletes.Keys == Incoming(t, input);
    o := WriteRoster(db, existing, team.athletes.Keys, t, input);
  }

  /** The end of the try block: insertAthletes when the team has no stored athletes, mergeAthletes otherwise. */
  method WriteRoster(db: S.Database, existing: set<Athlete>, incoming: set<Athlete>, ghost t: S.Tables, ghost input: TeamInput)
    returns (ghost o: Orders)
    requires db.Consistent() && !db.autoCommit && DbTeam(t, input.key).Some?
    requires db.tables == WithDbTeam(t, input.key)
    requires existing == Existing(t, input.key) && incoming == Incoming(t, input)
    modifies db
    ensures OrdersFit(t, input, o) && db.tables == TeamWrites(t, input, o)
    ensures !db.autoCommit && db.committed == old(db.committed)
  {
    if |existing| == 0 {
      assert RemoveAll(db.tables, []) == db.tables;
      var added := InsertAthletes(db, incoming);
      o := Orders([], added);
    } else {
      o := MergeAthletes(db, existing, incoming);
    }
  }

  /** pass and fits are TeamPass and PassFits. Stated one call at a time, so that a loop over the teams can speak of
      them without their definitions being spelled out in it. */
  predicate PassesLikeCall(pass: (S.Tables, TeamInput, Orders) -> Pass, fits: (S.Tables, TeamInput, Orders) -> bool,
                           t: S.Tables, input: TeamInput, o: Orders) {
    pass(t, input, o) == TeamPass(t, input, o) && fits(t, input, o) == PassFits(t, input, o)
  }

  /** pass and fits are TeamPass and PassFits on every argument. */
  ghost predicate LikeCall(pass: (S.Tables, TeamInput, Orders) -> Pass, fits: (S.Tables, TeamInput, Orders) -> bool) {
    forall t, input, o :: PassesLikeCall(pass, fits, t, input, o)
  }

  /** The teams from i on still hold what inputs says they held when call() began. */
  predicate Untouched(teams: seq<T.Team>, inputs: seq<TeamInput>, i: nat)
    reads teams
  {
    |inputs| == |teams| && forall k :: i <= k < |teams| ==> InputOf(teams[k]) == inputs[k]
  }

  /** One pass of call()'s loop on team i, its commit included. */
  method Step(ghost pass: (S.Tables, TeamInput, Orders) -> Pass, ghost fits: (S.Tables, TeamInput, Orders) -> bool,
              db: S.Database, teams: seq<T.Team>, i: nat, failAt: nat,
              ghost t0: S.Tables, ghost c0: S.Tables, ghost inputs: seq<TeamInput>, ghost orders: seq<Orders>)
    returns (stop: Option<Ending>, ghost o: Orders)
    requires LikeCall(pass, fits)
    requires i < |teams| && |orders| == i && Distinct(teams) && Untouched(teams, inputs, i)
    requires Reached(pass, fits, t0, c0, inputs, orders, failAt, i, db.tables)
    requires !db.autoCommit && db.committed == if i == 0 then c0 else db.tables
    modifies db, teams[i]
    ensures stop.None? ==> Reached(pass, fits, t0, c0, inputs, orders + [o], failAt, i + 1, db.tables)
    ensures stop.None? ==> !db.autoCommit && db.committed == db.tables
    ensures stop.Some? ==> RunTo(pass, t0, c0, inputs, orders + [o], failAt, i + 1) == Stopped(stop.value, db.tables)
    ensures stop.Some? ==> db.autoCommit && db.committed == db.tables
    ensures FitsTo(pass, fits, t0, c0, inputs, orders + [o], failAt, i + 1)
    ensures Untouched(teams, inputs, i + 1)
  {
    ghost var t := db.tables;
    var found;
    found, o := ProcessTeam(db, teams[i]);
    assert PassesLikeCall(pass, fits, t, inputs[i], o);
    RunToExtend(pass, fits, t0, c0, inputs, orders, o, failAt, i);
    assert OrdersAt(orders + [o], i) == o;
    if !found {
      db.SetAutoCommit(true);
      return Some(Threw(NullPointer)), o;
    }
    if i == failAt {
      db.Rollback();
      db.SetAutoCommit(true);
      return Some(RolledBack), o;
    }
    db.Commit();
    stop := None;
  }

  /** The loop has gone through its first n teams, with orders that fit, and is going on from t. */
  predicate Reached(pass: (S.Tables, TeamInput, Orders) -> Pass, fits: (S.Tables, TeamInput, Orders) -> bool, t0: S.Tables,
                    c0: S.Tables, inputs: seq<TeamInput>, orders: seq<Orders>, failAt: nat, n: nat, t: S.Tables)
  {
    n <= |inputs| && RunTo(pass, t0, c0, inputs, orders, failAt, n) == Running(t) && FitsTo(pass, fits, t0, c0, inputs, orders, failAt, n)
  }

  /** call()'s loop, for any pass and fits that are TeamPass and PassFits. */
  method RunAll(ghost pass: (S.Tables, TeamInput, Orders) -> Pass, ghost fits: (S.Tables, TeamInput, Orders) -> bool,
                db: S.Database, teams: seq<T.Team>, cancelAt: nat, failAt: nat)
    returns (r: Ending, ghost inputs: seq<TeamInput>, ghost orders: seq<Orders>)
    requires LikeCall(pass, fits)
    requires db.Consistent() && Distinct(teams)
    modifies db, teams
    ensures inputs == old(InputsOf(teams))
    ensures FitsTo(pass, fits, old(db.tables), old(db.committed), inputs, orders, failAt, Min(|teams|, cancelAt))
    ensures (r, db.tables) == Run(pass, old(db.tables), old(db.committed), inputs, orders, cancelAt, failAt)
    ensures db.autoCommit && db.committed == db.tables
  {
    ghost var t0, c0 := db.tables, db.committed;
    inputs := InputsOf(teams);
    db.SetAutoCommit(false);
    var stop;
    stop, orders := Loop(pass, fits, db, teams, cancelAt, failAt, t0, c0, inputs);
    if stop.Some? {
      return stop.value, inputs, orders;
    }
    db.SetAutoCommit(true);
    r := Finished;
  }

  /** The for loop itself, with auto-commit off: the ending of the pass that stops it, or None once the teams run out
      or the task is cancelled, with auto-commit still off. */
  method Loop(ghost pass: (S.Tables, TeamInput, Orders) -> Pass, ghost fits: (S.Tables, TeamInput, Orders) -> bool,
              db: S.Database, teams: seq<T.Team>, cancelAt: nat, failAt: nat,
              ghost t0: S.Tables, ghost c0: S.Tables, ghost inputs: seq<TeamInput>)
    returns (stop: Option<Ending>, ghost orders: seq<Orders>)
    requires LikeCall(pass, fits) && Distinct(teams) && Untouched(teams, inputs, 0)
    requires db.tables == t0 && db.committed == c0 && !db.autoCommit
    modifies db, teams
    ensures FitsTo(pass, fits, t0, c0, inputs, orders, failAt, Min(|teams|, cancelAt))
    ensures stop.Some? ==> (stop.value, db.tables) == Run(pass, t0, c0, inputs, orders, cancelAt, failAt)
    ensures stop.Some? ==> db.autoCommit && db.committed == db.tables
    ensures stop.None? ==> (Finished, db.tables) == Run(pass, t0, c0, inputs, orders, cancelAt, failAt) && !db.autoCommit
  {
    orders := [];
    var i := 0;
    while i < |teams| && i < cancelAt
      invariant 0 <= i <= Min(|teams|, cancelAt) && |orders| == i
      invariant Reached(pass, fits, t0, c0, inputs, orders, failAt, i, db.tables)
      invariant !db.autoCommit && db.committed == if i == 0 then c0 else db.tables
      invariant Untouched(teams, inputs, i)
      decreases |teams| - i
    {
      ghost var o;
      stop, o := Step(pass, fits, db, teams, i, failAt, t0, c0, inputs, orders);
      if stop.Some? {
        RunOfStopped(pass, fits, t0, c0, inputs, orders + [o], cancelAt, failAt, i + 1);
        return stop, orders + [o];
      }
      orders := orders + [o];
      i := i + 1;
    }
    RunOfRunning(pass, t0, c0, inputs, orders, cancelAt, failAt, i);
    stop := None;
  }

  /** call(): every team, in list order, until the list ends, the task is cancelled (from team cancelAt on) or a pass
      fails; auto-commit is back on at the end, with nothing pending. inputs are the teams as they were passed in, and
      orders the iteration orders each pass took. */
  method Call(db: S.Database, teams: seq<T.Team>, cancelAt: nat, failAt: nat)
    returns (r: Ending, ghost inputs: seq<TeamInput>, ghost orders: seq<Orders>)
    requires db.Consistent() && Distinct(teams)
    modifies db, teams
    ensures inputs == old(InputsOf(teams))
    ensures FitsTo(TeamPass, PassFits, old(db.tables), old(db.committed), inputs, orders, failAt, Min(|teams|, cancelAt))
    ensures (r, db.tables) == Run(TeamPass, old(db.tables), old(db.committed), inputs, orders, cancelAt, failAt)
    ensures db.autoCommit && db.committed == db.tables
  {
    r, inputs, orders := RunAll(TeamPass, PassFits, db, teams, cancelAt, failAt);
  }
}
