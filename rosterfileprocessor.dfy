/** org.gcsl.RosterFileProcessorTask: each roster archive read and written to the database at once, one item per
    transaction. Reading an archive is ReadRosterFilesTask's reading, and writing its team is RostersToDbTask's pass:
    the task carries its own copies of readRosterArchive, extractRosterFromArchive, readRosterFile, processRosterRecs,
    mergeAthletes, insertAthletes and deleteAthletes, the same code as theirs. */
module RosterFileProcessor {
  import opened Base
  import opened Utils
  import T = Teams
  import S = Store
  import TR = TeamRecs
  import Scn = ArchiveItems
  import CL = CallLoops
  import RF = ReadRosterFiles
  import RD = RostersToDb

  /** A team read from a roster file: no id yet, so it is looked up by its code. */
  function InputOfValue(v: TR.TeamValue): (r: RD.TeamInput)
    ensures r.key.id == INVALID_ID && r.key.code == v.code && r.key.name == v.name && r.athletes == v.athletes.Keys
  {
    RD.TeamInput(T.TeamKey(INVALID_ID, v.code, v.name), v.athletes.Keys)
  }

  /** A team read from a roster file always has a row once its pass has looked for it: it is found by its code or
      inserted and found again, so dbTeam.getId() never throws here. */
  lemma ParsedTeamIsAlwaysFound(t: S.Tables, v: TR.TeamValue, o: RD.Orders)
    ensures RD.TeamPass(t, InputOfValue(v), o).Wrote?
    ensures RD.DbTeam(t, InputOfValue(v).key).value.code == v.code
  {
  }

  /** The two strings call() returns. */
  datatype Answer = Success | Failure

  /** Where the loop stands: going on from the committed tables and the disk, or ended with call()'s answer. */
  datatype State = Going(t: S.Tables, disk: Disk) | Ended(answer: Outcome<Answer>, t: S.Tables, disk: Disk)

  /** The loop after its first n items, each read with read and written with pass; the commit of item failAt throws
      an SQLException. An SdifException, IOException or SQLException rolls back to the last commit and makes call()
      answer "Failure"; any other exception escapes, and the finally block commits what was written. */
  function RunTo(read: (Disk, Scn.ArchiveItem) -> (Result<TR.TeamValue>, Disk), pass: (S.Tables, RD.TeamInput, RD.Orders) -> RD.Pass,
                 disk0: Disk, t0: S.Tables, c0: S.Tables, items: seq<Scn.ArchiveItem>, orders: seq<RD.Orders>, failAt: nat, n: nat): (r: State)
    requires n <= |items|
    ensures r.Ended? ==> r.answer == Done(Failure) || r.answer.Crashed?
  {
    if n == 0 then Going(t0, disk0)
    else
      match RunTo(read, pass, disk0, t0, c0, items, orders, failAt, n - 1)
      case Ended(a, t, d) => Ended(a, t, d)
      case Going(t, d) =>
        var i := n - 1;
        var lastCommit := if i == 0 then c0 else t;
        var (res, next) := read(d, items[i]);
        match res
        case Err(e) => if CL.Caught(e) then Ended(Done(Failure), lastCommit, next) else Ended(Crashed(e), t, next)
        case Ok(v) =>
          match pass(t, InputOfValue(v), RD.OrdersAt(orders, i))
          case NoTeam(written) => Ended(Crashed(NullPointer), written, next)
          case Wrote(written) => if i == failAt then Ended(Done(Failure), lastCommit, next) else Going(written, next)
  }

  /** Each item's orders fit the tables its pass started from. */
  predicate FitsTo(read: (Disk, Scn.ArchiveItem) -> (Result<TR.TeamValue>, Disk), pass: (S.Tables, RD.TeamInput, RD.Orders) -> RD.Pass,
                   fits: (S.Tables, RD.TeamInput, RD.Orders) -> bool,
                   disk0: Disk, t0: S.Tables, c0: S.Tables, items: seq<Scn.ArchiveItem>, orders: seq<RD.Orders>, failAt: nat, n: nat)
    requires n <= |items|
  {
    n == 0 ||
    (&& FitsTo(read, pass, fits, disk0, t0, c0, items, orders, failAt, n - 1)
     && match RunTo(read, pass, disk0, t0, c0, items, orders, failAt, n - 1)
        case Ended(_, _, _) => true
        case Going(t, d) =>
          var res := read(d, items[n - 1]).0;
          res.Ok? ==> fits(t, InputOfValue(res.value), RD.OrdersAt(orders, n - 1)))
  }

  /** call() with isCancelled() holding from item cancelAt on: its answer, the tables it leaves committed and the disk. */
  function Run(read: (Disk, Scn.ArchiveItem) -> (Result<TR.TeamValue>, Disk), pass: (S.Tables, RD.TeamInput, RD.Orders) -> RD.Pass,
               disk0: Disk, t0: S.Tables, c0: S.Tables, items: seq<Scn.ArchiveItem>, orders: seq<RD.Orders>, cancelAt: nat, failAt: nat)
    : (Outcome<Answer>, S.Tables, Disk)
  {
    match RunTo(read, pass, disk0, t0, c0, items, orders, failAt, RD.Min(|items|, cancelAt))
    case Going(t, d) => (Done(Success), t, d)
    case Ended(a, t, d) => (a, t, d)
  }

  /** Once ended, the loop stays where it ended: later items are not read. */
  lemma {:induction false} EndedPersists(read: (Disk, Scn.ArchiveItem) -> (Result<TR.TeamValue>, Disk),
                                         pass: (S.Tables, RD.TeamInput, RD.Orders) -> RD.Pass, fits: (S.Tables, RD.TeamInput, RD.Orders) -> bool,
                                         disk0: Disk, t0: S.Tables, c0: S.Tables, items: seq<Scn.ArchiveItem>, orders: seq<RD.Orders>,
                                         failAt: nat, k: nat, n: nat)
    requires k <= n <= |items| && RunTo(read, pass, disk0, t0, c0, items, orders, failAt, k).Ended?
    ensures RunTo(read, pass, disk0, t0, c0, items, orders, failAt, n) == RunTo(read, pass, disk0, t0, c0, items, orders, failAt, k)
    ensures FitsTo(read, pass, fits, disk0, t0, c0, items, orders, failAt, n) == FitsTo(read, pass, fits, disk0, t0, c0, items, orders, failAt, k)
    decreases n
  {
    if n > k {
      EndedPersists(read, pass, fits, disk0, t0, c0, items, orders, failAt, k, n - 1);
    }
  }

  /** Ended at item k - 1: call() ends as that item did, whatever the later items hold. */
  lemma RunOfEnded(read: (Disk, Scn.ArchiveItem) -> (Result<TR.TeamValue>, Disk), pass: (S.Tables, RD.TeamInput, RD.Orders) -> RD.Pass,
                   fits: (S.Tables, RD.TeamInput, RD.Orders) -> bool, disk0: Disk, t0: S.Tables, c0: S.Tables,
                   items: seq<Scn.ArchiveItem>, orders: seq<RD.Orders>, cancelAt: nat, failAt: nat, k: nat)
    requires k <= RD.Min(|items|, cancelAt) && RunTo(read, pass, disk0, t0, c0, items, orders, failAt, k).Ended?
    requires FitsTo(read, pass, fits, disk0, t0, c0, items, orders, failAt, k)
    ensures FitsTo(read, pass, fits, disk0, t0, c0, items, orders, failAt, RD.Min(|items|, cancelAt))
    ensures var s := RunTo(read, pass, disk0, t0, c0, items, orders, failAt, k);
            Run(read, pass, disk0, t0, c0, items, orders, cancelAt, failAt) == (s.answer, s.t, s.disk)
  {
    EndedPersists(read, pass, fits, disk0, t0, c0, items, orders, failAt, k, RD.Min(|items|, cancelAt));
  }

  lemma RunOfGoing(read: (Disk, Scn.ArchiveItem) -> (Result<TR.TeamValue>, Disk), pass: (S.Tables, RD.TeamInput, RD.Orders) -> RD.Pass,
                   fits: (S.Tables, RD.TeamInput, RD.Orders) -> bool, disk0: Disk, t0: S.Tables, c0: S.Tables,
                   items: seq<Scn.ArchiveItem>, orders: seq<RD.Orders>, cancelAt: nat, failAt: nat, n: nat)
    requires n == RD.Min(|items|, cancelAt) && RunTo(read, pass, disk0, t0, c0, items, orders, failAt, n).Going?
    ensures var s := RunTo(read, pass, disk0, t0, c0, items, orders, failAt, n);
            Run(read, pass, disk0, t0, c0, items, orders, cancelAt, failAt) == (Done(Success), s.t, s.disk)
  {
  }

  /** An item whose archive cannot be read as a roster undoes nothing that was committed: call() answers "Failure"
      (or lets the exception escape) with the items before it written, and reads no further. */
  lemma ReadFailureStopsAtItem(read: (Disk, Scn.ArchiveItem) -> (Result<TR.TeamValue>, Disk),
                               pass: (S.Tables, RD.TeamInput, RD.Orders) -> RD.Pass,
                               disk0: Disk, t0: S.Tables, c0: S.Tables, items: seq<Scn.ArchiveItem>, orders: seq<RD.Orders>,
                               cancelAt: nat, failAt: nat, i: nat)
    requires i < RD.Min(|items|, cancelAt)
    requires RunTo(read, pass, disk0, t0, c0, items, orders, failAt, i).Going?
    requires read(RunTo(read, pass, disk0, t0, c0, items, orders, failAt, i).disk, items[i]).0.Err?
    ensures var s := RunTo(read, pass, disk0, t0, c0, items, orders, failAt, i);
            var (res, next) := read(s.disk, items[i]);
            Run(read, pass, disk0, t0, c0, items, orders, cancelAt, failAt) ==
              if CL.Caught(res.error) then (Done(Failure), if i == 0 then c0 else s.t, next) else (Crashed(res.error), s.t, next)
  {
    EndedPersists(read, pass, (t, v, o) => true, disk0, t0, c0, items, orders, failAt, i + 1, RD.Min(|items|, cancelAt));
  }

  /** "Success" comes only from a loop that went through every item it was allowed to, each read and committed. */
  lemma SuccessMeansAllCommitted(read: (Disk, Scn.ArchiveItem) -> (Result<TR.TeamValue>, Disk),
                                 pass: (S.Tables, RD.TeamInput, RD.Orders) -> RD.Pass,
                                 disk0: Disk, t0: S.Tables, c0: S.Tables, items: seq<Scn.ArchiveItem>, orders: seq<RD.Orders>,
                                 cancelAt: nat, failAt: nat)
    requires Run(read, pass, disk0, t0, c0, items, orders, cancelAt, failAt).0 == Done(Success)
    ensures forall n :: 0 <= n <= RD.Min(|items|, cancelAt) ==> RunTo(read, pass, disk0, t0, c0, items, orders, failAt, n).Going?
    ensures failAt >= RD.Min(|items|, cancelAt)
  {
    var m := RD.Min(|items|, cancelAt);
    forall n | 0 <= n <= m
      ensures RunTo(read, pass, disk0, t0, c0, items, orders, failAt, n).Going?
    {
      if RunTo(read, pass, disk0, t0, c0, items, orders, failAt, n).Ended? {
        EndedPersists(read, pass, (t, v, o) => true, disk0, t0, c0, items, orders, failAt, n, m);
        assert RunTo(read, pass, disk0, t0, c0, items, orders, failAt, m).Ended?;
      }
    }
    if failAt < m {
      assert RunTo(read, pass, disk0, t0, c0, items, orders, failAt, failAt).Going?;
      assert RunTo(read, pass, disk0, t0, c0, items, orders, failAt, failAt + 1).Going?;
    }
  }

  /** Orders given for later items change nothing about the earlier ones. */
  lemma {:induction false} RunToExtend(read: (Disk, Scn.ArchiveItem) -> (Result<TR.TeamValue>, Disk),
                                       pass: (S.Tables, RD.TeamInput, RD.Orders) -> RD.Pass, fits: (S.Tables, RD.TeamInput, RD.Orders) -> bool,
                                       disk0: Disk, t0: S.Tables, c0: S.Tables, items: seq<Scn.ArchiveItem>, orders: seq<RD.Orders>,
                                       o: RD.Orders, failAt: nat, m: nat)
    requires m <= |items| && m <= |orders|
    ensures RunTo(read, pass, disk0, t0, c0, items, orders + [o], failAt, m) == RunTo(read, pass, disk0, t0, c0, items, orders, failAt, m)
    ensures FitsTo(read, pass, fits, disk0, t0, c0, items, orders + [o], failAt, m) == FitsTo(read, pass, fits, disk0, t0, c0, items, orders, failAt, m)
    decreases m
  {
    if m > 0 {
      RunToExtend(read, pass, fits, disk0, t0, c0, items, orders, o, failAt, m - 1);
      assert RD.OrdersAt(orders + [o], m - 1) == RD.OrdersAt(orders, m - 1);
    }
  }

  /** The loop has gone through its first n items, with orders that fit, and is going on from t and disk. */
  predicate Reached(read: (Disk, Scn.ArchiveItem) -> (Result<TR.TeamValue>, Disk), pass: (S.Tables, RD.TeamInput, RD.Orders) -> RD.Pass,
                    fits: (S.Tables, RD.TeamInput, RD.Orders) -> bool, disk0: Disk, t0: S.Tables, c0: S.Tables,
                    items: seq<Scn.ArchiveItem>, orders: seq<RD.Orders>, failAt: nat, n: nat, t: S.Tables, disk: Disk)
  {
    && n <= |items|
    && RunTo(read, pass, disk0, t0, c0, items, orders, failAt, n) == Going(t, disk)
    && FitsTo(read, pass, fits, disk0, t0, c0, items, orders, failAt, n)
  }

  /** read, pass and fits are how call() reads an item and writes its team. Stated one call at a time, so that a
      loop over the items can speak of them without their definitions being spelled out in it. */
  predicate ReadsLikeCall(read: (Disk, Scn.ArchiveItem) -> (Result<TR.TeamValue>, Disk), d: Disk, item: Scn.ArchiveItem) {
    read(d, item) == RF.RosterItem(d, item)
  }

  predicate PassesLikeCall(pass: (S.Tables, RD.TeamInput, RD.Orders) -> RD.Pass, fits: (S.Tables, RD.TeamInput, RD.Orders) -> bool,
                           t: S.Tables, input: RD.TeamInput, o: RD.Orders) {
    pass(t, input, o) == RD.TeamPass(t, input, o) && fits(t, input, o) == RD.PassFits(t, input, o)
  }

  /** One pass of call()'s loop on item i: its try block, its catch and its finally. */
  method Step(ghost read: (Disk, Scn.ArchiveItem) -> (Result<TR.TeamValue>, Disk), ghost pass: (S.Tables, RD.TeamInput, RD.Orders) -> RD.Pass,
              ghost fits: (S.Tables, RD.TeamInput, RD.Orders) -> bool,
              db: S.Database, disk: Disk, items: seq<Scn.ArchiveItem>, i: nat, failAt: nat,
              ghost disk0: Disk, ghost t0: S.Tables, ghost c0: S.Tables, ghost orders: seq<RD.Orders>)
    returns (stop: Option<Outcome<Answer>>, next: Disk, ghost o: RD.Orders)
    requires forall d, item :: ReadsLikeCall(read, d, item)
    requires forall t, input, o :: PassesLikeCall(pass, fits, t, input, o)
    requires i < |items| && |orders| == i
    requires Reached(read, pass, fits, disk0, t0, c0, items, orders, failAt, i, db.tables, disk)
    requires db.Consistent() && db.committed == if i == 0 then c0 else db.tables
    modifies db
    ensures stop.None? ==> Reached(read, pass, fits, disk0, t0, c0, items, orders + [o], failAt, i + 1, db.tables, next)
    ensures stop.Some? ==> RunTo(read, pass, disk0, t0, c0, items, orders + [o], failAt, i + 1) == Ended(stop.value, db.tables, next)
    ensures stop.Some? ==> FitsTo(read, pass, fits, disk0, t0, c0, items, orders + [o], failAt, i + 1)
    ensures db.autoCommit && db.committed == db.tables
  {
    ghost var t := db.tables;
    db.SetAutoCommit(false);
    assert ReadsLikeCall(read, disk, items[i]);
    RunToExtend(read, pass, fits, disk0, t0, c0, items, orders, RD.Orders([], []), failAt, i);
    var team;
    team, next := RF.ReadRosterArchive(disk, Scn.ArchivePath(items[i]));
    if team.Err? {
      o := RD.Orders([], []);
      if CL.Caught(team.error) {
        db.Rollback();
        stop := Some(Done(Failure));
      } else {
        stop := Some(Crashed(team.error));
      }
      db.SetAutoCommit(true);
      return;
    }
    ghost var v := RF.RosterArchive(disk, Scn.ArchivePath(items[i])).0.value;
    assert InputOfValue(v) == RD.InputOf(team.value);
    var found;
    found, o := RD.ProcessTeam(db, team.value);
    assert PassesLikeCall(pass, fits, t, InputOfValue(v), o);
    RunToExtend(read, pass, fits, disk0, t0, c0, items, orders, o, failAt, i);
    assert RD.OrdersAt(orders + [o], i) == o;
    ParsedTeamIsAlwaysFound(t, v, o);
    assert found;
    if i == failAt {
      db.Rollback();
      db.SetAutoCommit(true);
      return Some(Done(Failure)), next, o;
    }
    db.Commit();
    db.SetAutoCommit(true);
    stop := None;
  }

  /** call()'s loop, for any read, pass and fits that are how call() reads and writes. */
  method RunAll(ghost read: (Disk, Scn.ArchiveItem) -> (Result<TR.TeamValue>, Disk), ghost pass: (S.Tables, RD.TeamInput, RD.Orders) -> RD.Pass,
                ghost fits: (S.Tables, RD.TeamInput, RD.Orders) -> bool,
                db: S.Database, disk: Disk, items: seq<Scn.ArchiveItem>, cancelAt: nat, failAt: nat)
    returns (r: Outcome<Answer>, after: Disk, ghost orders: seq<RD.Orders>)
    requires forall d, item :: ReadsLikeCall(read, d, item)
    requires forall t, input, o :: PassesLikeCall(pass, fits, t, input, o)
    requires db.Consistent()
    modifies db
    ensures FitsTo(read, pass, fits, disk, old(db.tables), old(db.committed), items, orders, failAt, RD.Min(|items|, cancelAt))
    ensures (r, db.tables, after) == Run(read, pass, disk, old(db.tables), old(db.committed), items, orders, cancelAt, failAt)
    ensures db.Consistent() && (db.autoCommit || (db.tables == old(db.tables) && db.committed == old(db.committed)))
  {
    ghost var t0, c0 := db.tables, db.committed;
    orders := [];
    var current := disk;
    var i := 0;
    while i < |items| && i < cancelAt
      invariant 0 <= i <= RD.Min(|items|, cancelAt) && |orders| == i
      invariant Reached(read, pass, fits, disk, t0, c0, items, orders, failAt, i, db.tables, current)
      invariant db.Consistent() && db.committed == if i == 0 then c0 else db.tables
      invariant i > 0 ==> db.autoCommit
      invariant i == 0 ==> db.autoCommit == old(db.autoCommit) && db.tables == t0
      decreases |items| - i
    {
      var stop, next, o := Step(read, pass, fits, db, current, items, i, failAt, disk, t0, c0, orders);
      if stop.Some? {
        RunOfEnded(read, pass, fits, disk, t0, c0, items, orders + [o], cancelAt, failAt, i + 1);
        return stop.value, next, orders + [o];
      }
      orders := orders + [o];
      current := next;
      i := i + 1;
    }
    r, after := Done(Success), current;
    RunOfGoing(read, pass, fits, disk, t0, c0, items, orders, cancelAt, failAt, i);
  }

  /** call(): each roster archive read and its team written and committed, in order, until the items end, the task
      is cancelled (from item cancelAt on) or an item fails; "Success" or "Failure", or the exception that escapes. */
  method Call(db: S.Database, disk: Disk, items: seq<Scn.ArchiveItem>, cancelAt: nat, failAt: nat)
    returns (r: Outcome<Answer>, after: Disk, ghost orders: seq<RD.Orders>)
    requires db.Consistent()
    modifies db
    ensures FitsTo(RF.RosterItem, RD.TeamPass, RD.PassFits, disk, old(db.tables), old(db.committed), items, orders, failAt, RD.Min(|items|, cancelAt))
    ensures (r, db.tables, after) == Run(RF.RosterItem, RD.TeamPass, disk, old(db.tables), old(db.committed), items, orders, cancelAt, failAt)
    ensures db.Consistent() && (db.autoCommit || (db.tables == old(db.tables) && db.committed == old(db.committed)))
  {
    r, after, orders := RunAll(RF.RosterItem, RD.TeamPass, RD.PassFits, db, disk, items, cancelAt, failAt);
  }
}
