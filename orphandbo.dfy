/** org.gcsl.db.OrphanDbo: rows of the Orphans table, the swimmers of a meet who have no Athletes row. */
module OrphanDbo {
  import opened Athletes
  import S = Store

  function OrphanOf(a: Athlete, meetId: int): S.OrphanRow {
    S.OrphanRow(a.teamId, a.name, a.dob, a.gender, meetId)
  }

  /** The rows insert writes: one per element of the list, in its order, duplicates included, each with the athlete's
      team id, name, dob and gender and the given meet id. */
  function OrphanRows(orphans: seq<Athlete>, meetId: int): (r: seq<S.OrphanRow>)
    ensures |r| == |orphans|
    ensures forall k :: 0 <= k < |r| ==> r[k].meetId == meetId
    ensures forall k :: 0 <= k < |r| ==>
              r[k].teamId == orphans[k].teamId && r[k].name == orphans[k].name && r[k].dob == orphans[k].dob && r[k].gender == orphans[k].gender
  {
    if orphans == [] then [] else [OrphanOf(orphans[0], meetId)] + OrphanRows(orphans[1..], meetId)
  }

  /** The rows of a list written in two parts are the rows of the parts, one after the other. */
  lemma {:induction false} OrphanRowsAppend(xs: seq<Athlete>, ys: seq<Athlete>, meetId: int)
    ensures OrphanRows(xs + ys, meetId) == OrphanRows(xs, meetId) + OrphanRows(ys, meetId)
  {
    if xs != [] {
      assert (xs + ys)[1..] == xs[1..] + ys;
      OrphanRowsAppend(xs[1..], ys, meetId);
    }
  }

  lemma OrphanRowsOfPrefix(orphans: seq<Athlete>, i: nat, meetId: int)
    requires i < |orphans|
    ensures OrphanRows(orphans[..i + 1], meetId) == OrphanRows(orphans[..i], meetId) + [OrphanOf(orphans[i], meetId)]
  {
    OrphanRowsAppend(orphans[..i], [orphans[i]], meetId);
    assert orphans[..i + 1] == orphans[..i] + [orphans[i]];
  }

  /** insert: one INSERT INTO Orphans per element; the rows already there are left alone. */
  method Insert(db: S.Database, orphans: seq<Athlete>, meetId: int)
    requires db.Consistent()
    modifies db
    ensures db.tables == old(db.tables).(orphans := old(db.tables).orphans + OrphanRows(orphans, meetId))
    ensures db.autoCommit == old(db.autoCommit) && db.Consistent() && (!db.autoCommit ==> db.committed == old(db.committed))
  {
    ghost var t0 := db.tables;
    var i := 0;
    while i < |orphans|
      invariant 0 <= i <= |orphans|
      invariant db.tables == t0.(orphans := t0.orphans + OrphanRows(orphans[..i], meetId))
      invariant db.autoCommit == old(db.autoCommit) && db.Consistent() && (!db.autoCommit ==> db.committed == old(db.committed))
    {
      OrphanRowsOfPrefix(orphans, i, meetId);
      db.Write(db.tables.(orphans := db.tables.orphans + [OrphanOf(orphans[i], meetId)]));
      i := i + 1;
    }
    assert orphans[..i] == orphans;
  }

  /** OrphanDbo.removeOrphans is not part of this model; the tables keep the meets it was called for, in order. */
  function WithoutOrphansOf(t: S.Tables, meetId: int): (r: S.Tables)
    ensures r.removedOrphansOf == t.removedOrphansOf + [meetId]
    ensures r.(removedOrphansOf := t.removedOrphansOf) == t
  {
    t.(removedOrphansOf := t.removedOrphansOf + [meetId])
  }

  method RemoveOrphans(db: S.Database, meetId: int)
    requires db.Consistent()
    modifies db
    ensures db.tables == WithoutOrphansOf(old(db.tables), meetId)
    ensures db.autoCommit == old(db.autoCommit) && db.Consistent() && (!db.autoCommit ==> db.committed == old(db.committed))
  {
    db.Write(WithoutOrphansOf(db.tables, meetId));
  }
}
