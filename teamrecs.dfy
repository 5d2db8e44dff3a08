/** processRosterRecs and processEntryRecs: the single team of a roster or entry file, folded from its records.
    ReadRosterFilesTask, RosterFileProcessorTask and ReadEntryFilesTask each carry a copy; the entry copy also takes relay-name records. */
module TeamRecs {
  import opened Base
  import Utils
  import SR = SdifRecs
  import opened Athletes
  import T = Teams
  import FD = SdifFileDescriptions
  import Rd = SdifReaders

  /** Which copy of the fold: a roster takes D0 and D1 athletes, an entry file F0 relay swimmers as well. */
  datatype Flavour = Roster | Entry

  function AthleteKinds(f: Flavour): (r: set<SR.RecType>)
    ensures SR.TeamId !in r
    ensures forall t :: t in r ==> LayoutOf(t).Some?
  {
    match f
    case Roster => {SR.IndividualAdmin, SR.IndividualEvent}
    case Entry => {SR.IndividualAdmin, SR.IndividualEvent, SR.RelayName}
  }

  /** The team being built, as a value: its code, its name and its athletes with their (not yet known) database ids. */
  datatype TeamValue = TeamValue(code: string, name: string, athletes: map<Athlete, int>)

  /** A Team object holds the value, with no id and no timestamp yet. */
  predicate Holds(t: T.Team, v: TeamValue)
    reads t
  {
    t.id == Utils.INVALID_ID && t.code == v.code && t.name == v.name && t.athletes == v.athletes && t.lastUpdate == ""
  }

  /** Team objects holding the values, one by one. */
  predicate AllHold(ts: seq<T.Team>, vs: seq<TeamValue>)
    reads set k | 0 <= k < |ts| :: ts[k]
  {
    |ts| == |vs| && forall k :: 0 <= k < |ts| ==> Holds(ts[k], vs[k])
  }

  /** A task's answer built of Team objects, against the same answer built of values. */
  predicate Mirrors(r: Outcome<seq<T.Team>>, spec: Outcome<seq<TeamValue>>)
    reads if r.Done? then set k | 0 <= k < |r.value| :: r.value[k] else {}
  {
    match r
    case Done(ts) => spec.Done? && AllHold(ts, spec.value)
    case NullResult => spec.NullResult?
    case Crashed(e) => spec == Crashed(e)
  }

  lemma AllHoldSnoc(ts: seq<T.Team>, vs: seq<TeamValue>, t: T.Team, v: TeamValue)
    requires AllHold(ts, vs) && Holds(t, v)
    ensures AllHold(ts + [t], vs + [v])
  {
    assert forall k :: 0 <= k < |ts| ==> (ts + [t])[k] == ts[k];
  }

  /** What a record means to the fold; classifying and parsing it is all that depends on its text. */
  datatype Event =
    | TeamRec(fields: Result<T.TeamFields>)
    | AthleteRec(athlete: Result<Athlete>)
    | Ignored

  function EventOf(f: Flavour, rec: SR.SdifRec): (e: Event)
    ensures e.TeamRec? <==> rec.recType == SR.TeamId
    ensures e.AthleteRec? <==> rec.recType in AthleteKinds(f)
  {
    if rec.recType == SR.TeamId then TeamRec(T.SdifTeamFields(rec))
    else if rec.recType in AthleteKinds(f) then AthleteRec(FromSdif(rec))
    else Ignored
  }

  function Events(f: Flavour, recs: seq<SR.SdifRec>): (es: seq<Event>)
    ensures |es| == |recs| && forall i :: 0 <= i < |recs| ==> es[i] == EventOf(f, recs[i])
  {
    seq(|recs|, i requires 0 <= i < |recs| => EventOf(f, recs[i]))
  }

  /** One record: a second C1 is an error, an athlete record needs a team, everything else is passed over. */
  function Step(s: Option<TeamValue>, e: Event): Result<Option<TeamValue>> {
    match e
    case TeamRec(fields) =>
      if s.Some? then Err(Sdif(MoreThanOneTeam))
      else
        var fs :- fields;
        Ok(Some(TeamValue(fs.code, fs.name, map[])))
    case AthleteRec(athlete) =>
      // the athlete is parsed before the team is looked for
      var a :- athlete;
      if s.None? then Err(Sdif(AthleteBeforeTeam))
      else if a in s.value.athletes then Ok(s)
      else Ok(Some(s.value.(athletes := s.value.athletes[a := Utils.INVALID_ID])))
    case Ignored => Ok(s)
  }

  /** The records in order, stopping at the first error. */
  function FoldEvents(es: seq<Event>): Result<Option<TeamValue>>
    decreases |es|
  {
    if es == [] then Ok(None)
    else
      var s :- FoldEvents(es[..|es| - 1]);
      Step(s, es[|es| - 1])
  }

  function Fold(f: Flavour, recs: seq<SR.SdifRec>): Result<Option<TeamValue>> {
    FoldEvents(Events(f, recs))
  }

  /** The loop of processRosterRecs / processEntryRecs over fresh Team objects. */
  method ProcessRecs(f: Flavour, recs: seq<SR.SdifRec>) returns (r: Result<Option<T.Team>>)
    ensures r.Ok? <==> Fold(f, recs).Ok?
    ensures r.Err? ==> r.error == Fold(f, recs).error
    ensures r.Ok? ==> (r.value.Some? <==> Fold(f, recs).value.Some?)
    ensures r.Ok? && r.value.Some? ==> fresh(r.value.value) && Holds(r.value.value, Fold(f, recs).value.value)
  {
    ghost var es := Events(f, recs);
    ghost var acc: Option<TeamValue> := None;
    var optTeam: Option<T.Team> := None;
    var i := 0;
    while i < |recs|
      invariant 0 <= i <= |recs|
      invariant FoldEvents(es[..i]) == Ok(acc)
      invariant optTeam.None? <==> acc.None?
      invariant optTeam.Some? ==> fresh(optTeam.value) && Holds(optTeam.value, acc.value)
    {
      FoldSnoc(es, i);
      assert es[i] == EventOf(f, recs[i]);
      var next := ProcessRec(f, optTeam, recs[i], acc);
      if next.Err? {
        FoldErrPersists(es, i + 1);
        return Err(next.error);
      }
      acc := Step(acc, es[i]).value;
      optTeam := next.value;
      i := i + 1;
    }
    assert es[..i] == es;
    r := Ok(optTeam);
  }

  /** One pass of the loop body: the switch on the record type. */
  method ProcessRec(f: Flavour, optTeam: Option<T.Team>, rec: SR.SdifRec, ghost s: Option<TeamValue>) returns (r: Result<Option<T.Team>>)
    requires optTeam.None? <==> s.None?
    requires optTeam.Some? ==> Holds(optTeam.value, s.value)
    modifies if optTeam.Some? then {optTeam.value} else {}
    ensures r.Ok? <==> Step(s, EventOf(f, rec)).Ok?
    ensures r.Err? ==> r.error == Step(s, EventOf(f, rec)).error
    ensures r.Ok? ==> (r.value.None? <==> Step(s, EventOf(f, rec)).value.None?)
    ensures r.Ok? && r.value.Some? ==> Holds(r.value.value, Step(s, EventOf(f, rec)).value.value)
    ensures r.Ok? && r.value.Some? ==> fresh(r.value.value) || optTeam == r.value
  {
    if rec.recType == SR.TeamId {
      if optTeam.Some? {
        return Err(Sdif(MoreThanOneTeam));
      }
      var team :- T.FromSdifData(rec);
      r := Ok(Some(team));
    } else if rec.recType in AthleteKinds(f) {
      var athlete :- FromSdif(rec);
      if optTeam.None? {
        return Err(Sdif(AthleteBeforeTeam));
      }
      assert T.Retag(athlete, optTeam.value.id) == athlete;
      optTeam.value.AddAthlete(athlete, Utils.INVALID_ID);
      r := Ok(optTeam);
    } else {
      r := Ok(optTeam);
    }
  }

  lemma FoldSnoc(es: seq<Event>, i: nat)
    requires i < |es|
    ensures FoldEvents(es[..i + 1]) == if FoldEvents(es[..i]).Err? then FoldEvents(es[..i]) else Step(FoldEvents(es[..i]).value, es[i])
  {
    assert es[..i + 1][..i] == es[..i];
  }

  /** Once the fold has failed on a prefix, later records change nothing: the first error is the answer. */
  lemma {:induction false} FoldErrPersists(es: seq<Event>, k: nat)
    requires k <= |es| && FoldEvents(es[..k]).Err?
    ensures FoldEvents(es) == FoldEvents(es[..k])
    decreases |es|
  {
    if k < |es| {
      var p := es[..|es| - 1];
      assert p[..k] == es[..k];
      FoldErrPersists(p, k);
    } else {
      assert es[..k] == es;
    }
  }

  /** What makes a file's records acceptable: at most one C1, and it parses; every athlete record parses and comes after it. */
  predicate WellFormed(es: seq<Event>) {
    && (forall i, j :: 0 <= i < j < |es| && es[i].TeamRec? ==> !es[j].TeamRec?)
    && (forall i :: 0 <= i < |es| && es[i].TeamRec? ==> es[i].fields.Ok?)
    && (forall j :: 0 <= j < |es| && es[j].AthleteRec? ==> es[j].athlete.Ok? && exists i :: 0 <= i < j && es[i].TeamRec?)
  }

  predicate HasTeam(es: seq<Event>) {
    exists i :: 0 <= i < |es| && es[i].TeamRec?
  }

  /** The athletes the athlete records of the file carry. */
  function AthleteSet(es: seq<Event>): set<Athlete> {
    set j | 0 <= j < |es| && es[j].AthleteRec? && es[j].athlete.Ok? :: es[j].athlete.value
  }

  /** The team a successful fold yields: code and name from its C1, and exactly the athletes of its athlete records,
      duplicates collapsed and none with a database id yet. */
  predicate Describes(es: seq<Event>, v: TeamValue) {
    && (forall i :: 0 <= i < |es| && es[i].TeamRec? ==> es[i].fields == Ok(T.TeamFields(v.code, v.name)))
    && v.athletes.Keys == AthleteSet(es)
    && forall a :: a in v.athletes ==> v.athletes[a] == Utils.INVALID_ID
  }

  lemma PrefixWellFormed(es: seq<Event>)
    requires es != [] && WellFormed(es)
    ensures WellFormed(es[..|es| - 1])
  {
    var p := es[..|es| - 1];
    forall j | 0 <= j < |p| && p[j].AthleteRec?
      ensures exists i :: 0 <= i < j && p[i].TeamRec?
    {
      var i :| 0 <= i < j && es[i].TeamRec?;
      assert p[i] == es[i];
    }
  }

  lemma AthleteSetOfSnoc(p: seq<Event>, x: Event)
    ensures x.AthleteRec? && x.athlete.Ok? ==> AthleteSet(p + [x]) == AthleteSet(p) + {x.athlete.value}
    ensures !(x.AthleteRec? && x.athlete.Ok?) ==> AthleteSet(p + [x]) == AthleteSet(p)
  {
    var q := p + [x];
    assert forall j :: 0 <= j < |p| ==> q[j] == p[j];
    if x.AthleteRec? && x.athlete.Ok? {
      assert q[|p|].athlete.value in AthleteSet(q);
    }
  }

  /** The fold succeeds exactly on well-formed records; it finds a team exactly when there is a C1, and that team is
      the one the records describe. */
  lemma {:induction false} FoldCharacterized(es: seq<Event>)
    ensures FoldEvents(es).Ok? <==> WellFormed(es)
    ensures FoldEvents(es).Ok? ==> (FoldEvents(es).value.Some? <==> HasTeam(es))
    ensures FoldEvents(es).Ok? && FoldEvents(es).value.Some? ==> Describes(es, FoldEvents(es).value.value)
    ensures FoldEvents(es).Ok? && FoldEvents(es).value.None? ==> AthleteSet(es) == {}
    decreases |es|
  {
    if es != [] {
      var p := es[..|es| - 1];
      var x := es[|es| - 1];
      assert es == p + [x];
      FoldCharacterized(p);
      AthleteSetOfSnoc(p, x);
      if WellFormed(es) {
        PrefixWellFormed(es);
        SnocWellFormed(p, x);
      } else if FoldEvents(p).Ok? {
        NotWellFormedSnoc(p, x);
      } else {
        NotWellFormedExtends(p, x);
      }
    }
  }

  /** Extending a well-formed prefix by one acceptable record. */
  lemma SnocWellFormed(p: seq<Event>, x: Event)
    requires WellFormed(p + [x]) && WellFormed(p)
    requires FoldEvents(p).Ok? && (FoldEvents(p).value.Some? <==> HasTeam(p))
    requires FoldEvents(p).value.Some? ==> Describes(p, FoldEvents(p).value.value)
    requires FoldEvents(p).value.None? ==> AthleteSet(p) == {}
    requires AthleteSet(p + [x]) == if x.AthleteRec? && x.athlete.Ok? then AthleteSet(p) + {x.athlete.value} else AthleteSet(p)
    ensures FoldEvents(p + [x]).Ok?
    ensures FoldEvents(p + [x]).value.Some? <==> HasTeam(p + [x])
    ensures FoldEvents(p + [x]).value.Some? ==> Describes(p + [x], FoldEvents(p + [x]).value.value)
    ensures FoldEvents(p + [x]).value.None? ==> AthleteSet(p + [x]) == {}
  {
    match x
    case TeamRec(_) => SnocTeamRec(p, x);
    case AthleteRec(_) => SnocAthleteRec(p, x);
    case Ignored => SnocIgnored(p, x);
  }

  /** The C1 of a well-formed file: the first team, over no athletes yet. */
  lemma SnocTeamRec(p: seq<Event>, x: Event)
    requires x.TeamRec?
    requires WellFormed(p + [x]) && WellFormed(p)
    requires FoldEvents(p).Ok? && (FoldEvents(p).value.Some? <==> HasTeam(p))
    requires FoldEvents(p).value.Some? ==> Describes(p, FoldEvents(p).value.value)
    requires FoldEvents(p).value.None? ==> AthleteSet(p) == {}
    requires AthleteSet(p + [x]) == AthleteSet(p)
    ensures FoldEvents(p + [x]).Ok?
    ensures FoldEvents(p + [x]).value.Some? <==> HasTeam(p + [x])
    ensures FoldEvents(p + [x]).value.Some? ==> Describes(p + [x], FoldEvents(p + [x]).value.value)
    ensures FoldEvents(p + [x]).value.None? ==> AthleteSet(p + [x]) == {}
  {
    var q := p + [x];
    assert q[..|q| - 1] == p && q[|q| - 1] == x;
    assert !HasTeam(p) by {
      forall i | 0 <= i < |p| ensures !p[i].TeamRec? {
        assert q[i] == p[i];
      }
    }
    assert q[|p|].fields.Ok?;
    assert HasTeam(q) by { assert q[|p|].TeamRec?; }
    forall i | 0 <= i < |p| ensures !q[i].TeamRec? {
      assert q[i] == p[i];
    }
  }

  /** An athlete record after the C1: one more athlete on the team. */
  lemma SnocAthleteRec(p: seq<Event>, x: Event)
    requires x.AthleteRec?
    requires WellFormed(p + [x]) && WellFormed(p)
    requires FoldEvents(p).Ok? && (FoldEvents(p).value.Some? <==> HasTeam(p))
    requires FoldEvents(p).value.Some? ==> Describes(p, FoldEvents(p).value.value)
    requires FoldEvents(p).value.None? ==> AthleteSet(p) == {}
    requires AthleteSet(p + [x]) == if x.athlete.Ok? then AthleteSet(p) + {x.athlete.value} else AthleteSet(p)
    ensures FoldEvents(p + [x]).Ok?
    ensures FoldEvents(p + [x]).value.Some? <==> HasTeam(p + [x])
    ensures FoldEvents(p + [x]).value.Some? ==> Describes(p + [x], FoldEvents(p + [x]).value.value)
    ensures FoldEvents(p + [x]).value.None? ==> AthleteSet(p + [x]) == {}
  {
    var q := p + [x];
    assert q[..|q| - 1] == p && q[|q| - 1] == x;
    assert forall j :: 0 <= j < |p| ==> q[j] == p[j];
    assert q[|p|].athlete.Ok?;
    var i :| 0 <= i < |p| && q[i].TeamRec?;
    assert HasTeam(p) by { assert p[i].TeamRec?; }
    assert HasTeam(q) by { assert q[i].TeamRec?; }
  }

  /** Any other record changes nothing. */
  lemma SnocIgnored(p: seq<Event>, x: Event)
    requires x.Ignored?
    requires WellFormed(p + [x]) && WellFormed(p)
    requires FoldEvents(p).Ok? && (FoldEvents(p).value.Some? <==> HasTeam(p))
    requires FoldEvents(p).value.Some? ==> Describes(p, FoldEvents(p).value.value)
    requires FoldEvents(p).value.None? ==> AthleteSet(p) == {}
    requires AthleteSet(p + [x]) == AthleteSet(p)
    ensures FoldEvents(p + [x]).Ok?
    ensures FoldEvents(p + [x]).value.Some? <==> HasTeam(p + [x])
    ensures FoldEvents(p + [x]).value.Some? ==> Describes(p + [x], FoldEvents(p + [x]).value.value)
    ensures FoldEvents(p + [x]).value.None? ==> AthleteSet(p + [x]) == {}
  {
    var q := p + [x];
    assert q[..|q| - 1] == p && q[|q| - 1] == x;
    assert forall j :: 0 <= j < |p| ==> q[j] == p[j];
    assert HasTeam(q) ==> HasTeam(p) by {
      if HasTeam(q) {
        var i :| 0 <= i < |q| && q[i].TeamRec?;
        assert i < |p| && p[i].TeamRec?;
      }
    }
    assert HasTeam(p) ==> HasTeam(q) by {
      if HasTeam(p) {
        var i :| 0 <= i < |p| && p[i].TeamRec?;
        assert q[i].TeamRec?;
      }
    }
  }

  /** A well-formed prefix followed by a record that breaks the rules fails, at that record. */
  lemma NotWellFormedSnoc(p: seq<Event>, x: Event)
    requires !WellFormed(p + [x]) && WellFormed(p)
    requires FoldEvents(p).Ok? && (FoldEvents(p).value.Some? <==> HasTeam(p))
    ensures FoldEvents(p + [x]).Err?
  {
    var q := p + [x];
    assert q[..|q| - 1] == p && q[|q| - 1] == x;
    assert forall j :: 0 <= j < |p| ==> q[j] == p[j];
    match x
    case TeamRec(_) =>
      if !HasTeam(p) {
        assert forall i :: 0 <= i < |p| ==> !q[i].TeamRec?;
        assert !x.fields.Ok?;
      }
    case AthleteRec(_) =>
    case Ignored =>
  }

  /** Records after a broken prefix cannot mend it. */
  lemma NotWellFormedExtends(p: seq<Event>, x: Event)
    requires !WellFormed(p)
    ensures !WellFormed(p + [x])
  {
    var q := p + [x];
    if WellFormed(q) {
      assert q[..|q| - 1] == p;
      PrefixWellFormed(q);
    }
  }

  /** readRosterFile / readEntryFile: open the file, insist on the expected header type, fold its records, and insist on a team. */
  function TeamFile(f: Flavour, disk: Utils.Disk, path: string, expected: FD.FileType): (r: Result<TeamValue>)
    ensures Rd.OpenSpec(disk, path).Err? ==> r == Err(Rd.OpenSpec(disk, path).error)
    ensures r.Ok? ==> Rd.OpenSpec(disk, path).Ok? && Rd.OpenSpec(disk, path).value.1.fileType == expected
    ensures r.Ok? ==> Fold(f, Rd.Records(disk.files[path][1..])) == Ok(Some(r.value))
  {
    var (format, desc) :- Rd.OpenSpec(disk, path);
    if desc.fileType != expected then Err(Sdif(FileTypeMismatch))
    else
      var team :- Fold(f, Rd.Records(disk.files[path][1..]));
      if team.None? then Err(Sdif(NoTeamDefined)) else Ok(team.value)
  }

  /** A header of another type is refused before any record is read. */
  lemma TeamFileRejectsOtherTypes(f: Flavour, disk: Utils.Disk, path: string, expected: FD.FileType)
    requires Rd.OpenSpec(disk, path).Ok? && Rd.OpenSpec(disk, path).value.1.fileType != expected
    ensures TeamFile(f, disk, path, expected) == Err(Sdif(FileTypeMismatch))
  {
  }

  /** A file whose records hold no C1 but are otherwise in order is refused with "No team defined". */
  lemma TeamFileNeedsTeam(f: Flavour, disk: Utils.Disk, path: string, expected: FD.FileType)
    requires Rd.OpenSpec(disk, path).Ok? && Rd.OpenSpec(disk, path).value.1.fileType == expected
    requires WellFormed(Events(f, Rd.Records(disk.files[path][1..])))
    requires !HasTeam(Events(f, Rd.Records(disk.files[path][1..])))
    ensures TeamFile(f, disk, path, expected) == Err(Sdif(NoTeamDefined))
  {
    var es := Events(f, Rd.Records(disk.files[path][1..]));
    FoldCharacterized(es);
    TeamFileOfFold(f, disk, path, expected);
  }

  lemma TeamFileOfFold(f: Flavour, disk: Utils.Disk, path: string, expected: FD.FileType)
    requires Rd.OpenSpec(disk, path).Ok? && Rd.OpenSpec(disk, path).value.1.fileType == expected
    ensures Fold(f, Rd.Records(disk.files[path][1..])) == Ok(None) ==> TeamFile(f, disk, path, expected) == Err(Sdif(NoTeamDefined))
  {
  }

  method ReadTeamFile(f: Flavour, disk: Utils.Disk, path: string, expected: FD.FileType) returns (r: Result<T.Team>)
    ensures r.Ok? <==> TeamFile(f, disk, path, expected).Ok?
    ensures r.Err? ==> r.error == TeamFile(f, disk, path, expected).error
    ensures r.Ok? ==> fresh(r.value) && Holds(r.value, TeamFile(f, disk, path, expected).value)
  {
    var reader :- Rd.Open(disk, path);
    if reader.fileDescription.fileType != expected {
      return Err(Sdif(FileTypeMismatch));
    }
    // the reader was just opened, so readFile cannot meet a closed reader
    var recs := reader.ReadFile();
    var team :- ProcessRecs(f, recs.value);
    if team.None? {
      return Err(Sdif(NoTeamDefined));
    }
    r := Ok(team.value);
  }
}
