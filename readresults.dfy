/** org.gcsl.ReadResultFilesTask: one MeetResults per results archive, folded from the B1, C1, D0 and F0 records of its
    SDIF file; the archive loop gives up with null at the first SdifException or IOException. */
module ReadResultFiles {
  import opened Base
  import opened Utils
  import SR = SdifRecs
  import MI = MeetInfos
  import opened Athletes
  import T = Teams
  import TR = TeamRecs
  import FD = SdifFileDescriptions
  import Rd = SdifReaders
  import Scn = ArchiveItems
  import M = MeetResultsModel
  import opened CallLoops
  import opened ReadSdifArchive

  /** A meet read from a results file, as a value: its information and its teams in the order they were read. */
  datatype ResultsValue = ResultsValue(info: MI.MeetInfo, teams: seq<TR.TeamValue>)

  /** What a record means to processMeetResults; classifying and parsing it is all that depends on its text. */
  datatype Event =
    | MeetRec(info: Result<MI.MeetInfo>)
    | TeamRec(fields: Result<T.TeamFields>)
    | AthleteRec(athlete: Result<Athlete>)
    | Ignored

  /** B1 is a meet, C1 a team, D0 and F0 a swimmer; D1, E0 and every other record are passed over. */
  function EventOf(rec: SR.SdifRec): (e: Event)
    ensures e.MeetRec? <==> rec.recType == SR.Meet
    ensures e.TeamRec? <==> rec.recType == SR.TeamId
    ensures e.AthleteRec? <==> rec.recType == SR.IndividualEvent || rec.recType == SR.RelayName
    ensures e.MeetRec? ==> e.info == MI.SdifMeetInfo(rec)
    ensures e.TeamRec? ==> e.fields == T.SdifTeamFields(rec)
    ensures e.AthleteRec? ==> e.athlete == FromSdif(rec)
  {
    if rec.recType == SR.Meet then MeetRec(MI.SdifMeetInfo(rec))
    else if rec.recType == SR.TeamId then TeamRec(T.SdifTeamFields(rec))
    else if rec.recType == SR.IndividualEvent || rec.recType == SR.RelayName then AthleteRec(FromSdif(rec))
    else Ignored
  }

  function Events(recs: seq<SR.SdifRec>): (es: seq<Event>)
    ensures |es| == |recs| && forall i :: 0 <= i < |recs| ==> es[i] == EventOf(recs[i])
  {
    seq(|recs|, i requires 0 <= i < |recs| => EventOf(recs[i]))
  }

  /** Where processMeetResults stands: the current meet (its teams before the current one), the current team, and
      whether that team belongs to the current meet. A B1 starts a new meet and leaves the current team behind in the
      old one, where its later athletes go. */
  datatype Reading = Reading(results: Option<ResultsValue>, team: Option<TR.TeamValue>, attached: bool)

  /** The teams of the current meet, the current team last when it belongs to it. */
  function MeetTeams(s: Reading): seq<TR.TeamValue>
    requires s.results.Some?
  {
    if s.attached && s.team.Some? then s.results.value.teams + [s.team.value] else s.results.value.teams
  }

  /** One record of processMeetResults' switch. Each record is parsed before the state is consulted, so a malformed
      record fails as such even where it would be out of place. */
  function Step(s: Reading, e: Event): Result<Reading> {
    match e
    case MeetRec(info) =>
      var m :- info;
      Ok(Reading(Some(ResultsValue(m, [])), s.team, false))
    case TeamRec(fields) =>
      var f :- fields;
      if s.results.None? then Err(Sdif(MeetInfoRequired))
      else Ok(Reading(Some(ResultsValue(s.results.value.info, MeetTeams(s))), Some(TR.TeamValue(f.code, f.name, map[])), true))
    case AthleteRec(athlete) =>
      var a :- athlete;
      if s.team.None? then Err(Sdif(TeamInfoRequired))
      else if a in s.team.value.athletes then Ok(s)
      else Ok(s.(team := Some(s.team.value.(athletes := s.team.value.athletes[a := Utils.INVALID_ID]))))
    case Ignored => Ok(s)
  }

  const Start := Reading(None, None, false)

  /** The records in order, stopping at the first error. */
  function FoldEvents(es: seq<Event>): Result<Reading>
    decreases |es|
  {
    if es == [] then Ok(Start)
    else
      var s :- FoldEvents(es[..|es| - 1]);
      Step(s, es[|es| - 1])
  }

  /** What processMeetResults returns for a state: the current meet with its teams, if there is one. */
  function Finish(s: Reading): (r: Option<ResultsValue>)
    ensures r.Some? <==> s.results.Some?
    ensures r.Some? ==> r.value == ResultsValue(s.results.value.info, MeetTeams(s))
  {
    if s.results.None? then None else Some(ResultsValue(s.results.value.info, MeetTeams(s)))
  }

  /** processMeetResults. */
  function Process(recs: seq<SR.SdifRec>): Result<Option<ResultsValue>> {
    var s :- FoldEvents(Events(recs));
    Ok(Finish(s))
  }

  lemma FoldSnoc(es: seq<Event>, i: nat)
    requires i < |es|
    ensures FoldEvents(es[..i + 1]) == if FoldEvents(es[..i]).Err? then FoldEvents(es[..i]) else Step(FoldEvents(es[..i]).value, es[i])
  {
    assert es[..i + 1][..i] == es[..i];
  }

  /** Once the fold has failed on a prefix, later records change nothing: the first error is the answer. */
  lemma {:induction false} FoldErrPersists(es: seq<Event>, k: nat)
    requires k <= |es| && FoldEvents(es[..k]).Err?
    ensures FoldEvents(es) == FoldEvents(es[..k])
    decreases |es|
  {
    if k < |es| {
      var p := es[..|es| - 1];
      assert p[..k] == es[..k];
      FoldErrPersists(p, k);
    } else {
      assert es[..k] == es;
    }
  }

  /** The code and name of a team, what its C1 record gives it. */
  function FieldsOf(v: TR.TeamValue): T.TeamFields {
    T.TeamFields(v.code, v.name)
  }

  function AllFields(vs: seq<TR.TeamValue>): (r: seq<T.TeamFields>)
    ensures |r| == |vs| && forall k :: 0 <= k < |vs| ==> r[k] == FieldsOf(vs[k])
  {
    seq(|vs|, k requires 0 <= k < |vs| => FieldsOf(vs[k]))
  }

  /** The meet information of the last B1 record, if any. */
  function LastMeet(es: seq<Event>): Option<Result<MI.MeetInfo>>
    decreases |es|
  {
    if es == [] then None
    else if es[|es| - 1].MeetRec? then Some(es[|es| - 1].info)
    else LastMeet(es[..|es| - 1])
  }

  /** The code and name of every C1 record after the last B1, in file order. */
  function TeamsSinceMeet(es: seq<Event>): seq<T.TeamFields>
    decreases |es|
  {
    if es == [] then []
    else
      var x := es[|es| - 1];
      if x.MeetRec? then []
      else if x.TeamRec? && x.fields.Ok? then TeamsSinceMeet(es[..|es| - 1]) + [x.fields.value]
      else TeamsSinceMeet(es[..|es| - 1])
  }

  /** What a successful fold holds: a meet exactly when there is a B1, the last B1's information, and the teams of the
      C1 records after it, in order. */
  predicate Summarizes(es: seq<Event>, s: Reading) {
    && (s.results.Some? <==> LastMeet(es).Some?)
    && (s.results.Some? ==> LastMeet(es).value == Ok(s.results.value.info) && AllFields(MeetTeams(s)) == TeamsSinceMeet(es))
    && (s.attached ==> s.results.Some? && s.team.Some?)
  }

  /** A B1 record, when it parses, makes a new meet: a later B1 replaces the meet read so far with all its teams, and the
      result is the meet of the last B1 with the teams of the C1 records after it. */
  lemma {:induction false} FoldSummarizes(es: seq<Event>)
    requires FoldEvents(es).Ok?
    ensures Summarizes(es, FoldEvents(es).value)
    decreases |es|
  {
    if es != [] {
      var p := es[..|es| - 1];
      var x := es[|es| - 1];
      FoldSummarizes(p);
      var s := FoldEvents(p).value;
      match x
      case MeetRec(_) =>
      case TeamRec(_) =>
        assert AllFields(MeetTeams(FoldEvents(es).value)) == AllFields(MeetTeams(s)) + [x.fields.value];
      case AthleteRec(_) =>
        AthleteKeepsFields(s, FoldEvents(es).value);
      case Ignored =>
    }
  }

  /** Adding an athlete changes the athletes of the current team and nothing the meet's team list shows of its teams. */
  lemma AthleteKeepsFields(s: Reading, t: Reading)
    requires s.results == t.results && s.attached == t.attached && (s.team.Some? <==> t.team.Some?)
    requires s.team.Some? ==> FieldsOf(s.team.value) == FieldsOf(t.team.value)
    ensures s.results.Some? ==> AllFields(MeetTeams(s)) == AllFields(MeetTeams(t))
  {
  }

  /** No B1 read yet: no meet either. */
  lemma {:induction false} NoMeetYet(es: seq<Event>)
    requires FoldEvents(es).Ok?
    requires forall i :: 0 <= i < |es| ==> !es[i].MeetRec?
    ensures FoldEvents(es).value.results.None?
    decreases |es|
  {
    if es != [] {
      NoMeetYet(es[..|es| - 1]);
    }
  }

  /** No C1 read yet: no current team either. */
  lemma {:induction false} NoTeamYet(es: seq<Event>)
    requires FoldEvents(es).Ok?
    requires forall i :: 0 <= i < |es| ==> !es[i].TeamRec?
    ensures FoldEvents(es).value.team.None?
    decreases |es|
  {
    if es != [] {
      NoTeamYet(es[..|es| - 1]);
    }
  }

  /** A C1 record that parses, with no B1 before it, ends the file with "Meet information required". */
  lemma TeamBeforeMeetFails(es: seq<Event>, j: nat)
    requires j < |es| && es[j].TeamRec? && es[j].fields.Ok?
    requires forall i :: 0 <= i < j ==> !es[i].MeetRec?
    requires FoldEvents(es[..j]).Ok?
    ensures FoldEvents(es) == Err(Sdif(MeetInfoRequired))
  {
    NoMeetYet(es[..j]);
    FoldSnoc(es, j);
    FoldErrPersists(es, j + 1);
  }

  /** A D0 or F0 record that parses, with no C1 before it, ends the file with "Team information required". */
  lemma AthleteBeforeTeamFails(es: seq<Event>, j: nat)
    requires j < |es| && es[j].AthleteRec? && es[j].athlete.Ok?
    requires forall i :: 0 <= i < j ==> !es[i].TeamRec?
    requires FoldEvents(es[..j]).Ok?
    ensures FoldEvents(es) == Err(Sdif(TeamInfoRequired))
  {
    NoTeamYet(es[..j]);
    FoldSnoc(es, j);
    FoldErrPersists(es, j + 1);
  }

  /** A swimmer after a C1 of the current meet joins that team, the meet's last: it holds the athletes it held and the
      new one, and the meet's other teams are as they were. */
  lemma AthleteJoinsLastTeam(s: Reading, a: Athlete)
    requires s.results.Some? && s.attached && s.team.Some?
    ensures Step(s, AthleteRec(Ok(a))).Ok?
    ensures var t := Step(s, AthleteRec(Ok(a))).value;
            && t.results == s.results && |MeetTeams(t)| == |MeetTeams(s)|
            && MeetTeams(t)[..|MeetTeams(t)| - 1] == MeetTeams(s)[..|MeetTeams(s)| - 1]
            && MeetTeams(t)[|MeetTeams(t)| - 1].athletes.Keys == MeetTeams(s)[|MeetTeams(s)| - 1].athletes.Keys + {a}
  {
    var t := Step(s, AthleteRec(Ok(a))).value;
    assert MeetTeams(t)[..|MeetTeams(t)| - 1] == s.results.value.teams;
    assert MeetTeams(s)[..|MeetTeams(s)| - 1] == s.results.value.teams;
  }

  /** A swimmer after a new B1 but before its first C1 goes to the team left behind, not to the new meet. */
  lemma AthleteAfterNewMeetLost(s: Reading, a: Athlete)
    requires s.results.Some? && !s.attached && s.team.Some?
    ensures Step(s, AthleteRec(Ok(a))).Ok?
    ensures Finish(Step(s, AthleteRec(Ok(a))).value) == Finish(s)
  {
  }

  /** The header type a scenario's results file must carry: meet results for a meet, unknown for the bye-week and
      rain-out scenarios; a team roster is no results scenario. */
  function ExpectedResultType(scenario: Scn.Scenario): (r: Result<FD.FileType>)
    ensures scenario == Scn.MeetResults <==> r == Ok(FD.MeetResults)
    ensures scenario == Scn.TeamRoster <==> r == Err(Sdif(InvalidScenario))
    ensures r.Ok? && r.value != FD.MeetResults ==> r.value == FD.Unknown
  {
    match scenario
    case MeetResults => Ok(FD.MeetResults)
    case ByeWeekResults => Ok(FD.Unknown)
    case ByeWeekEntries => Ok(FD.Unknown)
    case RainOutEntries => Ok(FD.Unknown)
    case RainOutResults => Ok(FD.Unknown)
    case TeamRoster => Err(Sdif(InvalidScenario))
  }

  /** readResultFile: the reader is opened first, then the scenario chooses the expected header type, the header must
      carry it, and the records must hold a meet. */
  function ResultFile(disk: Disk, path: string, scenario: Scn.Scenario): (r: Result<ResultsValue>)
    ensures Rd.OpenSpec(disk, path).Err? ==> r == Err(Rd.OpenSpec(disk, path).error)
    ensures Rd.OpenSpec(disk, path).Ok? && scenario == Scn.TeamRoster ==> r == Err(Sdif(InvalidScenario))
    ensures r.Ok? ==> Rd.OpenSpec(disk, path).Ok? && Ok(Rd.OpenSpec(disk, path).value.1.fileType) == ExpectedResultType(scenario)
    ensures r.Ok? ==> Process(Rd.Records(disk.files[path][1..])) == Ok(Some(r.value))
  {
    var (format, desc) :- Rd.OpenSpec(disk, path);
    var expected :- ExpectedResultType(scenario);
    if desc.fileType != expected then Err(Sdif(FileTypeMismatch))
    else
      var results :- Process(Rd.Records(disk.files[path][1..]));
      if results.None? then Err(Sdif(NoResultsDefined)) else Ok(results.value)
  }

  /** A header of another type than the scenario's is refused before any record is read. */
  lemma ResultFileRejectsOtherTypes(disk: Disk, path: string, scenario: Scn.Scenario)
    requires Rd.OpenSpec(disk, path).Ok? && ExpectedResultType(scenario).Ok?
    requires Rd.OpenSpec(disk, path).value.1.fileType != ExpectedResultType(scenario).value
    ensures ResultFile(disk, path, scenario) == Err(Sdif(FileTypeMismatch))
  {
  }

  /** Records in order but without a B1 are refused with "No results defined". */
  lemma ResultFileNeedsMeet(disk: Disk, path: string, scenario: Scn.Scenario)
    requires Rd.OpenSpec(disk, path).Ok? && Ok(Rd.OpenSpec(disk, path).value.1.fileType) == ExpectedResultType(scenario)
    requires FoldEvents(Events(Rd.Records(disk.files[path][1..]))).Ok?
    requires forall i :: 0 <= i < |disk.files[path]| - 1 ==> Rd.Records(disk.files[path][1..])[i].recType != SR.Meet
    ensures ResultFile(disk, path, scenario) == Err(Sdif(NoResultsDefined))
  {
    ProcessWithoutMeet(Rd.Records(disk.files[path][1..]));
    ResultFileOfNoMeet(disk, path, scenario);
  }

  lemma ResultFileOfNoMeet(disk: Disk, path: string, scenario: Scn.Scenario)
    requires Rd.OpenSpec(disk, path).Ok? && Ok(Rd.OpenSpec(disk, path).value.1.fileType) == ExpectedResultType(scenario)
    requires Process(Rd.Records(disk.files[path][1..])) == Ok(None)
    ensures ResultFile(disk, path, scenario) == Err(Sdif(NoResultsDefined))
  {
  }

  /** Records without a B1 that the fold accepts hold no meet. */
  lemma ProcessWithoutMeet(recs: seq<SR.SdifRec>)
    requires FoldEvents(Events(recs)).Ok?
    requires forall i :: 0 <= i < |recs| ==> recs[i].recType != SR.Meet
    ensures Process(recs) == Ok(None)
  {
    var es := Events(recs);
    assert forall i :: 0 <= i < |es| ==> !es[i].MeetRec?;
    NoMeetYet(es);
  }

  /** readResultArchive: the SDIF file of the item read as its scenario demands. A temporary file is deleted once the
      meet is read; a failure leaves it on the disk. */
  function ResultArchive(disk: Disk, item: Scn.ArchiveItem): (r: (Result<ResultsValue>, Disk))
    ensures ExtractSdifFile(disk, item).Err? ==> r == (Err(ExtractSdifFile(disk, item).error), disk)
    ensures ExtractSdifFile(disk, item).Ok? ==>
              var (path, extracted) := ExtractSdifFile(disk, item).value;
              && r.0 == ResultFile(extracted, path, item.scenario)
              && r.1 == if r.0.Ok? && path != Scn.ArchivePath(item) then Delete(extracted, path) else extracted
  {
    match ExtractSdifFile(disk, item)
    case Err(e) => (Err(e), disk)
    case Ok((path, extracted)) =>
      var results := ResultFile(extracted, path, item.scenario);
      (results, if results.Ok? && path != Scn.ArchivePath(item) then Delete(extracted, path) else extracted)
  }

  /** A MeetResults object holds the meet: its information, scenario MEET_RESULTS whatever the archive's, no orphans and
      no file date yet, and Team objects holding its teams. */
  predicate HoldsMeet(mr: M.MeetResults, v: ResultsValue)
    reads mr, set k | 0 <= k < |mr.teams| :: mr.teams[k]
  {
    && mr.info == v.info && mr.scenario == Scn.MeetResults && mr.orphans == [] && mr.resultsFileDate.None?
    && TR.AllHold(mr.teams, v.teams)
  }

  /** The MeetResults and Team objects of processMeetResults against the state of the fold. The current team, when it
      belongs to the current meet, is that meet's last team object and no other. */
  predicate Tracks(optResults: Option<M.MeetResults>, optTeam: Option<T.Team>, s: Reading)
    reads if optResults.Some? then {optResults.value} + set k | 0 <= k < |optResults.value.teams| :: optResults.value.teams[k] else {}
    reads if optTeam.Some? then {optTeam.value} else {}
  {
    && (optResults.None? <==> s.results.None?)
    && (optTeam.None? <==> s.team.None?)
    && (optTeam.Some? ==> TR.Holds(optTeam.value, s.team.value))
    && (s.attached ==> s.results.Some? && s.team.Some?)
    && (optResults.Some? ==>
          var mr := optResults.value;
          && HoldsMeet(mr, ResultsValue(s.results.value.info, MeetTeams(s)))
          && (s.attached ==> mr.teams[|mr.teams| - 1] == optTeam.value)
          && forall k :: 0 <= k < |mr.teams| && (!s.attached || k < |mr.teams| - 1) ==> optTeam != Some(mr.teams[k]))
  }

  /** The loop of processMeetResults over fresh MeetResults and Team objects. */
  method ProcessMeetResults(recs: seq<SR.SdifRec>) returns (r: Result<Option<M.MeetResults>>)
    ensures r.Ok? <==> Process(recs).Ok?
    ensures r.Err? ==> r.error == Process(recs).error
    ensures r.Ok? ==> (r.value.Some? <==> Process(recs).value.Some?)
    ensures r.Ok? && r.value.Some? ==> fresh(r.value.value) && HoldsMeet(r.value.value, Process(recs).value.value)
  {
    ghost var es := Events(recs);
    var optResults: Option<M.MeetResults> := None;
    var optTeam: Option<T.Team> := None;
    var i := 0;
    while i < |recs|
      invariant 0 <= i <= |recs|
      invariant FoldEvents(es[..i]).Ok?
      invariant Tracks(optResults, optTeam, FoldEvents(es[..i]).value)
      invariant optResults.Some? ==> fresh(optResults.value)
      invariant optTeam.Some? ==> fresh(optTeam.value)
    {
      FoldSnoc(es, i);
      ghost var s := FoldEvents(es[..i]).value;
      assert es[i] == EventOf(recs[i]);
      var next := ProcessRec(optResults, optTeam, recs[i], s);
      if next.Err? {
        FoldErrPersists(es, i + 1);
        return Err(next.error);
      }
      optResults, optTeam := next.value.0, next.value.1;
      i := i + 1;
    }
    assert es[..i] == es;
    r := Ok(optResults);
  }

  /** One pass of the loop body: the switch on the record type. */
  method ProcessRec(optResults: Option<M.MeetResults>, optTeam: Option<T.Team>, rec: SR.SdifRec, ghost s: Reading)
    returns (r: Result<(Option<M.MeetResults>, Option<T.Team>)>)
    requires Tracks(optResults, optTeam, s)
    modifies if optResults.Some? then {optResults.value} else {}
    modifies if optTeam.Some? then {optTeam.value} else {}
    ensures r.Ok? <==> Step(s, EventOf(rec)).Ok?
    ensures r.Err? ==> r.error == Step(s, EventOf(rec)).error
    ensures r.Ok? ==> Tracks(r.value.0, r.value.1, Step(s, EventOf(rec)).value)
    ensures r.Ok? && r.value.0.Some? ==> fresh(r.value.0.value) || r.value.0 == optResults
    ensures r.Ok? && r.value.1.Some? ==> fresh(r.value.1.value) || r.value.1 == optTeam
  {
    if rec.recType == SR.Meet {
      r := MeetCase(optResults, optTeam, rec, s);
    } else if rec.recType == SR.TeamId {
      assert EventOf(rec) == TeamRec(T.SdifTeamFields(rec));
      r := TeamCase(optResults, optTeam, rec, s);
    } else if rec.recType == SR.IndividualEvent || rec.recType == SR.RelayName {
      r := AthleteCase(optResults, optTeam, rec, s);
    } else {
      assert EventOf(rec) == Ignored;
      r := Ok((optResults, optTeam));
    }
  }

  /** MEET_REC: a new MeetResults, which the current team does not belong to. */
  method MeetCase(optResults: Option<M.MeetResults>, optTeam: Option<T.Team>, rec: SR.SdifRec, ghost s: Reading)
    returns (r: Result<(Option<M.MeetResults>, Option<T.Team>)>)
    requires rec.recType == SR.Meet
    requires Tracks(optResults, optTeam, s)
    ensures r.Ok? <==> Step(s, EventOf(rec)).Ok?
    ensures r.Err? ==> r.error == Step(s, EventOf(rec)).error
    ensures r.Ok? ==> Tracks(r.value.0, r.value.1, Step(s, EventOf(rec)).value)
    ensures r.Ok? ==> r.value.0.Some? && fresh(r.value.0.value) && r.value.1 == optTeam
  {
    var info := MI.SdifMeetInfo(rec);
    assert EventOf(rec) == MeetRec(info);
    if info.Err? {
      return Err(info.error);
    }
    var results := new M.MeetResults(info.value, Scn.MeetResults);
    r := Ok((Some(results), optTeam));
  }

  /** TEAM_ID_REC: the team is parsed, then the meet is looked for and the team appended to it. */
  method TeamCase(optResults: Option<M.MeetResults>, optTeam: Option<T.Team>, rec: SR.SdifRec, ghost s: Reading)
    returns (r: Result<(Option<M.MeetResults>, Option<T.Team>)>)
    requires Tracks(optResults, optTeam, s)
    modifies if optResults.Some? then {optResults.value} else {}
    ensures r.Ok? <==> Step(s, TeamRec(T.SdifTeamFields(rec))).Ok?
    ensures r.Err? ==> r.error == Step(s, TeamRec(T.SdifTeamFields(rec))).error
    ensures r.Ok? ==> Tracks(r.value.0, r.value.1, Step(s, TeamRec(T.SdifTeamFields(rec))).value)
    ensures r.Ok? ==> r.value.0 == optResults && r.value.1.Some? && fresh(r.value.1.value)
  {
    var team :- T.FromSdifData(rec);
    r := AddTeam(optResults, optTeam, team, s, T.SdifTeamFields(rec).value);
  }

  /** The parsed team appended to the current meet, where there is one, as the current team. */
  method AddTeam(optResults: Option<M.MeetResults>, optTeam: Option<T.Team>, team: T.Team, ghost s: Reading, ghost f: T.TeamFields)
    returns (r: Result<(Option<M.MeetResults>, Option<T.Team>)>)
    requires Tracks(optResults, optTeam, s)
    requires team.athletes == map[] && team.lastUpdate == "" && team.Key() == T.TeamKey(Utils.INVALID_ID, f.code, f.name)
    requires optResults.Some? ==> forall k :: 0 <= k < |optResults.value.teams| ==> optResults.value.teams[k] != team
    requires optTeam != Some(team)
    modifies if optResults.Some? then {optResults.value} else {}
    ensures r.Ok? <==> Step(s, TeamRec(Ok(f))).Ok?
    ensures r.Err? ==> r.error == Step(s, TeamRec(Ok(f))).error
    ensures r.Ok? ==> Tracks(r.value.0, r.value.1, Step(s, TeamRec(Ok(f))).value)
    ensures r.Ok? ==> r.value == (optResults, Some(team))
  {
    if optResults.None? {
      return Err(Sdif(MeetInfoRequired));
    }
    AddTeamTracks(optResults.value, optTeam, team, s, f);
    r := Ok((optResults, Some(team)));
  }

  /** INDIVIDUAL_EVENT_REC and RELAY_NAME_REC: the athlete is parsed, then the current team is looked for. */
  method AthleteCase(optResults: Option<M.MeetResults>, optTeam: Option<T.Team>, rec: SR.SdifRec, ghost s: Reading)
    returns (r: Result<(Option<M.MeetResults>, Option<T.Team>)>)
    requires rec.recType == SR.IndividualEvent || rec.recType == SR.RelayName
    requires Tracks(optResults, optTeam, s)
    modifies if optTeam.Some? then {optTeam.value} else {}
    ensures r.Ok? <==> Step(s, EventOf(rec)).Ok?
    ensures r.Err? ==> r.error == Step(s, EventOf(rec)).error
    ensures r.Ok? ==> Tracks(r.value.0, r.value.1, Step(s, EventOf(rec)).value)
    ensures r.Ok? ==> r.value == (optResults, optTeam)
  {
    assert EventOf(rec) == AthleteRec(FromSdif(rec));
    var athlete :- FromSdif(rec);
    if optTeam.None? {
      return Err(Sdif(TeamInfoRequired));
    }
    assert T.Retag(athlete, optTeam.value.id) == athlete;
    AddAthleteTracks(optResults, optTeam.value, athlete, s);
    r := Ok((optResults, optTeam));
  }

  /** The C1 case: the new team is appended to the current meet and becomes the current team. */
  method AddTeamTracks(mr: M.MeetResults, optTeam: Option<T.Team>, team: T.Team, ghost s: Reading, ghost f: T.TeamFields)
    requires Tracks(Some(mr), optTeam, s)
    requires team.athletes == map[] && team.lastUpdate == "" && team.Key() == T.TeamKey(Utils.INVALID_ID, f.code, f.name)
    requires forall k :: 0 <= k < |mr.teams| ==> mr.teams[k] != team
    requires optTeam != Some(team)
    modifies mr
    ensures Tracks(Some(mr), Some(team), Step(s, TeamRec(Ok(f))).value)
  {
    ghost var t := Step(s, TeamRec(Ok(f))).value;
    mr.AddTeam(team);
    assert MeetTeams(t) == MeetTeams(s) + [TR.TeamValue(f.code, f.name, map[])];
    TR.AllHoldSnoc(old(mr.teams), MeetTeams(s), team, TR.TeamValue(f.code, f.name, map[]));
  }

  /** The D0 / F0 case: the athlete joins the current team, wherever that team is. */
  method AddAthleteTracks(optResults: Option<M.MeetResults>, team: T.Team, a: Athlete, ghost s: Reading)
    requires Tracks(optResults, Some(team), s)
    requires T.Retag(a, team.id) == a
    modifies team
    ensures Tracks(optResults, Some(team), Step(s, AthleteRec(Ok(a))).value)
  {
    team.AddAthlete(a, Utils.INVALID_ID);
  }

  /** readResultFile. */
  method ReadResultFile(disk: Disk, path: string, scenario: Scn.Scenario) returns (r: Result<M.MeetResults>)
    ensures r.Ok? <==> ResultFile(disk, path, scenario).Ok?
    ensures r.Err? ==> r.error == ResultFile(disk, path, scenario).error
    ensures r.Ok? ==> fresh(r.value) && HoldsMeet(r.value, ResultFile(disk, path, scenario).value)
  {
    var reader :- Rd.Open(disk, path);
    var expected :- ExpectedResultType(scenario);
    if reader.fileDescription.fileType != expected {
      return Err(Sdif(FileTypeMismatch));
    }
    // the reader was just opened, so readFile cannot meet a closed reader
    var recs := reader.ReadFile();
    var results :- ProcessMeetResults(recs.value);
    if results.None? {
      return Err(Sdif(NoResultsDefined));
    }
    r := Ok(results.value);
  }

  /** readResultArchive. */
  method ReadResultArchive(disk: Disk, item: Scn.ArchiveItem) returns (r: Result<M.MeetResults>, after: Disk)
    ensures r.Ok? <==> ResultArchive(disk, item).0.Ok?
    ensures r.Err? ==> r.error == ResultArchive(disk, item).0.error
    ensures r.Ok? ==> fresh(r.value) && HoldsMeet(r.value, ResultArchive(disk, item).0.value)
    ensures after == ResultArchive(disk, item).1
  {
    var extraction := ExtractSdifFile(disk, item);
    if extraction.Err? {
      return Err(extraction.error), disk;
    }
    var (path, extracted) := extraction.value;
    var isTemp := Scn.ArchivePath(item) != path;
    r := ReadResultFile(extracted, path, item.scenario);
    after := if r.Ok? && isTemp then Delete(extracted, path) else extracted;
  }

  /** MeetResults objects holding the meets, one by one. */
  predicate AllHoldMeets(ms: seq<M.MeetResults>, vs: seq<ResultsValue>)
    reads set k | 0 <= k < |ms| :: ms[k]
    reads set k, j | 0 <= k < |ms| && 0 <= j < |ms[k].teams| :: ms[k].teams[j]
  {
    |ms| == |vs| && forall k :: 0 <= k < |ms| ==> HoldsMeet(ms[k], vs[k])
  }

  /** The task's answer built of objects, against the same answer built of values. */
  predicate MeetsMirror(r: Outcome<seq<M.MeetResults>>, spec: Outcome<seq<ResultsValue>>)
    reads if r.Done? then set k | 0 <= k < |r.value| :: r.value[k] else {}
    reads if r.Done? then set k, j | 0 <= k < |r.value| && 0 <= j < |r.value[k].teams| :: r.value[k].teams[j] else {}
  {
    match r
    case Done(ms) => spec.Done? && AllHoldMeets(ms, spec.value)
    case NullResult => spec.NullResult?
    case Crashed(e) => spec == Crashed(e)
  }

  /** read processes archive items as ReadResultFilesTask does, stated one item at a time. */
  predicate ReadsLikeTask(read: (Disk, Scn.ArchiveItem) -> (Result<ResultsValue>, Disk), d: Disk, item: Scn.ArchiveItem) {
    read(d, item) == ResultArchive(d, item)
  }

  /** One pass of call()'s loop: item i read. */
  method ReadItem(ghost read: (Disk, Scn.ArchiveItem) -> (Result<ResultsValue>, Disk),
                  current: Disk, items: seq<Scn.ArchiveItem>, i: nat, ghost disk: Disk, ghost values: seq<ResultsValue>)
    returns (r: Result<M.MeetResults>, next: Disk, ghost v: ResultsValue)
    requires forall d, item :: ReadsLikeTask(read, d, item)
    requires i < |items| && RunTo(read, disk, items, i) == Going(values, current)
    ensures r.Err? ==> RunTo(read, disk, items, i + 1) == Halted(r.error, next, i)
    ensures r.Ok? ==> RunTo(read, disk, items, i + 1) == Going(values + [v], next)
    ensures r.Ok? ==> fresh(r.value) && HoldsMeet(r.value, v)
  {
    assert ReadsLikeTask(read, current, items[i]);
    r, next := ReadResultArchive(current, items[i]);
    v := if r.Ok? then ResultArchive(current, items[i]).0.value else ResultsValue(MI.MeetInfo(MI.Date(1, 1, 1), ""), []);
  }

  method ReadAll(ghost read: (Disk, Scn.ArchiveItem) -> (Result<ResultsValue>, Disk),
                 disk: Disk, items: seq<Scn.ArchiveItem>, cancelAt: nat) returns (r: Outcome<seq<M.MeetResults>>, after: Disk)
    requires forall d, item :: ReadsLikeTask(read, d, item)
    ensures MeetsMirror(r, Run(read, disk, items, cancelAt).0)
    ensures after == Run(read, disk, items, cancelAt).1
  {
    var results: seq<M.MeetResults> := [];
    ghost var values: seq<ResultsValue> := [];
    var current := disk;
    var i := 0;
    while i < |items| && i < cancelAt
      invariant 0 <= i <= Min(|items|, cancelAt)
      invariant RunTo(read, disk, items, i) == Going(values, current)
      invariant AllHoldMeets(results, values)
      decreases |items| - i
    {
      var result, next, v := ReadItem(read, current, items, i, disk, values);
      if result.Err? {
        RunOfHalted(read, disk, items, cancelAt, i, result.error, next);
        r, after := if Caught(result.error) then NullResult else Crashed(result.error), next;
        return;
      }
      AllHoldMeetsSnoc(results, values, result.value, v);
      results, values := results + [result.value], values + [v];
      current, i := next, i + 1;
    }
    RunOfGoing(read, disk, items, cancelAt, i, values, current);
    r, after := Done(results), current;
  }

  lemma AllHoldMeetsSnoc(ms: seq<M.MeetResults>, vs: seq<ResultsValue>, m: M.MeetResults, v: ResultsValue)
    requires AllHoldMeets(ms, vs) && HoldsMeet(m, v)
    ensures AllHoldMeets(ms + [m], vs + [v])
  {
    assert forall k :: 0 <= k < |ms| ==> (ms + [m])[k] == ms[k];
  }

  /** call(): the meets of the items in order, or null at the first caught failure. */
  method Call(disk: Disk, items: seq<Scn.ArchiveItem>, cancelAt: nat) returns (r: Outcome<seq<M.MeetResults>>, after: Disk)
    ensures MeetsMirror(r, Run(ResultArchive, disk, items, cancelAt).0)
    ensures after == Run(ResultArchive, disk, items, cancelAt).1
  {
    r, after := ReadAll(ResultArchive, disk, items, cancelAt);
  }
}
