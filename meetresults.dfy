/** org.gcsl.model.MeetResults: one meet read from a results file, the teams that swam it and the athletes not on any roster. */
module MeetResultsModel {
  import opened Base
  import MI = MeetInfos
  import Scn = ArchiveItems
  import A = Athletes
  import T = Teams

  class MeetResults {
    var info: MI.MeetInfo
    /** resultsFileDate: null until setResultFileDate. */
    var resultsFileDate: Option<string>
    var orphans: seq<A.Athlete>
    /** Fixed at construction; there is no setter. */
    const scenario: Scn.Scenario
    var teams: seq<T.Team>

    /** MeetResults(meetInfo, resultsType). */
    constructor (meetInfo: MI.MeetInfo, resultsType: Scn.Scenario)
      ensures info == meetInfo && scenario == resultsType
      ensures resultsFileDate.None? && orphans == [] && teams == []
    {
      info := meetInfo;
      scenario := resultsType;
      resultsFileDate := None;
      orphans := [];
      teams := [];
    }

    /** MeetResults(meetDate, meetName, resultsType). */
    constructor FromDateAndName(meetDate: MI.Date, meetName: string, resultsType: Scn.Scenario)
      ensures info == MI.MeetInfo(meetDate, meetName) && scenario == resultsType
      ensures resultsFileDate.None? && orphans == [] && teams == []
    {
      info := MI.MeetInfo(meetDate, meetName);
      scenario := resultsType;
      resultsFileDate := None;
      orphans := [];
      teams := [];
    }

    /** addOrphan: appended, without removing duplicates. */
    method AddOrphan(orphan: A.Athlete)
      modifies this
      ensures orphans == old(orphans) + [orphan]
      ensures info == old(info) && resultsFileDate == old(resultsFileDate) && teams == old(teams)
    {
      orphans := orphans + [orphan];
    }

    /** addOrphans: the whole list appended in order. */
    method AddOrphans(more: seq<A.Athlete>)
      modifies this
      ensures orphans == old(orphans) + more
      ensures info == old(info) && resultsFileDate == old(resultsFileDate) && teams == old(teams)
    {
      orphans := orphans + more;
    }

    /** addTeam: appended, so teams keep the order they were read in. */
    method AddTeam(team: T.Team)
      modifies this
      ensures teams == old(teams) + [team]
      ensures info == old(info) && resultsFileDate == old(resultsFileDate) && orphans == old(orphans)
    {
      teams := teams + [team];
    }

    method SetResultFileDate(date: string)
      modifies this
      ensures resultsFileDate == Some(date)
      ensures info == old(info) && orphans == old(orphans) && teams == old(teams)
    {
      resultsFileDate := Some(date);
    }

    /** getDate: the date of the meet information given at construction. */
    function GetDate(): (d: MI.Date)
      reads this
      ensures d == info.date
    {
      info.date
    }

    /** getName. */
    function GetName(): (n: string)
      reads this
      ensures n == info.name
    {
      info.name
    }
  }
}
