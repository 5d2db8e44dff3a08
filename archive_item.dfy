/** org.gcsl.model.ProcessArchiveItem: an archive the user picked, with what it holds and how its results are to be read. */
module ArchiveItems {
  /** ProcessArchiveItem.Scenario: how a results archive is to be treated. */
  datatype Scenario = MeetResults | ByeWeekEntries | ByeWeekResults | RainOutEntries | RainOutResults | TeamRoster

  /** Scenario.toString(), the text stored in the result_type column: the constant's own name. */
  function ScenarioName(s: Scenario): string {
    match s
    case MeetResults => "MEET_RESULTS"
    case ByeWeekEntries => "BYE_WEEK_ENTRIES"
    case ByeWeekResults => "BYE_WEEK_RESULTS"
    case RainOutEntries => "RAIN_OUT_ENTRIES"
    case RainOutResults => "RAIN_OUT_RESULTS"
    case TeamRoster => "TEAM_ROSTER"
  }

  /** The stored text tells the scenario. */
  lemma ScenarioNameInjective(a: Scenario, b: Scenario)
    requires ScenarioName(a) == ScenarioName(b)
    ensures a == b
  {
  }

  /** The directory holding the archive, its file name, its contents as the picker lists them ("a.cl2, a.hy3"),
      and the scenario chosen for it. */
  datatype ArchiveItem = ArchiveItem(directory: string, name: string, contents: string, scenario: Scenario)

  /** getDirectory() + File.separator + getName(). */
  function ArchivePath(item: ArchiveItem): string {
    item.directory + "/" + item.name
  }
}
