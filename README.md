# JGCSL parse-and-reconcile core in Dafny

This project models the core of JGCSL in Dafny. JGCSL is a JavaFX tool that reads swim-meet exports in USA
Swimming's Standard Data Interchange Format (SDIF v3, in CL2, HY3 and SD3 files, often inside ZIP archives). It
reconciles the rosters and meet results found there with a SQLite database of teams, athletes and meets.

The model follows the Java source file by file, one Dafny module per file:

- **Record layer** (`SdifRecs`, `SdifFileDescriptions`, `SdifReaders`, `Utils`, `JavaString`): the two-character
  record-type table, the A0 header's file-type table, `makeDateString`, archive classification, and fixed-column
  extraction over `seq<char>`. Java's `substring` bounds failures, `trim`, `split` and `lastIndexOf` are written out.
- **Domain objects** (`Athletes`, `Teams`, `Relays`, `MeetInfos`, `MeetResultsModel`, `ArchiveItems`):
  - An athlete is a value key (name, dob, gender, team id). `Athlete.equals` and `hashCode` look at exactly these
    fields.
  - A team's `HashSet<Athlete>` is a `map<Athlete, int>` from that key to the database id, which `setId` on a set
    member changes.
  - `Team`, `Relay`, `MeetResults` and `SdifReader` are classes whose methods update their fields in place.
- **Record-stream folds** (`TeamRecs`, `ReadResultFiles`):
  - `processRosterRecs`, `processEntryRecs` and `processMeetResults` are imperative loops over fresh objects.
  - Each loop is proved against a fold over the record list.
  - Each fold is characterised by lemmas: exactly when it fails, and what the team or meet it builds holds.
- **Archive tasks** (`ReadRosterFiles`, `ReadEntryFiles`, `ReadSdifArchive`, `ReadResultFiles`, `CallLoops`):
  - The file system is a `Disk` value holding files, directories and ZIP member listings.
  - Each task's `call()` loop is proved against a run function over the archive items.
  - Cancellation is an input: the index from which `isCancelled()` holds.
- **Database** (`Store`, `TeamDbo`, `AthleteDbo`, `MeetDbo`, `OrphanDbo`):
  - The five tables are sequences of rows, with the columns the SQL text names.
  - Queries are functions on the tables. Writes are methods on a `Database` class, which also holds the last
    committed state and the auto-commit flag.
  - `commit` takes a snapshot; `rollback` restores it.
- **Reconciliation tasks** (`RostersToDb`, `RosterFileProcessor`, `ResultsToDb`):
  - Roster merge: insert-or-merge per team, with one commit per team.
  - Meet-results ingestion: each meet is matched, its earlier results are replaced, and its unmatched swimmers
    become orphans.
  - `existingMeetId` is carried from meet to meet as `call()` carries it. A corrected run, whose passes start
    every meet from `INVALID_ID`, sits beside it (see Findings).
  - Every `call()` loop is proved against a run of one pass per item.
  - The order in which a `HashSet` is iterated is unspecified. Methods that iterate a set report the order they took
    as a ghost value, and the contracts hold for every such order.

Four behaviours of the code that are easy to get wrong, and that the model keeps as the code has them:

- `processMeetResults` adds every D0 and F0 swimmer to the current team, whatever the finals time says: an
  individual swim marked "NS" or "SCR", and every member of a relay that did not swim, is added like any other.
- `ResultsToDbTask` neither commits nor rolls back. The results of a batch of meets are written in whatever
  auto-commit mode the connection is in.
- A meet with fewer than two teams ends `call()` with a status message and a normal return; the meets after it
  are not processed.
- `makeDateString` normalises any input of 8 or more characters, using the first 8, and gives "" only for a shorter
  input.


## Model

| member | source | states |
|---|---|---|
| Utils.MakeDateString | src/org/gcsl/util/Utils.java:20-32 | text shorter than 8 characters gives "" and only then; otherwise a 10-character "yyyy-mm-dd" whose year, month and day are characters 4-8, 0-2 and 2-4 of the input |
| Utils.MakeDateStringUsesFirstEight | src/org/gcsl/util/Utils.java:24-25 | characters after the eighth never change the date |
| Utils.MakeDateStringExample | src/org/gcsl/util/Utils.java:19-29 | "07122017" becomes "2017-07-12"; a 7-character text becomes "" |
| Utils.MakeDateStringRoundTrip | src/org/gcsl/util/Utils.java:20-32 | normalising loses nothing of the first eight characters: reading the result back gives them again |
| Utils.UnmakeDateStringRoundTrip | src/org/gcsl/util/Utils.java:20-32 | every "yyyy-mm-dd" text is the normalisation of some "mmddyyyy" text |
| Utils.GetArchiveFileType | src/org/gcsl/util/Utils.java:42-57 | SD3 exactly when the path is an existing non-directory whose name is longer than 4 characters and ends in ".sd3" under equalsIgnoreCase (so "ı", "İ" and "ſ" count as "i" and "s"); ZIP likewise for ".zip" |
| Utils.UnusableFileIsUnknown | src/org/gcsl/util/Utils.java:47 | a missing path, a directory or a name of at most four characters is UNKNOWN |
| Utils.ArchiveFileTypeExamples | src/org/gcsl/util/Utils.java:47-53 | ".SD3" and ".Zip" match regardless of case; ".cl2" and the bare name ".sd3" do not |
| Utils.NonAsciiArchiveFileTypes | src/org/gcsl/util/Utils.java:48-51 | ".ZıP" is a ZIP and ".ſD3" an SD3, as equalsIgnoreCase folds the dotless i and the long s |
| Utils.FileNamesFromArchive | src/org/gcsl/util/Utils.java:86-109 | an SD3 lists just its own name, a readable ZIP its entry names, an unreadable ZIP and an UNKNOWN file nothing |
| Utils.FileName | src/org/gcsl/util/Utils.java:44 | the name is the text after the last '/' and holds no '/' |
| Utils.ArchiveListing | src/org/gcsl/util/Utils.java:81-84 | the listing of a path on the disk, case by case of its archive type |
| Utils.LastMember | src/org/gcsl/util/Utils.java:68-75 | none exactly when no entry has the name; otherwise an entry with that name (the last, since every match overwrites the same file) |
| Utils.FileFromArchive | src/org/gcsl/util/Utils.java:61-79 | an archive that cannot be opened is an I/O error, and so is a member whose temporary file cannot be created; a missing entry gives "" and leaves the disk alone; otherwise "./temp_"+name now holds the entry's lines and no other file changes |
| Utils.ZippedFolderNotExtracted | src/org/gcsl/util/Utils.java:134-139 | a member rosters/team.cl2 of a zipped folder is an I/O error while ./temp_rosters is not a directory, and the folder entry rosters/ always is |
| Utils.Delete | src/org/gcsl/ReadRosterFilesTask.java:149 | the path is gone and nothing else on the disk changes |
| Athletes.EqualsIsKeyEquality | src/org/gcsl/model/Athlete.java:52-60 | two athletes are equal exactly when dob, gender, name and teamId agree; id and lastUpdate never matter |
| Athletes.HashIdentifiesAthlete | src/org/gcsl/model/Athlete.java:62-73 | equal athletes have the same hash text; when no name, dob or gender holds ':', equal hash texts mean equal athletes |
| Athletes.LayoutOf | src/org/gcsl/model/Athlete.java:78-98 | only D0, D1 and F0 records carry an athlete; in each the name column ends before the birth-date column, which ends before the gender column |
| Athletes.NormalizeName | src/org/gcsl/model/Athlete.java:110 | the name has no white at either end and no two adjacent spaces, is no longer than the column, and keeps the column's other characters in order; each run of spaces inside the trimmed column becomes exactly one space (CollapseSpacesRuns) |
| Athletes.FromSdif | src/org/gcsl/model/Athlete.java:76-118 | any other record type fails with "Invalid SDIF record type" and only it; a record too short for the gender column throws out-of-bounds; otherwise the athlete of the three columns; every success is representable with no team |
| Athletes.Parsed | src/org/gcsl/model/Athlete.java:107-116 | a failure is always "Invalid Athlete Data"; a success has a name of at least 3 characters, a "yyyy-mm-dd" date, a 1-character gender and team INVALID_ID |
| Athletes.ParsedOfFields | src/org/gcsl/model/Athlete.java:107-116 | the columns of any representable athlete parse back to it |
| Athletes.FromSdifReadsColumns | src/org/gcsl/model/Athlete.java:105-110 | a parsed athlete holds the normalised name column, the birth-date column made "yyyy-mm-dd" and the gender column |
| Athletes.NormalizePadded | src/org/gcsl/model/Athlete.java:110 | a representable name padded to the 28-character column normalises back to itself |
| Athletes.ParseFormat | src/org/gcsl/model/Athlete.java:76-118 | a D0, D1 or F0 record written from a representable athlete parses back to that athlete |
| SdifRecs.CodeInjective | src/org/gcsl/sdif/SdifRec.java:6-21 | no two record types share a code |
| SdifRecs.FromString | src/org/gcsl/sdif/SdifRec.java:31-38 | a type other than INVALID_REC has the given code; a code no type has gives INVALID_REC |
| SdifRecs.FromStringOfCode | src/org/gcsl/sdif/SdifRec.java:31-38 | every type's code is read back as that type |
| SdifRecs.RecTypeOf | src/org/gcsl/sdif/SdifRec.java:44-53 | a classified line is not null, has at least two characters, and its first two are the type's code |
| SdifRecs.RecTypeOfCodedLine | src/org/gcsl/sdif/SdifRec.java:44-53 | a line that starts with a type's code is classified as that type |
| SdifRecs.MakeRec | src/org/gcsl/sdif/SdifRec.java:44-53 | the record keeps the whole line, and its type's code is the line's first two characters |
| SdifFileDescriptions.CodeInjective | src/org/gcsl/sdif/SdifFileDescription.java:7-20 | no two file types share a code |
| SdifFileDescriptions.FromString | src/org/gcsl/sdif/SdifFileDescription.java:30-37 | a type other than UNKNOWN has the given code; a code no type has gives UNKNOWN |
| SdifFileDescriptions.FromStringOfCode | src/org/gcsl/sdif/SdifFileDescription.java:30-37 | every type's code is read back as that type |
| SdifFileDescriptions.Parse | src/org/gcsl/sdif/SdifFileDescription.java:57-72 | under 2 characters is "not enough data"; another record code is "not file description record"; an A0 line shorter than 113 throws out-of-bounds; otherwise it succeeds with a "yyyy-mm-dd" date, the type named by columns 11-13 and the trimmed vendor and version |
| SdifFileDescriptions.ParsedIsRepresentable | src/org/gcsl/sdif/SdifFileDescription.java:68-71 | every parsed header fits the columns it came from |
| SdifFileDescriptions.ParseFormat | src/org/gcsl/sdif/SdifFileDescription.java:57-72 | a header line written from a representable description parses back to it |
| SdifReaders.FormatFromString | src/org/gcsl/sdif/SdifReader.java:20-27 | a format other than UNKOWN has the given name under equalsIgnoreCase, non-ASCII folds included; a text no format's name matches gives UNKOWN |
| SdifReaders.FormatNamesDiffer | src/org/gcsl/sdif/SdifReader.java:9-13 | no two formats have names equal ignoring case |
| SdifReaders.FormatFromStringIgnoresCase | src/org/gcsl/sdif/SdifReader.java:20-27 | any spelling of a format's name that equalsIgnoreCase accepts, in any case and with "ſ" for "s", selects that format |
| SdifReaders.NonAsciiFormatNames | src/org/gcsl/sdif/SdifReader.java:20-27 | "ſd3" and "ſD3" select SD3; "Cl", matching no name, gives UNKOWN |
| SdifReaders.Extension | src/org/gcsl/sdif/SdifReader.java:98-107 | the extension is a dot-free suffix of the name, and a non-empty one sits right after a dot that is not the first character |
| SdifReaders.ExtensionOfDotted | src/org/gcsl/sdif/SdifReader.java:98-107 | a non-empty stem, a dot and a dot-free suffix give that suffix |
| SdifReaders.ExtensionOfUndotted | src/org/gcsl/sdif/SdifReader.java:102-105 | a name with no dot after its first character has no extension |
| SdifReaders.Records | src/org/gcsl/sdif/SdifReader.java:85-87 | one record per line, in order, each keeping its line |
| SdifReaders.OpenSpec | src/org/gcsl/sdif/SdifReader.java:41-55 | every failure is an SdifException; a missing file cannot be opened; an empty file has no header; it succeeds exactly when the first line parses as a header, with the format named by the file's extension |
| SdifReaders.SdifReader.Init | src/org/gcsl/sdif/SdifReader.java:41-55 | the fields the constructor sets once its header line has parsed: path, format, description and an open reader over the lines that follow |
| SdifReaders.SdifReader.Close | src/org/gcsl/sdif/SdifReader.java:57-68 | the reader is released and nothing else changes |
| SdifReaders.SdifReader.ReadFile | src/org/gcsl/sdif/SdifReader.java:79-94 | one record per remaining line, in order, then the reader is closed; a second call fails with a null pointer |
| SdifReaders.Open | src/org/gcsl/sdif/SdifReader.java:41-55 | succeeds exactly when the opening steps succeed, with the same error otherwise; the new reader holds the format, the header and the lines after it |
| Teams.HashIdentifiesTeam | src/org/gcsl/model/Team.java:97-108 | equal teams have the same hash text; when no code holds ':', equal hash texts mean equal id, code and name |
| Teams.SdifTeamFields | src/org/gcsl/model/Team.java:37-44 | a C1 record shorter than 47 characters throws out-of-bounds and only it; otherwise code and name are trimmed and fit their 4- and 30-character columns |
| Teams.Hy3TeamFields | src/org/gcsl/model/Team.java:29-36 | a HY3 team record shorter than 37 characters throws out-of-bounds and only it; otherwise code and name are trimmed and fit their 5- and 30-character columns |
| Teams.SdifTeamFieldsRoundTrip | src/org/gcsl/model/Team.java:37-44 | a C1 record written from a code and name that fit their columns parses back to them |
| Teams.Hy3TeamFieldsRoundTrip | src/org/gcsl/model/Team.java:29-36 | a HY3 team record written from a code and name that fit their columns parses back to them |
| Teams.RetagInjective | src/org/gcsl/model/Team.java:78-83 | when every member carries the same team id, giving them all a new one never makes two members equal |
| Teams.Team.constructor | src/org/gcsl/model/Team.java:20-26 | the team holds the given id, code, name and timestamp and no athletes |
| Teams.Team.Size | src/org/gcsl/model/Team.java:72 | the size is the number of distinct athletes |
| Teams.Team.AddAthlete | src/org/gcsl/model/Team.java:47-51 | the athlete is tagged with the team's id and added; an equal member already present keeps its database id; a tagged team stays tagged |
| Teams.Team.RemoveAthlete | src/org/gcsl/model/Team.java:53-56 | exactly the equal member is removed; the others keep their ids |
| Teams.Team.AddRoster | src/org/gcsl/model/Team.java:58-63 | the members become the union, without retagging; members already present keep their ids; the team stays tagged when the roster carries its id |
| Teams.Team.SetId | src/org/gcsl/model/Team.java:74-85 | the new id, the same code and name, and the members retagged with the new id, each keeping the database id of a member it came from |
| Teams.SetIdKeepsMembers | src/org/gcsl/model/Team.java:74-85 | after setId on a tagged team, every former member is found under the new id with the database id it had |
| Teams.OtherTeamIdNotContained | src/org/gcsl/model/Team.java:47-51 | on a tagged team, an athlete with another team id is never a member |
| Teams.FromSdifData | src/org/gcsl/model/Team.java:37-44 | fails exactly when the C1 record is too short; otherwise a new team with INVALID_ID, the parsed code and name, and no athletes |
| Teams.FromHy3Data | src/org/gcsl/model/Team.java:29-36 | the same for a HY3 team record |
| MeetInfos.MonthLength | src/org/gcsl/model/MeetInfo.java:33-35 | every month has between 28 and 31 days (February 29 in leap years) |
| MeetInfos.ParseMMddyyyy | src/org/gcsl/model/MeetInfo.java:33-35 | only eight digits can parse; a parsed date is a real day whose month and year are the digits read, and whose day is the day read or, past the month's end, the month's last day |
| MeetInfos.ParseFormatDate | src/org/gcsl/model/MeetInfo.java:33-35 | every real day written as "MMddyyyy" parses back to itself |
| MeetInfos.FormatIsoAgreesWithMakeDateString | src/org/gcsl/model/MeetInfo.java:33-35 | for a real day, the stored "yyyy-mm-dd" text is what makeDateString makes of its "MMddyyyy" text |
| MeetInfos.SdifMeetInfo | src/org/gcsl/model/MeetInfo.java:40-49 | a B1 record shorter than 129 characters throws out-of-bounds; otherwise it succeeds exactly when columns 121-129, trimmed, parse as a date; the name is trimmed columns 11-41 |
| MeetInfos.Hy3MeetInfo | src/org/gcsl/model/MeetInfo.java:31-39 | a HY3 meet record shorter than 100 characters throws out-of-bounds; otherwise it succeeds exactly when columns 92-100 parse as a date; the name is trimmed columns 2-32 |
| MeetInfos.SdifMeetInfoRoundTrip | src/org/gcsl/model/MeetInfo.java:40-49 | a B1 record written from a meet with a real date and a name that fits parses back to that meet |
| MeetInfos.SdifMeetInfoOfColumns | src/org/gcsl/model/MeetInfo.java:40-49 | a B1 record whose columns hold a meet's name and date reads as that meet, whatever else it holds |
| MeetInfos.Hy3MeetInfoRoundTrip | src/org/gcsl/model/MeetInfo.java:31-39 | a HY3 meet record written from a meet parses back to it |
| MeetInfos.Hy3MeetInfoOfColumns | src/org/gcsl/model/MeetInfo.java:31-39 | a HY3 meet record whose columns hold a meet's name and date reads as that meet |
| MeetInfos.ParseClampsThirtyFirst | src/org/gcsl/model/MeetInfo.java:33-35 | "04312017" is read as April 30th |
| MeetInfos.ParseClampsFebruary | src/org/gcsl/model/MeetInfo.java:33-35 | February 30th is read as the 28th in 2017 and the 29th in 2016 |
| MeetInfos.ParseRejectsOutOfRange | src/org/gcsl/model/MeetInfo.java:33-35 | month 13, day 32 and year 0 do not parse |
| ArchiveItems.ScenarioNameInjective | src/org/gcsl/db/MeetDbo.java:178 | the stored result_type text tells the scenario apart |
| MeetResultsModel.MeetResults.constructor | src/org/gcsl/model/MeetResults.java:16-20 | the given meet and scenario, no file date, no orphans, no teams |
| MeetResultsModel.MeetResults.FromDateAndName | src/org/gcsl/model/MeetResults.java:21-25 | the same, the meet made from the date and name |
| MeetResultsModel.MeetResults.AddOrphan | src/org/gcsl/model/MeetResults.java:27 | the orphan is appended, duplicates kept; nothing else changes |
| MeetResultsModel.MeetResults.AddOrphans | src/org/gcsl/model/MeetResults.java:28 | the list is appended in order; nothing else changes |
| MeetResultsModel.MeetResults.AddTeam | src/org/gcsl/model/MeetResults.java:29 | the team is appended, so teams keep the order they were read in; nothing else changes |
| MeetResultsModel.MeetResults.SetResultFileDate | src/org/gcsl/model/MeetResults.java:39 | only the file date changes |
| MeetResultsModel.MeetResults.GetDate | src/org/gcsl/model/MeetResults.java:31 | the date of the meet given at construction |
| MeetResultsModel.MeetResults.GetName | src/org/gcsl/model/MeetResults.java:32 | the name of the meet given at construction |
| Relays.FieldsOf | src/org/gcsl/model/Relay.java:33-42 | an E0 record shorter than 80 characters throws out-of-bounds and only it; the name is the trimmed team code, a dash and the relay letter; no-show exactly when the trimmed final time is "NS" |
| Relays.Relay.constructor | src/org/gcsl/model/Relay.java:16-20 | the given name, not a no-show, no swimmers |
| Relays.Relay.WithNoShow | src/org/gcsl/model/Relay.java:21-25 | the given name and no-show flag, no swimmers |
| Relays.Relay.AddAthlete | src/org/gcsl/model/Relay.java:27 | the swimmer is appended; name and flag unchanged |
| Relays.FromSdifData | src/org/gcsl/model/Relay.java:33-42 | a new relay with the record's name and no-show flag, or the out-of-bounds failure |
| Relays.FieldsOfFormat | src/org/gcsl/model/Relay.java:33-42 | an E0 record written from a letter, code and final time reads back as "code-letter" and the time's no-show flag |
| Relays.NameDeterminesTeamAndLetter | src/org/gcsl/model/Relay.java:41 | when codes hold no dash, the relay name gives back its team code and letter |
| Relays.OnlyNsIsNoShow | src/org/gcsl/model/Relay.java:36-37 | "NS" marks a no-show; a scratch ("SCR") and a timed swim do not |
| Base.FirstMatch | src/org/gcsl/sdif/SdifRec.java:31-38 | when some value satisfies the test the result is such a value, otherwise the default: the scan an enum's fromString makes over values() |
| Store.IdsGeneratedSnoc | src/org/gcsl/db/TeamDbo.java:109-114 | a row inserted with the next generated id keeps every table's ids positive, increasing and fresh |
| Store.EnumerationSize | src/org/gcsl/RostersToDbTask.java:100-103 | iterating over a HashSet visits as many athletes as the set holds |
| Store.Database.constructor | src/org/gcsl/GcslApp.java:197 | a new connection holds the tables, with auto-commit on and nothing pending |
| Store.Database.Write | src/org/gcsl/db/AthleteDbo.java:72 | a statement's effect is visible at once; under auto-commit it is lasting at once, otherwise the committed state is untouched |
| Store.Database.Commit | src/org/gcsl/RostersToDbTask.java:58 | what the transaction wrote becomes lasting and the tables stay as they are |
| Store.Database.Rollback | src/org/gcsl/RostersToDbTask.java:65 | the tables go back to the state last committed |
| Store.Database.SetAutoCommit | src/org/gcsl/RostersToDbTask.java:35 | switching auto-commit on commits what is pending; switching it off commits nothing |
| TeamDbo.CodeIndex | src/org/gcsl/db/TeamDbo.java:57-63 | the first row holding the code, or none when no row does |
| TeamDbo.IdIndex | src/org/gcsl/db/TeamDbo.java:83-90 | the first row holding the id, or none when no row does |
| TeamDbo.FindByCode | src/org/gcsl/db/TeamDbo.java:54-74 | null exactly when no row holds the code; otherwise the id, code and name of a row with that code |
| TeamDbo.FindById | src/org/gcsl/db/TeamDbo.java:80-102 | INVALID_ID finds nothing; otherwise null exactly when no row has the id, else that row |
| TeamDbo.Find | src/org/gcsl/db/TeamDbo.java:17-21 | a team with an id is found by its id, one without by its code; null exactly when no row matches |
| TeamDbo.FindByIdOfFound | src/org/gcsl/db/TeamDbo.java:17-21 | in well-formed tables a team found once is found again by its id |
| TeamDbo.WithTeam | src/org/gcsl/db/TeamDbo.java:109-114 | one row with the next id, the code and the name is appended and nothing else changes; the tables stay well-formed |
| TeamDbo.InsertFinds | src/org/gcsl/db/TeamDbo.java:107-118 | what insert returns: a new team without an id is found by its code under the new id; a code already present finds its first row |
| TeamDbo.Insert | src/org/gcsl/db/TeamDbo.java:107-118 | the row is appended, then find(team) is returned; the transaction's committed state is untouched |
| TeamDbo.Roster | src/org/gcsl/db/TeamDbo.java:133-141 | every athlete read back carries the team's id |
| TeamDbo.RetrieveAthletes | src/org/gcsl/db/TeamDbo.java:121-146 | every athlete carries the team's id; INVALID_ID reads nothing |
| TeamDbo.RosterAgreesWithFind | src/org/gcsl/db/TeamDbo.java:133-141 | an athlete is in the roster exactly when it has the team's id and a matching row, with the first such row's id |
| TeamDbo.RetrieveAgreesWithFind | src/org/gcsl/db/TeamDbo.java:121-146 | the roster read back holds exactly the team's athletes that AthleteDbo.find finds, with the ids it finds |
| AthleteDbo.KeyIndex | src/org/gcsl/db/AthleteDbo.java:14-25 | the first row matching name, dob, gender and team_id, or none when no row does |
| AthleteDbo.Find | src/org/gcsl/db/AthleteDbo.java:11-37 | null exactly when no row matches on all four columns; otherwise the id of the first matching row |
| AthleteDbo.IdIndex | src/org/gcsl/db/AthleteDbo.java:41-47 | the first row with the id, or none |
| AthleteDbo.FindById | src/org/gcsl/db/AthleteDbo.java:38-60 | null exactly when no row has the id; otherwise that row's athlete, team_id included |
| AthleteDbo.FindByIdOfFound | src/org/gcsl/db/AthleteDbo.java:11-60 | in well-formed tables, looking up by id what was found by key gives the same athlete back |
| AthleteDbo.WithAthlete | src/org/gcsl/db/AthleteDbo.java:62-74 | one row holding the athlete's columns and the next id is appended; nothing else changes; the tables stay well-formed |
| AthleteDbo.FindAfterInsert | src/org/gcsl/db/AthleteDbo.java:62-74 | insert makes no duplicate check: an athlete already present is still found at its first row, the inserted one under the new id, any other not at all |
| AthleteDbo.Insert | src/org/gcsl/db/AthleteDbo.java:62-74 | the row is appended; the transaction's committed state is untouched |
| AthleteDbo.WithoutAthlete | src/org/gcsl/RostersToDbTask.java:91 | the call to remove is recorded and nothing else changes |
| AthleteDbo.Remove | src/org/gcsl/RostersToDbTask.java:91 | the same, through the connection |
| OrphanDbo.OrphanRows | src/org/gcsl/db/OrphanDbo.java:10-26 | one row per list element, in order, duplicates kept, each with that athlete's team id, name, dob and gender and the given meet id |
| OrphanDbo.OrphanRowsAppend | src/org/gcsl/db/OrphanDbo.java:10-26 | the rows of a list in two parts are the rows of the parts, one after the other |
| OrphanDbo.Insert | src/org/gcsl/db/OrphanDbo.java:10-26 | the rows are appended after the ones already there and nothing else changes |
| OrphanDbo.WithoutOrphansOf | src/org/gcsl/ResultsToDbTask.java:95 | the call to removeOrphans is recorded and nothing else changes |
| OrphanDbo.RemoveOrphans | src/org/gcsl/ResultsToDbTask.java:95 | the same, through the connection |
| MeetDbo.DataOf | src/org/gcsl/db/MeetDbo.java:39 | the teams MeetDbo reads, one per team of the results, in order |
| MeetDbo.MatchIndex | src/org/gcsl/db/MeetDbo.java:135-143 | the first row whose team1_id, team2_id and meet_date match, or none when no row does |
| MeetDbo.FindMeetByTeamIds | src/org/gcsl/db/MeetDbo.java:131-146 | null exactly when no row has the two ids in that order and the date written yyyy-MM-dd; otherwise such a row |
| MeetDbo.FindMeetByTeamCodes | src/org/gcsl/db/MeetDbo.java:117-128 | a code with no team means no meet; otherwise the meet found by the two teams' ids |
| MeetDbo.FindByTeams | src/org/gcsl/db/MeetDbo.java:36-56 | fewer than two teams find nothing; the first two teams are looked up by id when both have one, by code otherwise; a meet found is on the meet's date |
| MeetDbo.IdIndex | src/org/gcsl/db/MeetDbo.java:19-26 | the first row with the id, or none |
| MeetDbo.FindById | src/org/gcsl/db/MeetDbo.java:16-31 | INVALID_ID finds nothing; otherwise null exactly when no row has the id, else that row |
| MeetDbo.WithMeet | src/org/gcsl/db/MeetDbo.java:168-180 | one Meets row with the next id is appended and nothing else changes; the tables stay well-formed |
| MeetDbo.InsertMeetFinds | src/org/gcsl/db/MeetDbo.java:183-184 | the lookup after the insert always finds a meet, so getId never dereferences null; it is the new row only when no older meet of the same teams and date exists |
| MeetDbo.InsertMeet | src/org/gcsl/db/MeetDbo.java:166-185 | fewer than two teams throw out-of-bounds before anything is written; otherwise the row (date, file date, first two team ids, scenario name) is written and the id found for those teams and that date is returned |
| MeetDbo.WithCreditsAppend | src/org/gcsl/db/MeetDbo.java:110-112 | adding credits in two steps is adding them all at once |
| MeetDbo.CreditRows | src/org/gcsl/db/MeetDbo.java:154-159 | one row per athlete in the order visited, with the athlete's id and the meet id |
| MeetDbo.CreditsCoverAthletes | src/org/gcsl/db/MeetDbo.java:149-161 | whatever order the set is visited in, each athlete gets exactly one credit for the meet, under its id, and nothing else is credited |
| MeetDbo.InsertAthleteMeet | src/org/gcsl/db/MeetDbo.java:149-161 | one credit row per athlete of the set, in some iteration order of the set, appended; nothing else changes |
| MeetDbo.CreditRowsSnoc | src/org/gcsl/db/MeetDbo.java:154-159 | visiting one more athlete appends exactly its credit |
| MeetDbo.AllCreditRowsSnoc | src/org/gcsl/db/MeetDbo.java:110-112 | one more team appends exactly that team's credits |
| MeetDbo.CreditAthletesForMeet | src/org/gcsl/db/MeetDbo.java:104-114 | INVALID_ID writes nothing; otherwise every team's athletes are credited, team after team, each team in some order of its set |
| MeetDbo.WithoutCredits | src/org/gcsl/db/MeetDbo.java:74 | a credit is kept exactly when it is for another meet |
| MeetDbo.RemoveResults | src/org/gcsl/db/MeetDbo.java:72-82 | INVALID_ID changes nothing; otherwise the meet's credits are deleted and its Meets row is kept |
| MeetDbo.WithFileDate | src/org/gcsl/db/MeetDbo.java:89 | only the file date of the rows with the id changes |
| MeetDbo.WithFileDateKeepsIds | src/org/gcsl/db/MeetDbo.java:87-99 | the update changes no id, so the tables stay well-formed |
| MeetDbo.Update | src/org/gcsl/db/MeetDbo.java:87-99 | the meet's file date is set, then the orphans are appended, then the credits, all under the given id |
| MeetDbo.Insert | src/org/gcsl/db/MeetDbo.java:61-68 | fewer than two teams write nothing; otherwise the meet row, then the orphans and the credits under the id read back |
| ResultsToDb.CarriedMeetIds | src/org/gcsl/ResultsToDbTask.java:31-76 | (as written) a meet with a stored match is updated under that match's id; a meet without one inherits the id of the meet before it (the first meet the initial value), since the id is never set back |
| ResultsToDb.UnmatchedMeetUpdatesEarlierMatch | src/org/gcsl/ResultsToDbTask.java:31-76 | (as written) meets [match 7, no match] are both sent to update meet 7 |
| ResultsToDb.MeetIdsToUpdate | src/org/gcsl/ResultsToDbTask.java:61-83 | (corrected) a meet goes to update exactly when findByTeams found it a match, under that match's id, and to insert otherwise |
| ResultsToDb.CarriedAgreesUpToFirstMatch | src/org/gcsl/ResultsToDbTask.java:31-83 | the carried id and the corrected decision agree on every meet up to and including the first one with a match |
| ResultsToDb.CarriedDiffersOnlyAfterMatch | src/org/gcsl/ResultsToDbTask.java:31-83 | where the carried id and the corrected decision differ, the meet has no match and an earlier meet had one |
| ResultsToDb.KeysOf | src/org/gcsl/db/MeetDbo.java:39-45 | the keys of the meet's teams, in order |
| ResultsToDb.IdsUpdated | src/org/gcsl/ResultsToDbTask.java:127-142 | every team of the list, in order, as updateTeamIds leaves it |
| ResultsToDb.AthletesUpdated | src/org/gcsl/ResultsToDbTask.java:101-124 | every team keeps its key and holds exactly its athletes the Athletes table has, with their database ids |
| ResultsToDb.TeamDatas | src/org/gcsl/db/MeetDbo.java:39 | what is read of each team, in order |
| ResultsToDb.SetIdRetags | src/org/gcsl/model/Team.java:74-85 | setId on a tagged team leaves exactly its athletes retagged, with their database ids |
| ResultsToDb.UpdateTeamIds | src/org/gcsl/ResultsToDbTask.java:127-142 | true exactly when TeamDbo.find answers for every team; each team found gets the database's id, its athletes retagged; the others are unchanged |
| ResultsToDb.AllFoundSnoc | src/org/gcsl/ResultsToDbTask.java:131-140 | one more team is found exactly when all before it were and it is |
| ResultsToDb.UpdateTeamIdAt | src/org/gcsl/ResultsToDbTask.java:131-140 | one pass of updateTeamIds' loop updates exactly team i |
| ResultsToDb.UpdateTeamId | src/org/gcsl/ResultsToDbTask.java:132-139 | the result says whether TeamDbo.find answered; the team then carries the found id |
| ResultsToDb.LookUpAthletes | src/org/gcsl/ResultsToDbTask.java:108-116 | the list holds exactly the athletes the Athletes table lacks, each once, in the order visited; every athlete found gets the database's id; no athlete is removed yet |
| ResultsToDb.UnfoundStep | src/org/gcsl/ResultsToDbTask.java:109-115 | visiting one more athlete lists it exactly when it is not found |
| ResultsToDb.RemoveAthletes | src/org/gcsl/ResultsToDbTask.java:118-121 | the team keeps exactly the athletes not listed, with their ids |
| ResultsToDb.UpdateTeamAthletes | src/org/gcsl/ResultsToDbTask.java:105-122 | the team's athletes become exactly those found, with their database ids, and the others are listed as its new orphans |
| ResultsToDb.FoundAfterRemoval | src/org/gcsl/ResultsToDbTask.java:108-121 | looking every athlete up and then removing the ones not found leaves the found ones with their ids |
| ResultsToDb.UpdateAthleteIds | src/org/gcsl/ResultsToDbTask.java:101-124 | every team updated as above; the returned orphans are each team's new orphans, team after team |
| ResultsToDb.OrphansFitSnoc | src/org/gcsl/ResultsToDbTask.java:118-121 | one more team's orphans extend the list of orders |
| ResultsToDb.UpdateAthletesAt | src/org/gcsl/ResultsToDbTask.java:105-122 | one pass of updateAthlteIds' loop updates exactly team i |
| ResultsToDb.RemoveResults | src/org/gcsl/ResultsToDbTask.java:92-96 | the meet's credits are deleted, then removeOrphans is called for it |
| ResultsToDb.DataOfTeams | src/org/gcsl/db/MeetDbo.java:39 | what MeetDbo reads of a meet's teams is what is read of each of them |
| ResultsToDb.AddByeTeam | src/org/gcsl/ResultsToDbTask.java:40-47 | for bye-week entries or results the BYE team of the Teams table, if there is one, is appended; otherwise the meet is unchanged |
| ResultsToDb.Prepare | src/org/gcsl/ResultsToDbTask.java:61-65 | existingMeetId becomes the stored match's id when findByTeams finds one and otherwise keeps the value carried from the meets before; the match's results are removed |
| ResultsToDb.MatchIds | src/org/gcsl/ResultsToDbTask.java:67-73 | every team found exactly when the result is true; then the teams and athletes carry their database ids and the new orphans are appended to the meet's |
| ResultsToDb.MatchAthletes | src/org/gcsl/ResultsToDbTask.java:72-73 | every team keeps exactly its athletes the Athletes table has, with their ids, and the others are appended to the meet's orphans, team after team |
| ResultsToDb.StoreMeet | src/org/gcsl/ResultsToDbTask.java:76-83 | update under the match's id, or insert, leaving the tables as Stored describes |
| ResultsToDb.UpdateMatchedMeet | src/org/gcsl/ResultsToDbTask.java:77 | MeetDbo.update under the match's id |
| ResultsToDb.InsertNewMeet | src/org/gcsl/ResultsToDbTask.java:81 | MeetDbo.insert |
| ResultsToDb.Reconcile | src/org/gcsl/ResultsToDbTask.java:61-83 | from findByTeams on, with the existingMeetId carried in, the tables, the meet and the existingMeetId handed on end as Reconciled describes |
| ResultsToDb.ReconciledPaths | src/org/gcsl/ResultsToDbTask.java:61-83 | a team not found stops the pass after the match's results were removed; otherwise the meet is matched and stored under the match's id or, without a match, under the carried existingMeetId (an insert when that is INVALID_ID); on both paths existingMeetId is handed on as the match's id or the carried one |
| ResultsToDb.ProcessMeet | src/org/gcsl/ResultsToDbTask.java:35-83 | one pass of call()'s loop, from the existingMeetId the meets before left, leaves the tables, the meet and existingMeetId as MeetPass describes; a meet with fewer than two teams leaves existingMeetId as it was |
| ResultsToDb.ConcatHas | src/org/gcsl/ResultsToDbTask.java:118-121 | an athlete is among the meet's new orphans exactly when one team's list holds it |
| ResultsToDb.TeamFindReadsTeams | src/org/gcsl/db/TeamDbo.java:17-21 | TeamDbo.find reads only the Teams table |
| ResultsToDb.AthleteFindReadsAthletes | src/org/gcsl/db/AthleteDbo.java:11-37 | AthleteDbo.find reads only the Athletes table |
| ResultsToDb.HowAPassEnds | src/org/gcsl/ResultsToDbTask.java:40-83 | a pass stops with "not 2 teams", writing nothing, exactly when the meet has fewer than two teams after the bye step; with "team not found" exactly when one of its teams is not in the Teams table, and then the match has already lost its results; once findByTeams has run, existingMeetId is the match's id, or the carried one without a match |
| ResultsToDb.AthletesSplit | src/org/gcsl/ResultsToDbTask.java:101-124 | each athlete kept carries the id the Athletes table has for it; each athlete of a team is either kept or listed; the orphans are exactly the athletes the table lacks |
| ResultsToDb.StoredMeet | src/org/gcsl/ResultsToDbTask.java:61-83 | a stored meet had every team in the Teams table; its teams, athletes and orphans are the lookups of AthletesSplit, which removing old results does not change |
| ResultsToDb.MatchingReadsTeamsAndAthletes | src/org/gcsl/ResultsToDbTask.java:67-73 | matching a meet reads only the Teams and Athletes tables |
| ResultsToDb.LookupsReadAthletes | src/org/gcsl/ResultsToDbTask.java:108-116 | the athlete lookups read only the Athletes table |
| ResultsToDb.AllCreditRowsOfMeet | src/org/gcsl/db/MeetDbo.java:104-114 | every credit written for a meet names that meet |
| ResultsToDb.ResultsReplaceStoredMeet | src/org/gcsl/ResultsToDbTask.java:61-77 | results for a stored meet, whatever existingMeetId was carried in, replace its credits with this pass's, leave other meets' credits alone, set its file date, call removeOrphans for it, write the orphans under its id and leave existingMeetId at that id |
| ResultsToDb.ResultsInsertNewMeet | src/org/gcsl/ResultsToDbTask.java:76-83 | results for a meet not stored, when no earlier meet had a match (existingMeetId still INVALID_ID), append one meet row with the next id, the date, file date, scenario and first two team ids, and a lookup then finds a meet |
| ResultsToDb.UnmatchedMeetUpdatesCarried | src/org/gcsl/ResultsToDbTask.java:61-79 | (as written) results for a meet not stored, after an earlier meet had a match, add no meet row: the earlier match's row takes this meet's file date, and this meet's orphans and credits are written under the earlier match's id |
| ResultsToDb.StoppedPersists | src/org/gcsl/ResultsToDbTask.java:55-71 | once a pass returns, later meets are not looked at |
| ResultsToDb.RunOfStopped | src/org/gcsl/ResultsToDbTask.java:55-71 | call() ends as the pass that stopped it did |
| ResultsToDb.RunToExtend | src/org/gcsl/ResultsToDbTask.java:35 | orders of later meets change nothing about earlier ones |
| ResultsToDb.TeamsOf | src/org/gcsl/ResultsToDbTask.java:54 | each meet's teams, in order |
| ResultsToDb.InputsOf | src/org/gcsl/ResultsToDbTask.java:35 | each meet as given, in list order |
| ResultsToDb.RunOfRunning | src/org/gcsl/ResultsToDbTask.java:86-87 | when every meet looked at was stored, call() finishes |
| ResultsToDb.Step | src/org/gcsl/ResultsToDbTask.java:35-84 | one iteration of the loop on meet i, from the existingMeetId the earlier iterations left, extends the run by MeetPass, hands on the pass's existingMeetId and leaves later meets untouched |
| ResultsToDb.RunAll | src/org/gcsl/ResultsToDbTask.java:31-87 | the loop, with existingMeetId starting at INVALID_ID and carried from meet to meet, ends with the ending and tables of the run of the pass over the meets, until cancellation |
| ResultsToDb.Call | src/org/gcsl/ResultsToDbTask.java:28-88 | call() as written: every meet in list order until the list ends, the task is cancelled or a pass stops it, existingMeetId carried from meet to meet and never reset; the ending and the tables are those of the run of MeetPass; nothing is committed or rolled back |
| ResultsToDb.EndsAtFirstStop | src/org/gcsl/ResultsToDbTask.java:55-71 | a run that does not finish ends at the first meet whose pass stops it, with that pass's ending and tables |
| ResultsToDb.Matches | src/org/gcsl/ResultsToDbTask.java:35-65 | what findByTeams answered for each of the first n meets, one answer per meet |
| ResultsToDb.StoreIds | src/org/gcsl/ResultsToDbTask.java:76-83 | the id each of the first n meets was updated under (INVALID_ID for an insert), one per meet |
| ResultsToDb.MeetPassCarriesMatch | src/org/gcsl/ResultsToDbTask.java:61-65 | (as written) a pass that stores its meet leaves existingMeetId at the match's id, or where it was without a match |
| ResultsToDb.CorrectedMeetPassResetsToMatch | src/org/gcsl/ResultsToDbTask.java:61-65 | (corrected) a pass that stores its meet leaves existingMeetId at the match's id, or INVALID_ID without a match |
| ResultsToDb.CarriedStoreIds | src/org/gcsl/ResultsToDbTask.java:31-83 | for any pass that carries existingMeetId, the ids the stored meets go to are CarriedMeetIds of the lookups, from INVALID_ID |
| ResultsToDb.ResetStoreIds | src/org/gcsl/ResultsToDbTask.java:61-83 | for any pass that starts each meet from INVALID_ID, the ids the stored meets go to are MeetIdsToUpdate of the lookups |
| ResultsToDb.AsWrittenStoreIds | src/org/gcsl/ResultsToDbTask.java:31-83 | (as written) along call()'s run, the ids the stored meets are updated under are CarriedMeetIds of what findByTeams answered: a meet without a match takes the id of the last earlier meet that had one |
| ResultsToDb.CorrectedStoreIds | src/org/gcsl/ResultsToDbTask.java:61-83 | (corrected) along the run whose passes start from INVALID_ID, a meet is updated exactly when its own lookup found a match, under that id, and inserted otherwise |
| RostersToDb.InsertAll | src/org/gcsl/RostersToDbTask.java:98-104 | one AthleteDbo.insert per athlete: the id counter moves on by their number and no other table changes |
| RostersToDb.RemoveAll | src/org/gcsl/RostersToDbTask.java:86-93 | one AthleteDbo.remove per athlete, in order, and nothing else |
| RostersToDb.InsertAllFinds | src/org/gcsl/RostersToDbTask.java:98-104 | inserting keeps every athlete that was found as it was, and of the others makes exactly the inserted ones found |
| RostersToDb.MergeCaches | src/org/gcsl/RostersToDbTask.java:111-124 | deleteMeCache ends as the stored roster less the new one, addMeCache as the new roster less the stored one; the two are disjoint and the stored roster less the first plus the second is the new roster |
| RostersToDb.CacheStep | src/org/gcsl/RostersToDbTask.java:121-123 | one turn of the loop removes the athlete from deleteMeCache when it holds it, and otherwise adds it to addMeCache |
| RostersToDb.InsertAthletes | src/org/gcsl/RostersToDbTask.java:98-104 | one insert per athlete of the set, each once, in the order of iteration |
| RostersToDb.DeleteAthletes | src/org/gcsl/RostersToDbTask.java:86-93 | auto-commit off, then one remove per athlete of the set, each once, nothing committed |
| RostersToDb.MergeAthletes | src/org/gcsl/RostersToDbTask.java:109-130 | the stored athletes missing from the new roster are removed, then the new athletes not stored are inserted |
| RostersToDb.DbTeam | src/org/gcsl/RostersToDbTask.java:43-51 | the team found, or for a team with no id the row insert adds, with the next id and the same code; nothing for a team with an id that is not found |
| RostersToDb.TeamWrites | src/org/gcsl/RostersToDbTask.java:43-57 | one pass writes only the Teams and Athletes tables, and the Teams table only by the insert of a team not found |
| RostersToDb.NoStoredAthletesInsertsAll | src/org/gcsl/RostersToDbTask.java:53-57 | with no stored athletes nothing is removed and every parsed athlete is inserted, tagged with the team's database id, so the insert branch is merging from an empty roster |
| RostersToDb.StepLeavesParsedRoster | src/org/gcsl/RostersToDbTask.java:43-58 | after a pass the team's stored athletes, less those removed, are exactly the parsed roster, and an athlete on both rosters keeps its row and id |
| RostersToDb.TeamPass | src/org/gcsl/RostersToDbTask.java:43-57 | a pass has no team exactly when find and insert both give none, which happens only for a team that has an id |
| RostersToDb.StoppedPersists | src/org/gcsl/RostersToDbTask.java:37-70 | once stopped, later teams are not looked at |
| RostersToDb.RunOfStopped | src/org/gcsl/RostersToDbTask.java:63-70 | call() ends as the pass that stopped it did |
| RostersToDb.RunOfRunning | src/org/gcsl/RostersToDbTask.java:79-80 | a loop that went through every team finishes with the tables it wrote |
| RostersToDb.FailureUndoesOnlyThatTeam | src/org/gcsl/RostersToDbTask.java:58-70 | an SQLException at one team's commit rolls back that team's writes only; the teams before it stay committed |
| RostersToDb.CancelKeepsPrefix | src/org/gcsl/RostersToDbTask.java:38-40 | cancelled before team n, the run is the run of the first n teams |
| RostersToDb.RunToOfPrefix | src/org/gcsl/RostersToDbTask.java:37 | the first n passes look only at the first n teams |
| RostersToDb.RunToExtend | src/org/gcsl/RostersToDbTask.java:37 | orders of later teams change nothing about earlier ones |
| RostersToDb.InputsOf | src/org/gcsl/RostersToDbTask.java:37 | each team as given, in list order |
| RostersToDb.ProcessTeam | src/org/gcsl/RostersToDbTask.java:43-57 | one pass up to its commit writes what TeamPass says; when the team is found or inserted it carries that id and its athletes are tagged with it |
| RostersToDb.WriteRoster | src/org/gcsl/RostersToDbTask.java:53-57 | insertAthletes or mergeAthletes, writing what TeamWrites says |
| RostersToDb.Step | src/org/gcsl/RostersToDbTask.java:37-70 | one pass with its commit: the run goes on with everything committed, or stops as RunTo says with auto-commit back on |
| RostersToDb.RunAll | src/org/gcsl/RostersToDbTask.java:34-77 | the loop's ending and committed tables are those of the run of TeamPass over the teams |
| RostersToDb.Loop | src/org/gcsl/RostersToDbTask.java:37-70 | the for loop with auto-commit off: a pass that stops it gives the run's ending and tables, auto-commit back on and nothing pending; otherwise the run finishes with the loop's tables and auto-commit still off |
| RostersToDb.Call | src/org/gcsl/RostersToDbTask.java:28-81 | every team in list order until the list ends, the task is cancelled or a commit fails; the ending and tables are those of that run, with auto-commit on and nothing pending |
| RosterFileProcessor.InputOfValue | src/org/gcsl/RosterFileProcessorTask.java:47-48 | a team read from a roster file has no id yet, so it is looked up by code, with its name and athletes |
| RosterFileProcessor.ParsedTeamIsAlwaysFound | src/org/gcsl/RosterFileProcessorTask.java:48-58 | a team read from a roster file is always found by code or inserted, so dbTeam.getId() never fails here |
| RosterFileProcessor.RunTo | src/org/gcsl/RosterFileProcessorTask.java:68-72 | the loop only ends early with "Failure" or an escaping exception |
| RosterFileProcessor.EndedPersists | src/org/gcsl/RosterFileProcessorTask.java:39-72 | once ended, later items are not read |
| RosterFileProcessor.RunOfEnded | src/org/gcsl/RosterFileProcessorTask.java:68-72 | call() answers as the item that ended it did |
| RosterFileProcessor.RunOfGoing | src/org/gcsl/RosterFileProcessorTask.java:80-81 | a loop that went through every item answers "Success" |
| RosterFileProcessor.ReadFailureStopsAtItem | src/org/gcsl/RosterFileProcessorTask.java:47-72 | an archive that cannot be read as a roster makes call() answer "Failure" (or lets the exception escape), keeping the items committed before it and reading no further |
| RosterFileProcessor.SuccessMeansAllCommitted | src/org/gcsl/RosterFileProcessorTask.java:39-81 | "Success" only when every item allowed was read and committed and no commit failed |
| RosterFileProcessor.RunToExtend | src/org/gcsl/RosterFileProcessorTask.java:39 | orders of later items change nothing about earlier ones |
| RosterFileProcessor.Step | src/org/gcsl/RosterFileProcessorTask.java:41-78 | one item's try, catch and finally: the run goes on, or ends as RunTo says; auto-commit is back on with nothing pending |
| RosterFileProcessor.RunAll | src/org/gcsl/RosterFileProcessorTask.java:39-79 | the answer, committed tables and disk are those of the run over the items |
| RosterFileProcessor.Call | src/org/gcsl/RosterFileProcessorTask.java:33-82 | every archive read and its team written and committed, in order, until the items end, the task is cancelled or an item fails; "Success", "Failure" or the escaping exception, as Run says |
| TeamRecs.AthleteKinds | src/org/gcsl/ReadEntryFilesTask.java:70-72 | the records read as swimmers are never C1, and each has a column layout; the entry copy also takes F0 |
| TeamRecs.EventOf | src/org/gcsl/ReadRosterFilesTask.java:95-116 | a record is a team record exactly when it is C1, and a swimmer exactly when its type is one of the copy's athlete kinds |
| TeamRecs.Events | src/org/gcsl/ReadRosterFilesTask.java:94 | each record classified, in file order |
| TeamRecs.ProcessRecs | src/org/gcsl/ReadRosterFilesTask.java:89-120 | the loop over fresh Team objects fails exactly when the fold does, with the same error, and otherwise yields a team exactly when the fold does, holding the fold's code, name and athletes |
| TeamRecs.ProcessRec | src/org/gcsl/ReadRosterFilesTask.java:95-116 | one turn of the switch does what Step does to the value the Team object holds |
| TeamRecs.FoldErrPersists | src/org/gcsl/ReadRosterFilesTask.java:98-109 | once an exception is thrown later records change nothing: the first error is the answer |
| TeamRecs.FoldCharacterized | src/org/gcsl/ReadRosterFilesTask.java:89-120 | the fold succeeds exactly when there is at most one C1, every record parses and every swimmer comes after the C1; it then has a team exactly when there is a C1, with that record's code and name and exactly the swimmers of the file, duplicates collapsed and with no database id |
| TeamRecs.NotWellFormedSnoc | src/org/gcsl/ReadRosterFilesTask.java:97-110 | a record that breaks those rules after a well-formed prefix makes the fold fail |
| TeamRecs.NotWellFormedExtends | src/org/gcsl/ReadRosterFilesTask.java:94 | later records cannot mend a broken prefix |
| TeamRecs.TeamFile | src/org/gcsl/ReadRosterFilesTask.java:158-171 | a file that cannot be opened fails as opening it does; a team is read only from a file of the expected header type, as the fold of its records gives it |
| TeamRecs.TeamFileRejectsOtherTypes | src/org/gcsl/ReadRosterFilesTask.java:163-165 | a header of another type is refused with the file-type mismatch error |
| TeamRecs.TeamFileNeedsTeam | src/org/gcsl/ReadRosterFilesTask.java:170 | well-formed records without a C1 are refused with "No team defined" |
| TeamRecs.TeamFileOfFold | src/org/gcsl/ReadEntryFilesTask.java:99-101 | a fold with no team is refused with "No team defined" |
| TeamRecs.ReadTeamFile | src/org/gcsl/ReadEntryFilesTask.java:89-102 | readEntryFile / readRosterFile fail exactly as TeamFile does, and otherwise return a fresh Team holding its value |
| ReadResultFiles.EventOf | src/org/gcsl/ReadResultFilesTask.java:96-119 | B1 is a meet, C1 a team, D0 and F0 a swimmer, each parsed as MeetInfo.fromSdif, Team.fromSdifData and Athlete.fromSdif parse it; every other record is passed over |
| ReadResultFiles.Events | src/org/gcsl/ReadResultFilesTask.java:95 | each record classified, in file order |
| ReadResultFiles.Finish | src/org/gcsl/ReadResultFilesTask.java:121 | the current meet with its teams, exactly when there is one |
| ReadResultFiles.FoldErrPersists | src/org/gcsl/ReadResultFilesTask.java:104-112 | once an exception is thrown later records change nothing |
| ReadResultFiles.AllFields | src/org/gcsl/ReadResultFilesTask.java:103 | the code and name of each team, in order |
| ReadResultFiles.FoldSummarizes | src/org/gcsl/ReadResultFilesTask.java:90-122 | a successful fold has a meet exactly when there is a B1; it is the last B1's, with the teams of the C1 records after it, in file order |
| ReadResultFiles.NoMeetYet | src/org/gcsl/ReadResultFilesTask.java:92 | with no B1 there is no meet |
| ReadResultFiles.NoTeamYet | src/org/gcsl/ReadResultFilesTask.java:93 | with no C1 there is no current team |
| ReadResultFiles.TeamBeforeMeetFails | src/org/gcsl/ReadResultFilesTask.java:102-105 | a C1 that parses with no B1 before it fails with "Meet information required" |
| ReadResultFiles.AthleteBeforeTeamFails | src/org/gcsl/ReadResultFilesTask.java:109-114 | a D0 or F0 that parses with no C1 before it fails with "Team information required" |
| ReadResultFiles.AthleteJoinsLastTeam | src/org/gcsl/ReadResultFilesTask.java:110-113 | a swimmer after a C1 of the current meet joins that meet's last team and changes no other team |
| ReadResultFiles.AthleteAfterNewMeetLost | src/org/gcsl/ReadResultFilesTask.java:97-113 | a swimmer read after a new B1 and before its first C1 goes to the team left behind and does not reach the new meet |
| ReadResultFiles.ExpectedResultType | src/org/gcsl/ReadResultFilesTask.java:151-158 | MEET_RESULTS expects a meet-results header, the bye-week and rain-out scenarios UNKNOWN, and TEAM_ROSTER is refused |
| ReadResultFiles.ResultFile | src/org/gcsl/ReadResultFilesTask.java:145-176 | the reader is opened first; a roster scenario is refused; a meet is read only from a header of the scenario's type, as processMeetResults gives it |
| ReadResultFiles.ResultFileRejectsOtherTypes | src/org/gcsl/ReadResultFilesTask.java:170-173 | a header of another type is refused with the file-type mismatch error |
| ReadResultFiles.ResultFileNeedsMeet | src/org/gcsl/ReadResultFilesTask.java:163 | records without a B1 are refused with "No results defined" |
| ReadResultFiles.ResultFileOfNoMeet | src/org/gcsl/ReadResultFilesTask.java:161-163 | a fold with no meet is refused with "No results defined" |
| ReadResultFiles.ProcessWithoutMeet | src/org/gcsl/ReadResultFilesTask.java:90-122 | records without a B1 that the fold accepts hold no meet |
| ReadResultFiles.ResultArchive | src/org/gcsl/ReadResultFilesTask.java:129-141 | the item's SDIF file read as its scenario demands; a temporary file is deleted after a successful read only |
| ReadResultFiles.ProcessMeetResults | src/org/gcsl/ReadResultFilesTask.java:90-122 | the loop over fresh MeetResults and Team objects fails exactly when the fold does, with the same error, and otherwise holds the meet the fold gives |
| ReadResultFiles.ProcessRec | src/org/gcsl/ReadResultFilesTask.java:96-119 | one turn of the switch does what Step does to the state the objects hold |
| ReadResultFiles.MeetCase | src/org/gcsl/ReadResultFilesTask.java:97-100 | a B1 makes a fresh MeetResults and keeps the current team |
| ReadResultFiles.TeamCase | src/org/gcsl/ReadResultFilesTask.java:102-106 | a C1 is parsed, then the meet is looked for and the fresh team appended |
| ReadResultFiles.AddTeam | src/org/gcsl/ReadResultFilesTask.java:104-105 | the team is appended to the current meet, when there is one, and becomes the current team |
| ReadResultFiles.AthleteCase | src/org/gcsl/ReadResultFilesTask.java:109-114 | a swimmer is parsed, then added to the current team, wherever that team is |
| ReadResultFiles.AddTeamTracks | src/org/gcsl/ReadResultFilesTask.java:105 | after addTeam the objects hold the state Step gives |
| ReadResultFiles.AddAthleteTracks | src/org/gcsl/ReadResultFilesTask.java:113 | after addAthlete the objects hold the state Step gives |
| ReadResultFiles.ReadResultFile | src/org/gcsl/ReadResultFilesTask.java:145-164 | readResultFile fails exactly as ResultFile does, and otherwise returns a fresh MeetResults of scenario MEET_RESULTS holding the meet |
| ReadResultFiles.ReadResultArchive | src/org/gcsl/ReadResultFilesTask.java:129-141 | readResultArchive as ResultArchive says, disk included |
| ReadResultFiles.ReadItem | src/org/gcsl/ReadResultFilesTask.java:44-51 | one turn of call()'s loop extends the run by the item's meet, or halts it with the item's error |
| ReadResultFiles.ReadAll | src/org/gcsl/ReadResultFilesTask.java:39-58 | the loop answers as the run of its reads over the items |
| ReadResultFiles.Call | src/org/gcsl/ReadResultFilesTask.java:31-59 | the meets of the items in order, or null at the first SdifException or IOException, or the exception that escapes; and the disk left behind |
| ReadRosterFiles.FirstWith | src/org/gcsl/ReadRosterFilesTask.java:73-77 | the first name whose lower-case form ends with the extension, and no earlier one does |
| ReadRosterFiles.RosterMember | src/org/gcsl/ReadRosterFilesTask.java:68-86 | the first ".cl2" member, or failing that the first ".hy3" one; none exactly when neither exists |
| ReadRosterFiles.SelectRosterMember | src/org/gcsl/ReadRosterFilesTask.java:73-85 | the two searches pick RosterMember |
| ReadRosterFiles.Cl2WinsOverHy3 | src/org/gcsl/ReadRosterFilesTask.java:72-83 | a ".CL2" member is taken over an earlier ".hy3" one |
| ReadRosterFiles.RosterExtraction | src/org/gcsl/ReadRosterFilesTask.java:68-86 | an archive with no roster member is refused; from a ZIP the chosen member is copied to "./temp_" plus its name, and only that file of the disk changes; this succeeds exactly when there is a roster member whose temporary file can be created, and is an I/O error otherwise |
| ReadRosterFiles.ExtractRosterFromArchive | src/org/gcsl/ReadRosterFilesTask.java:68-86 | extractRosterFromArchive as RosterExtraction says |
| ReadRosterFiles.RosterArchive | src/org/gcsl/ReadRosterFilesTask.java:126-153 | an archive that is not a ZIP, or has no roster member, leaves the disk alone; a ZIP's temporary file is deleted after a successful read only |
| ReadRosterFiles.RosterArchiveDispatch | src/org/gcsl/ReadRosterFilesTask.java:134-146 | an SD3 is read in place as meet registration, a ZIP through its chosen member as vendor-defined (an I/O error, disk untouched, when that member cannot be extracted), and anything else is refused as an unknown archive |
| ReadRosterFiles.TempDeletedOnlyOnSuccess | src/org/gcsl/ReadRosterFilesTask.java:146-150 | the temporary file is gone after a successful read and left behind after a failure |
| ReadRosterFiles.SuccessRestoresDisk | src/org/gcsl/ReadRosterFilesTask.java:136-150 | on a disk without leftover temporary files a successful read leaves the disk as it was |
| ReadRosterFiles.ReadRosterArchive | src/org/gcsl/ReadRosterFilesTask.java:126-153 | readRosterArchive as RosterArchive says, returning a fresh Team holding the value |
| ReadRosterFiles.RosterItemStable | src/org/gcsl/ReadRosterFilesTask.java:48-49 | on such a disk every successful item read leaves the disk as it was |
| ReadRosterFiles.ReadItem | src/org/gcsl/ReadRosterFilesTask.java:47-55 | one turn of call()'s loop extends the run by the item's team, or halts it with the item's error |
| ReadRosterFiles.ReadAll | src/org/gcsl/ReadRosterFilesTask.java:42-62 | the loop answers as the run of its reads over the items |
| ReadRosterFiles.Call | src/org/gcsl/ReadRosterFilesTask.java:34-63 | the teams of the items in order, or null at the first SdifException or IOException, or the exception that escapes; and the disk left behind |
| ReadEntryFiles.ExpectedEntryType | src/org/gcsl/ReadEntryFilesTask.java:37-43 | a ZIP expects vendor-defined, an SD3 meet registration, and anything else is refused |
| ReadEntryFiles.EntryArchive | src/org/gcsl/ReadEntryFilesTask.java:31-51 | a failed extraction leaves the disk alone; a temporary file is deleted after a successful read only |
| ReadEntryFiles.ArchiveTypeKept | src/org/gcsl/ReadEntryFilesTask.java:34-37 | extracting a member does not change the archive path's type |
| ReadEntryFiles.EntryOfSd3 | src/org/gcsl/ReadEntryFilesTask.java:41-45 | an SD3 is read in place as meet registration and the disk is left as it was |
| ReadEntryFiles.EntryOfUnknown | src/org/gcsl/ReadEntryFilesTask.java:42 | a path that is no archive is refused without touching the disk |
| ReadEntryFiles.EntryOfZip | src/org/gcsl/ReadEntryFilesTask.java:40-45 | a ZIP is read through its first listed member as vendor-defined |
| ReadEntryFiles.EntryTempDeletedOnlyOnSuccess | src/org/gcsl/ReadEntryFilesTask.java:35-48 | a temporary file goes away exactly after a successful read; the archive's own file is never deleted |
| ReadEntryFiles.ReadEntryArchive | src/org/gcsl/ReadEntryFilesTask.java:31-51 | processArchiveItem as EntryArchive says, returning a fresh Team holding the value |
| ReadEntryFiles.ProcessItem | src/org/gcsl/ReadSdifArchiveTask.java:41-42 | one turn of the loop extends the run by the item's team, or halts it with the item's error |
| ReadEntryFiles.ProcessAll | src/org/gcsl/ReadSdifArchiveTask.java:34-46 | the loop answers as ArchiveRun of its reads, with progress 1, 2, ... for each item started |
| ReadEntryFiles.Call | src/org/gcsl/ReadSdifArchiveTask.java:27-47 | the teams of the items in order, or the first exception, which escapes; progress reported as each item starts |
| ReadSdifArchive.OrderResultFilesHead | src/org/gcsl/ReadSdifArchiveTask.java:73-77 | the first file name is the listing up to its first ", ", or the whole listing when there is none |
| ReadSdifArchive.ExtractSdifFile | src/org/gcsl/ReadSdifArchiveTask.java:52-69 | an SD3 is its own SDIF file; a ZIP gives up its first listed member as a temporary file, fails when the listing has no entry, and is an I/O error when that member cannot be extracted; anything else is refused |
| ReadSdifArchive.ExtractSingleMember | src/org/gcsl/ReadSdifArchiveTask.java:54-61 | a listing without ", " is extracted under its whole text |
| ReadSdifArchive.ExtractFromSeparatorsOnly | src/org/gcsl/ReadSdifArchiveTask.java:54-61 | a listing ", , " has no first entry, so archiveContents[0] is out of bounds |
| ReadSdifArchive.ArchiveRun | src/org/gcsl/ReadSdifArchiveTask.java:27-47 | call() never returns null: it returns the results or an exception escapes |
| ReadSdifArchive.Started | src/org/gcsl/ReadSdifArchiveTask.java:36-39 | no more items are started than the list holds before the cancellation |
| ReadSdifArchive.Steps | src/org/gcsl/ReadSdifArchiveTask.java:39 | the progress reports are 1, 2, ..., n |
| ReadSdifArchive.ArchiveRunShape | src/org/gcsl/ReadSdifArchiveTask.java:34-46 | a finished call() has one result per item before the cancellation; a failing one reported the failing item's progress and had processed every item before it |
| ReadSdifArchive.HaltedAt | src/org/gcsl/ReadSdifArchiveTask.java:41 | the loop stops at one item: going before it, stopped just after it |
| ReadSdifArchive.ArchiveRunOfGoing | src/org/gcsl/ReadSdifArchiveTask.java:44-46 | every item processed: call() returns their results |
| ReadSdifArchive.ArchiveRunOfHalted | src/org/gcsl/ReadSdifArchiveTask.java:38-41 | item i threw: its exception ends call(), after i + 1 progress reports |
| CallLoops.RunOfGoing | src/org/gcsl/ReadRosterFilesTask.java:60-62 | every item read: call() returns what it read |
| CallLoops.RunOfHalted | src/org/gcsl/ReadRosterFilesTask.java:52-55 | a failing item makes call() return null when it is an SdifException or IOException, and lets the exception escape otherwise |
| CallLoops.HaltedPersists | src/org/gcsl/ReadResultFilesTask.java:48-51 | once stopped, later items are not read |
| CallLoops.RunToOnStableDisk | src/org/gcsl/ReadRosterFilesTask.java:42-59 | when successful reads leave the disk alone, the loop goes on exactly while each item reads, gives each item's value in order, and stops at the first failure with its error |
| CallLoops.RunOnStableDisk | src/org/gcsl/ReadRosterFilesTask.java:34-63 | call() returns every item's value in input order exactly when all read, and null exactly when the first failure is an SdifException or IOException |
| JavaString.Trim | src/org/gcsl/model/Team.java:32-33 | String.trim: the result has no leading or trailing character at or below ' ' and is no longer than the input |
| JavaString.TrimOfPadded | src/org/gcsl/model/Team.java:40-41 | a column that is padding around unpadded text trims to exactly that text |
| JavaString.CollapseSpacesSound | src/org/gcsl/model/Athlete.java:110 | replaceAll(" +", " ") leaves no two spaces in a row and keeps every other character in order |
| JavaString.DropSpacesRun | src/org/gcsl/model/Athlete.java:110 | a run of spaces in front of a text that does not start with one is dropped whole |
| JavaString.CollapseAppend | src/org/gcsl/model/Athlete.java:110 | a prefix with no two adjacent spaces and no trailing space is kept as it is, whatever follows it |
| JavaString.CollapseOfRun | src/org/gcsl/model/Athlete.java:110 | a run of one or more spaces in front of a text that does not start with one becomes exactly one space |
| JavaString.CollapseSpacesRun | src/org/gcsl/model/Athlete.java:110 | in a + k spaces + b, with k >= 1, a free of double spaces and not ending in one, and b not starting with one, the run becomes exactly one space: the result is a + " " + the collapse of b |
| JavaString.CollapseSpacesRuns | src/org/gcsl/model/Athlete.java:110 | the same for every way of writing a text as a + run + b |
| JavaString.LastIndexOf | src/org/gcsl/sdif/SdifReader.java:102 | the last position holding the character, or -1 when none does |
| JavaString.Lower | src/org/gcsl/ReadRosterFilesTask.java:74 | toLowerCase on ASCII, character by character |
| JavaString.FoldChar | src/org/gcsl/util/Utils.java:48 | the per-character fold of equalsIgnoreCase: ASCII lower case, plus "ı" and "İ" to "i", "ſ" to "s" and the Kelvin sign to "k"; no other character folds to ASCII, and the result is never an upper-case ASCII letter |
| JavaString.EqualsIgnoreCaseAscii | src/org/gcsl/sdif/SdifReader.java:22 | against ASCII text t, s.equalsIgnoreCase(t) holds exactly when the fold of s is t in ASCII lower case |
| JavaString.IndexOf | src/org/gcsl/ReadSdifArchiveTask.java:76 | the first position at which the separator occurs, if any |
| JavaString.SplitWithoutSeparator | src/org/gcsl/ReadSdifArchiveTask.java:76 | a text without the separator splits into itself |
| JavaString.SplitHead | src/org/gcsl/ReadSdifArchiveTask.java:76 | the first piece of a split is the text before the first separator |
| JavaString.SplitEmptyOfSeparators | src/org/gcsl/ReadSdifArchiveTask.java:76 | a text made of two separators splits into no pieces, trailing empty pieces being dropped |


## Left out

- JavaFX user interface, reports and threading are not modelled. Status messages (`updateMessage`) and the progress
  of the roster and results tasks (`updateProgress`) are not modelled either; the generic archive loop's progress
  is. `isCancelled()` is an input: the index of the first item at which it holds.
- ZIP and file I/O are a `Disk` value. It holds each file's lines, the directories, and each ZIP archive's member
  names and contents. Deleting removes a path.
  - Extracting a member writes "./temp_" plus its name. The write fails with an IOException for a directory entry
    (a name ending in '/'), for a path that is an existing directory, and for a name whose directory part has no
    "./temp_" directory.
  - No other write failure (a full disk, missing permissions) is modelled.
  - The byte copy in `extractArchiveEntry` and character encodings are not modelled: a member is its lines.
- `Utils.getFilesFromDirectory` is not modelled. It lists a directory for the selection dialogs, which only supply
  the archive items the tasks receive.
- `TeamDbo.findAll` is not modelled. It feeds the report and dialog code only, and it swallows its own
  SQLException.
- JDBC is in-memory tables. Ids come from a counter, so each new row's id is larger than any before it.
- SQL statement failures are not modelled; every INSERT, UPDATE, DELETE and SELECT succeeds.
  - The commit of one chosen team or item may fail in `RostersToDb` and `RosterFileProcessor`. That is where their
    rollback paths start.
  - `ResultsToDb` has no failure path: its `call()` lets an SQLException escape without rollback, and the model
    does not exercise it.
- The `last_update` columns are not modelled. The database maintains them and no core operation reads them.
- `AthleteDbo.remove` and `OrphanDbo.removeOrphans` are called but not defined in the repository. The tables record
  the calls made to them, in order, and the rows they would delete stay.
- `MeetInfo`'s `LocalDate.parse` is modelled as an explicit MMddyyyy parser. It covers month lengths and leap years
  and fails with a runtime error rather than an SdifException. ISO printing is `yyyy-MM-dd`.
- Each `ProcessArchiveItem` is a value: directory, name, contents listing and scenario. Its scenario enum and getters
  are not part of this model beyond that value.
- RosterFileProcessorTask's private copies are not modelled separately. Its copies of `readRosterArchive`,
  `extractRosterFromArchive`, `readRosterFile`, `processRosterRecs`, `mergeAthletes`, `insertAthletes` and
  `deleteAthletes` are the same code as ReadRosterFilesTask's and RostersToDbTask's, so
  `RosterFileProcessor.Call` uses those members.
- ResultsToDb.Call: requires that no MeetResults appears twice in the list and that no Team object belongs to two
  meets, or twice to one. It also requires each meet date to be a valid date and each team's athletes to carry the
  team's id. The Java code accepts aliased objects; the model does not describe what aliasing would do.
- ResultsToDb.RunAll: the same aliasing restriction as ResultsToDb.Call.
- RostersToDb.Call: requires that no Team object appears twice in the list. A repeated object would be processed
  twice in Java, and the model does not describe that.
- RostersToDb.RunAll: the same restriction as RostersToDb.Call.
- JavaString.FoldChar: folds the ASCII letters and the four non-ASCII characters that fold onto an ASCII letter.
  Other non-ASCII case pairs (such as "É" and "é") are compared exactly. That makes no difference to the core's
  comparisons, whose other side is always ASCII (".sd3", ".zip", "CL2", "HY3", "SD3"). In Unicode's case tables no
  other character folds onto ASCII, but the model takes that from the tables and does not derive it.
- SdifReaders.SdifReader.ReadFile: the buffered reader is the file's remaining lines, given when the reader is
  opened. A read error in mid-file (IOException from `readLine`) is not modelled.

## Findings

| source | as written | input that shows it | evidently intended | confidence | as-written member | corrected member |
|---|---|---|---|---|---|---|
| src/org/gcsl/ResultsToDbTask.java:31,61-63,76 | `existingMeetId` is declared before the loop and set only when `findByTeams` finds a stored meet; it is never reset to `INVALID_ID` | two meets, the first matching stored meet 7 and the second matching nothing: the second is sent to `MeetDbo.update(..., 7)`, which gives meet 7 its file date and adds its orphans and credits to meet 7's, and it is never inserted | each meet is updated only when its own lookup finds a stored meet, and inserted otherwise | high (not executed) | ResultsToDb.Call, ResultsToDb.AsWrittenStoreIds, ResultsToDb.UnmatchedMeetUpdatesCarried, ResultsToDb.UnmatchedMeetUpdatesEarlierMatch | ResultsToDb.CorrectedMeetPass, ResultsToDb.CorrectedStoreIds, ResultsToDb.MeetIdsToUpdate |
