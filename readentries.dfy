/** org.gcsl.ReadEntryFilesTask: one Team per entry archive, its swimmers taken from the D0, D1 and F0 records. */
module ReadEntryFiles {
  import opened Base
  import opened Utils
  import FD = SdifFileDescriptions
  import TR = TeamRecs
  import T = Teams
  import Scn = ArchiveItems
  import opened CallLoops
  import opened ReadSdifArchive

  /** The header type an entry file must carry: vendor-defined inside a ZIP, meet registration for an SD3. */
  function ExpectedEntryType(t: ArchiveFileType): (r: Option<FD.FileType>)
    ensures r.None? <==> t == UNKNOWN
  {
    match t
    case ZIP => Some(FD.VendorDefined)
    case SD3 => Some(FD.MeetRegistration)
    case UNKNOWN => None
  }

  /** processArchiveItem: the SDIF file of the item read as an entry file; the file is temporary when its path is not
      the archive's own, and a temporary file is deleted once the team is read. A failure leaves it on the disk. */
  function EntryArchive(disk: Disk, item: Scn.ArchiveItem): (r: (Result<TR.TeamValue>, Disk))
    ensures ExtractSdifFile(disk, item).Err? ==> r == (Err(ExtractSdifFile(disk, item).error), disk)
    ensures ExtractSdifFile(disk, item).Ok? ==>
              var (path, extracted) := ExtractSdifFile(disk, item).value;
              r.1 == if r.0.Ok? && path != Scn.ArchivePath(item) then Delete(extracted, path) else extracted
  {
    var archivePath := Scn.ArchivePath(item);
    match ExtractSdifFile(disk, item)
    case Err(e) => (Err(e), disk)
    case Ok((path, extracted)) =>
      var isTemp := archivePath != path;
      match ExpectedEntryType(GetArchiveFileType(Info(extracted, archivePath)))
      case None => (Err(Sdif(UnknownArchive)), extracted)
      case Some(expected) =>
        var team := TR.TeamFile(TR.Entry, extracted, path, expected);
        (team, if team.Ok? && isTemp then Delete(extracted, path) else extracted)
  }

  /** Extracting a member does not change what the archive path is: only the temporary file is new on the disk. */
  lemma ArchiveTypeKept(disk: Disk, item: Scn.ArchiveItem)
    requires ExtractSdifFile(disk, item).Ok?
    ensures GetArchiveFileType(Info(ExtractSdifFile(disk, item).value.1, Scn.ArchivePath(item)))
            == GetArchiveFileType(Info(disk, Scn.ArchivePath(item)))
  {
    var p := Scn.ArchivePath(item);
    var (path, extracted) := ExtractSdifFile(disk, item).value;
    assert p in disk.files || p in disk.zips || p in disk.dirs;
    assert p in extracted.files || p in extracted.zips || p in extracted.dirs by {
      if p in disk.files && p != path {
        assert p in disk.files - {path};
      }
    }
  }

  /** An SD3 archive is read in place as a meet-registration file, and the disk is left as it was. */
  lemma EntryOfSd3(disk: Disk, item: Scn.ArchiveItem)
    requires GetArchiveFileType(Info(disk, Scn.ArchivePath(item))) == SD3
    ensures EntryArchive(disk, item) == (TR.TeamFile(TR.Entry, disk, Scn.ArchivePath(item), FD.MeetRegistration), disk)
  {
    var path := Scn.ArchivePath(item);
    assert ExtractSdifFile(disk, item) == Ok((path, disk));
    ArchiveTypeKept(disk, item);
    assert ExpectedEntryType(GetArchiveFileType(Info(disk, path))) == Some(FD.MeetRegistration);
  }

  /** A path that is no archive is refused without touching the disk. */
  lemma EntryOfUnknown(disk: Disk, item: Scn.ArchiveItem)
    requires GetArchiveFileType(Info(disk, Scn.ArchivePath(item))) == UNKNOWN
    ensures EntryArchive(disk, item) == (Err(Sdif(UnknownArchive)), disk)
  {
  }

  /** A ZIP archive is read through its first listed member as a vendor-defined file. */
  lemma EntryOfZip(disk: Disk, item: Scn.ArchiveItem)
    requires GetArchiveFileType(Info(disk, Scn.ArchivePath(item))) == ZIP && ExtractSdifFile(disk, item).Ok?
    ensures var (path, extracted) := ExtractSdifFile(disk, item).value;
            EntryArchive(disk, item).0 == TR.TeamFile(TR.Entry, extracted, path, FD.VendorDefined)
  {
    ArchiveTypeKept(disk, item);
  }

  /** A temporary file is one whose path differs from the archive's; it goes away exactly when the team is read, while
      the archive's own file is never deleted. */
  lemma EntryTempDeletedOnlyOnSuccess(disk: Disk, item: Scn.ArchiveItem)
    requires ExtractSdifFile(disk, item).Ok?
    ensures var (path, extracted) := ExtractSdifFile(disk, item).value;
            && (EntryArchive(disk, item).0.Ok? && path != Scn.ArchivePath(item) ==> path !in EntryArchive(disk, item).1.files)
            && (EntryArchive(disk, item).0.Err? ==> EntryArchive(disk, item).1 == extracted)
            && (path == Scn.ArchivePath(item) ==> EntryArchive(disk, item).1 == extracted)
  {
  }

  /** processArchiveItem. */
  method ReadEntryArchive(disk: Disk, item: Scn.ArchiveItem) returns (r: Result<T.Team>, after: Disk)
    ensures r.Ok? <==> EntryArchive(disk, item).0.Ok?
    ensures r.Err? ==> r.error == EntryArchive(disk, item).0.error
    ensures r.Ok? ==> fresh(r.value) && TR.Holds(r.value, EntryArchive(disk, item).0.value)
    ensures after == EntryArchive(disk, item).1
  {
    var archivePath := Scn.ArchivePath(item);
    var extraction := ExtractSdifFile(disk, item);
    if extraction.Err? {
      return Err(extraction.error), disk;
    }
    var (path, extracted) := extraction.value;
    var isTemp := archivePath != path;
    var expected := ExpectedEntryType(GetArchiveFileType(Info(extracted, archivePath)));
    if expected.None? {
      return Err(Sdif(UnknownArchive)), extracted;
    }
    r := TR.ReadTeamFile(TR.Entry, extracted, path, expected.value);
    after := if r.Ok? && isTemp then Delete(extracted, path) else extracted;
  }

  /** read processes archive items as ReadEntryFilesTask does; stated one item at a time so that the loop over the
      items can speak of read without the processing of each being spelled out in it. */
  predicate ProcessesLikeTask(read: (Disk, Scn.ArchiveItem) -> (Result<TR.TeamValue>, Disk), d: Disk, item: Scn.ArchiveItem) {
    read(d, item) == EntryArchive(d, item)
  }

  /** One pass of call()'s loop: item i processed. */
  method ProcessItem(ghost read: (Disk, Scn.ArchiveItem) -> (Result<TR.TeamValue>, Disk),
                     current: Disk, items: seq<Scn.ArchiveItem>, i: nat, ghost disk: Disk, ghost values: seq<TR.TeamValue>)
    returns (r: Result<T.Team>, next: Disk, ghost v: TR.TeamValue)
    requires forall d, item :: ProcessesLikeTask(read, d, item)
    requires i < |items| && RunTo(read, disk, items, i) == Going(values, current)
    ensures r.Err? ==> RunTo(read, disk, items, i + 1) == Halted(r.error, next, i)
    ensures r.Ok? ==> RunTo(read, disk, items, i + 1) == Going(values + [v], next)
    ensures r.Ok? ==> fresh(r.value) && TR.Holds(r.value, v)
  {
    assert ProcessesLikeTask(read, current, items[i]);
    r, next := ReadEntryArchive(current, items[i]);
    v := if r.Ok? then EntryArchive(current, items[i]).0.value else TR.TeamValue("", "", map[]);
  }

  /** ReadSdifArchiveTask.call() for any read that processes items as this task does. */
  method ProcessAll(ghost read: (Disk, Scn.ArchiveItem) -> (Result<TR.TeamValue>, Disk),
                    disk: Disk, items: seq<Scn.ArchiveItem>, cancelAt: nat)
    returns (r: Outcome<seq<T.Team>>, after: Disk, progress: seq<nat>)
    requires forall d, item :: ProcessesLikeTask(read, d, item)
    ensures TR.Mirrors(r, ArchiveRun(read, disk, items, cancelAt).0)
    ensures after == ArchiveRun(read, disk, items, cancelAt).1
    ensures progress == Steps(Started(read, disk, items, cancelAt))
  {
    var teams: seq<T.Team> := [];
    ghost var values: seq<TR.TeamValue> := [];
    var current := disk;
    progress := [];
    var i := 0;
    while i < |items| && i < cancelAt
      invariant 0 <= i <= Min(|items|, cancelAt)
      invariant RunTo(read, disk, items, i) == Going(values, current)
      invariant TR.AllHold(teams, values)
      invariant progress == Steps(i)
      decreases |items| - i
    {
      progress := progress + [i + 1];
      assert progress == Steps(i + 1);
      var team, next, v := ProcessItem(read, current, items, i, disk, values);
      if team.Err? {
        ArchiveRunOfHalted(read, disk, items, cancelAt, i, team.error, next);
        r, after := Crashed(team.error), next;
        return;
      }
      TR.AllHoldSnoc(teams, values, team.value, v);
      teams, values := teams + [team.value], values + [v];
      current, i := next, i + 1;
    }
    ArchiveRunOfGoing(read, disk, items, cancelAt, i, values, current);
    r, after := Done(teams), current;
  }

  /** call(): the teams of the items in order, or the first exception, which escapes; progress 1, 2, ... as items start. */
  method Call(disk: Disk, items: seq<Scn.ArchiveItem>, cancelAt: nat) returns (r: Outcome<seq<T.Team>>, after: Disk, progress: seq<nat>)
    ensures TR.Mirrors(r, ArchiveRun(EntryArchive, disk, items, cancelAt).0)
    ensures after == ArchiveRun(EntryArchive, disk, items, cancelAt).1
    ensures progress == Steps(Started(EntryArchive, disk, items, cancelAt))
  {
    r, after, progress := ProcessAll(EntryArchive, disk, items, cancelAt);
  }
}
