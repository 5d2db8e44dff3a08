/** org.gcsl.ReadRosterFilesTask: one Team per roster archive, read in order, stopping at the first failure. */
module ReadRosterFiles {
  import opened Base
  import opened JavaString
  import opened Utils
  import FD = SdifFileDescriptions
  import TR = TeamRecs
  import T = Teams
  import Scn = ArchiveItems
  import opened CallLoops

  predicate IsCl2(name: string) { EndsWith(Lower(name), ".cl2") }
  predicate IsHy3(name: string) { EndsWith(Lower(name), ".hy3") }

  /** The first name whose lower-case form ends with ext. */
  function FirstWith(names: seq<string>, ext: string): (r: Option<nat>)
    ensures r.Some? ==> r.value < |names| && EndsWith(Lower(names[r.value]), ext)
    ensures forall k :: 0 <= k < |names| && (r.None? || k < r.value) ==> !EndsWith(Lower(names[k]), ext)
  {
    if names == [] then None
    else if EndsWith(Lower(names[0]), ext) then Some(0)
    else
      match FirstWith(names[1..], ext)
      case None => None
      case Some(i) => Some(i + 1)
  }

  /** The member extractRosterFromArchive takes: the first ".cl2" member, or failing that the first ".hy3" one. */
  function RosterMember(names: seq<string>): (r: Option<string>)
    ensures forall i :: 0 <= i < |names| && IsCl2(names[i]) && (forall k :: 0 <= k < i ==> !IsCl2(names[k])) ==> r == Some(names[i])
    ensures (forall k :: 0 <= k < |names| ==> !IsCl2(names[k])) ==>
              forall j :: 0 <= j < |names| && IsHy3(names[j]) && (forall k :: 0 <= k < j ==> !IsHy3(names[k])) ==> r == Some(names[j])
    ensures r.None? <==> forall k :: 0 <= k < |names| ==> !IsCl2(names[k]) && !IsHy3(names[k])
    ensures r.Some? ==> r.value in names
  {
    match FirstWith(names, ".cl2")
    case Some(i) => Some(names[i])
    case None =>
      match FirstWith(names, ".hy3")
      case Some(j) => Some(names[j])
      case None => None
  }

  /** The two searches of extractRosterFromArchive. */
  method SelectRosterMember(names: seq<string>) returns (r: Option<string>)
    ensures r == RosterMember(names)
  {
    var i := 0;
    while i < |names|
      invariant 0 <= i <= |names|
      invariant forall k :: 0 <= k < i ==> !IsCl2(names[k])
    {
      if IsCl2(names[i]) {
        assert RosterMember(names) == Some(names[i]);
        return Some(names[i]);
      }
      i := i + 1;
    }
    var j := 0;
    while j < |names|
      invariant 0 <= j <= |names|
      invariant forall k :: 0 <= k < j ==> !IsHy3(names[k])
    {
      if IsHy3(names[j]) {
        assert RosterMember(names) == Some(names[j]);
        return Some(names[j]);
      }
      j := j + 1;
    }
    r := None;
  }

  /** A ".CL2" member is taken over an earlier ".hy3" one. */
  lemma Cl2WinsOverHy3(hy3: string, cl2: string)
    requires IsHy3(hy3) && IsCl2(cl2)
    ensures RosterMember([hy3, cl2]) == Some(cl2)
  {
    assert !IsCl2(hy3) by {
      var l := Lower(hy3);
      assert l[|l| - 4..] == ".hy3";
      assert l[|l| - 3] == 'h';
    }
    var names := [hy3, cl2];
    assert IsCl2(names[1]) && forall k :: 0 <= k < 1 ==> !IsCl2(names[k]);
  }

  /** extractRosterFromArchive: the chosen member copied to its temporary file, or no roster in the archive. */
  function RosterExtraction(disk: Disk, archivePath: string): (r: Result<(string, Disk)>)
    ensures RosterMember(ArchiveListing(disk, archivePath)).None? ==> r == Err(Sdif(NoRosterFileInArchive))
    ensures GetArchiveFileType(Info(disk, archivePath)) == ZIP ==>
              (r.Ok? <==> (RosterMember(ArchiveListing(disk, archivePath)).Some? &&
                           Extractable(disk, RosterMember(ArchiveListing(disk, archivePath)).value)))
    ensures (GetArchiveFileType(Info(disk, archivePath)) == ZIP && RosterMember(ArchiveListing(disk, archivePath)).Some? &&
             !Extractable(disk, RosterMember(ArchiveListing(disk, archivePath)).value))
            ==> r == Err(Io)
    ensures GetArchiveFileType(Info(disk, archivePath)) == ZIP && r.Ok? ==>
              r.value.0 == "./temp_" + RosterMember(ArchiveListing(disk, archivePath)).value && r.value.0 in r.value.1.files
    ensures r.Ok? ==> r.value.1.zips == disk.zips && r.value.1.dirs == disk.dirs
    ensures r.Ok? ==> r.value.1.files - {r.value.0} == disk.files - {r.value.0}
  {
    match RosterMember(ArchiveListing(disk, archivePath))
    case None => Err(Sdif(NoRosterFileInArchive))
    case Some(n) => FileFromArchive(disk, archivePath, n)
  }

  method ExtractRosterFromArchive(disk: Disk, archivePath: string) returns (r: Result<(string, Disk)>)
    ensures r == RosterExtraction(disk, archivePath)
  {
    var names := ArchiveListing(disk, archivePath);
    var member := SelectRosterMember(names);
    if member.None? {
      return Err(Sdif(NoRosterFileInArchive));
    }
    r := FileFromArchive(disk, archivePath, member.value);
  }

  /** readRosterArchive: a ZIP archive holds a vendor-defined roster file, extracted to a temporary file that is deleted
      once the team is read; an SD3 archive is itself a meet-registration file; anything else is refused.
      The disk is the one left behind, also on failure. */
  function RosterArchive(disk: Disk, archivePath: string): (r: (Result<TR.TeamValue>, Disk))
    ensures GetArchiveFileType(Info(disk, archivePath)) != ZIP || RosterExtraction(disk, archivePath).Err? ==> r.1 == disk
    ensures GetArchiveFileType(Info(disk, archivePath)) == ZIP && r.0.Ok? ==> RosterExtraction(disk, archivePath).Ok?
    ensures GetArchiveFileType(Info(disk, archivePath)) == ZIP && RosterExtraction(disk, archivePath).Ok? ==>
              r.1 == if r.0.Ok? then Delete(RosterExtraction(disk, archivePath).value.1, RosterExtraction(disk, archivePath).value.0)
                     else RosterExtraction(disk, archivePath).value.1
  {
    match GetArchiveFileType(Info(disk, archivePath))
    case ZIP =>
      (match RosterExtraction(disk, archivePath)
       case Err(e) => (Err(e), disk)
       case Ok((temp, extracted)) =>
         match TR.TeamFile(TR.Roster, extracted, temp, FD.VendorDefined)
         case Err(e) => (Err(e), extracted)
         case Ok(team) => (Ok(team), Delete(extracted, temp)))
    case SD3 => (TR.TeamFile(TR.Roster, disk, archivePath, FD.MeetRegistration), disk)
    case UNKNOWN => (Err(Sdif(UnknownArchive)), disk)
  }

  /** What is read and from where: an SD3 archive is read in place as a meet-registration file, a ZIP archive through its
      chosen member as a vendor-defined file, and any other path fails without touching the disk. */
  lemma RosterArchiveDispatch(disk: Disk, archivePath: string)
    ensures GetArchiveFileType(Info(disk, archivePath)) == SD3 ==>
              RosterArchive(disk, archivePath) == (TR.TeamFile(TR.Roster, disk, archivePath, FD.MeetRegistration), disk)
    ensures GetArchiveFileType(Info(disk, archivePath)) == UNKNOWN ==>
              RosterArchive(disk, archivePath) == (Err(Sdif(UnknownArchive)), disk)
    ensures GetArchiveFileType(Info(disk, archivePath)) == ZIP && RosterMember(ArchiveListing(disk, archivePath)).Some? &&
            Extractable(disk, RosterMember(ArchiveListing(disk, archivePath)).value) ==>
              var temp := "./temp_" + RosterMember(ArchiveListing(disk, archivePath)).value;
              RosterArchive(disk, archivePath).0 ==
                TR.TeamFile(TR.Roster, RosterExtraction(disk, archivePath).value.1, temp, FD.VendorDefined)
    ensures GetArchiveFileType(Info(disk, archivePath)) == ZIP && RosterMember(ArchiveListing(disk, archivePath)).Some? &&
            !Extractable(disk, RosterMember(ArchiveListing(disk, archivePath)).value) ==>
              RosterArchive(disk, archivePath) == (Err(Io), disk)
    ensures GetArchiveFileType(Info(disk, archivePath)) == ZIP && RosterMember(ArchiveListing(disk, archivePath)).None? ==>
              RosterArchive(disk, archivePath) == (Err(Sdif(NoRosterFileInArchive)), disk)
  {
  }

  /** The temporary file of a ZIP archive is deleted only on the successful path; a failure leaves it behind. */
  lemma TempDeletedOnlyOnSuccess(disk: Disk, archivePath: string)
    requires GetArchiveFileType(Info(disk, archivePath)) == ZIP && RosterExtraction(disk, archivePath).Ok?
    ensures var temp := RosterExtraction(disk, archivePath).value.0;
            (RosterArchive(disk, archivePath).0.Ok? ==> RosterArchive(disk, archivePath).1.files == disk.files - {temp})
            && (RosterArchive(disk, archivePath).0.Err? ==> temp in RosterArchive(disk, archivePath).1.files)
  {
    var (temp, extracted) := RosterExtraction(disk, archivePath).value;
    assert extracted.files == disk.files[temp := extracted.files[temp]];
    assert extracted.files - {temp} == disk.files - {temp};
  }

  /** A disk without leftover temporary files. */
  predicate TempFree(disk: Disk) {
    forall p :: p in disk.files ==> !(|p| >= 7 && p[..7] == "./temp_")
  }

  lemma TempNotOnDisk(disk: Disk, name: string)
    requires TempFree(disk)
    ensures "./temp_" + name !in disk.files
  {
    var p := "./temp_" + name;
    assert |p| >= 7 && p[..7] == "./temp_";
  }

  /** On such a disk, reading an archive successfully leaves the disk as it was. */
  lemma SuccessRestoresDisk(disk: Disk, archivePath: string)
    requires TempFree(disk) && RosterArchive(disk, archivePath).0.Ok?
    ensures RosterArchive(disk, archivePath).1 == disk
  {
    if GetArchiveFileType(Info(disk, archivePath)) == ZIP {
      var name := RosterMember(ArchiveListing(disk, archivePath)).value;
      var ex := RosterExtraction(disk, archivePath);
      assert ex.Ok?;
      var temp := ex.value.0;
      var extracted := ex.value.1;
      assert temp == "./temp_" + name;
      TempNotOnDisk(disk, name);
      DeleteRestores(disk, extracted, temp);
    }
  }

  lemma DeleteRestores(disk: Disk, extracted: Disk, temp: string)
    requires temp !in disk.files && extracted.files - {temp} == disk.files - {temp}
    requires extracted.zips == disk.zips && extracted.dirs == disk.dirs
    ensures Delete(extracted, temp) == disk
  {
    assert disk.files - {temp} == disk.files;
  }

  method ReadRosterArchive(disk: Disk, archivePath: string) returns (r: Result<T.Team>, after: Disk)
    ensures r.Ok? <==> RosterArchive(disk, archivePath).0.Ok?
    ensures r.Err? ==> r.error == RosterArchive(disk, archivePath).0.error
    ensures r.Ok? ==> fresh(r.value) && TR.Holds(r.value, RosterArchive(disk, archivePath).0.value)
    ensures after == RosterArchive(disk, archivePath).1
  {
    var fileType := GetArchiveFileType(Info(disk, archivePath));
    match fileType
    case ZIP => {
      var extraction := ExtractRosterFromArchive(disk, archivePath);
      if extraction.Err? {
        return Err(extraction.error), disk;
      }
      var (temp, extracted) := extraction.value;
      var team := TR.ReadTeamFile(TR.Roster, extracted, temp, FD.VendorDefined);
      if team.Err? {
        return Err(team.error), extracted;
      }
      r, after := team, Delete(extracted, temp);
    }
    case SD3 => {
      r := TR.ReadTeamFile(TR.Roster, disk, archivePath, FD.MeetRegistration);
      after := disk;
    }
    case UNKNOWN => {
      r, after := Err(Sdif(UnknownArchive)), disk;
    }
  }

  /** The body of call()'s try block for one item: its archive read at getDirectory() + File.separator + getName(). */
  function RosterItem(disk: Disk, item: Scn.ArchiveItem): (Result<TR.TeamValue>, Disk) {
    RosterArchive(disk, Scn.ArchivePath(item))
  }

  /** On a disk without leftover temporary files every successful read leaves the disk as it was, so
      CallLoops.RunOnStableDisk describes call() on it. */
  lemma RosterItemStable(disk: Disk)
    requires TempFree(disk)
    ensures forall item :: RosterItem(disk, item).0.Ok? ==> RosterItem(disk, item).1 == disk
  {
    forall item | RosterItem(disk, item).0.Ok?
      ensures RosterItem(disk, item).1 == disk
    {
      SuccessRestoresDisk(disk, Scn.ArchivePath(item));
    }
  }

  /** read reads archive items as call() does. Stated one item at a time so that a loop over the items can speak of
      read without the reading of every archive being spelled out in it. */
  predicate ReadsLikeCall(read: (Disk, Scn.ArchiveItem) -> (Result<TR.TeamValue>, Disk), d: Disk, item: Scn.ArchiveItem) {
    read(d, item) == RosterItem(d, item)
  }

  /** One pass of call()'s loop: the archive of item i read. */
  method ReadItem(ghost read: (Disk, Scn.ArchiveItem) -> (Result<TR.TeamValue>, Disk),
                  current: Disk, items: seq<Scn.ArchiveItem>, i: nat, ghost disk: Disk, ghost values: seq<TR.TeamValue>)
    returns (r: Result<T.Team>, next: Disk, ghost v: TR.TeamValue)
    requires forall d, item :: ReadsLikeCall(read, d, item)
    requires i < |items| && RunTo(read, disk, items, i) == Going(values, current)
    ensures r.Err? ==> RunTo(read, disk, items, i + 1) == Halted(r.error, next, i)
    ensures r.Ok? ==> RunTo(read, disk, items, i + 1) == Going(values + [v], next)
    ensures r.Ok? ==> fresh(r.value) && TR.Holds(r.value, v)
  {
    assert ReadsLikeCall(read, current, items[i]);
    r, next := ReadRosterArchive(current, Scn.ArchivePath(items[i]));
    v := if r.Ok? then RosterArchive(current, Scn.ArchivePath(items[i])).0.value else TR.TeamValue("", "", map[]);
  }

  /** call()'s loop, for any read that reads items as call() does. */
  method ReadAll(ghost read: (Disk, Scn.ArchiveItem) -> (Result<TR.TeamValue>, Disk),
                 disk: Disk, items: seq<Scn.ArchiveItem>, cancelAt: nat) returns (r: Outcome<seq<T.Team>>, after: Disk)
    requires forall d, item :: ReadsLikeCall(read, d, item)
    ensures TR.Mirrors(r, Run(read, disk, items, cancelAt).0)
    ensures after == Run(read, disk, items, cancelAt).1
  {
    var teams: seq<T.Team> := [];
    ghost var values: seq<TR.TeamValue> := [];
    var current := disk;
    var i := 0;
    while i < |items| && i < cancelAt
      invariant 0 <= i <= Min(|items|, cancelAt)
      invariant RunTo(read, disk, items, i) == Going(values, current)
      invariant TR.AllHold(teams, values)
      decreases |items| - i
    {
      var team, next, v := ReadItem(read, current, items, i, disk, values);
      if team.Err? {
        RunOfHalted(read, disk, items, cancelAt, i, team.error, next);
        r, after := if Caught(team.error) then NullResult else Crashed(team.error), next;
        return;
      }
      TR.AllHoldSnoc(teams, values, team.value, v);
      teams, values := teams + [team.value], values + [v];
      current, i := next, i + 1;
    }
    RunOfGoing(read, disk, items, cancelAt, i, values, current);
    r, after := Done(teams), current;
  }

  /** call(): the teams of the items in order, or null at the first caught failure. */
  method Call(disk: Disk, items: seq<Scn.ArchiveItem>, cancelAt: nat) returns (r: Outcome<seq<T.Team>>, after: Disk)
    ensures TR.Mirrors(r, Run(RosterItem, disk, items, cancelAt).0)
    ensures after == Run(RosterItem, disk, items, cancelAt).1
  {
    r, after := ReadAll(RosterItem, disk, items, cancelAt);
  }
}
