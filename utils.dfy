/** org.gcsl.util.Utils: date normalisation, archive classification and archive listings. */
module Utils {
  import opened Base
  import opened JavaString

  /** Id of an object that has no row in the store yet. */
  const INVALID_ID: int := -1

  datatype ArchiveFileType = ZIP | SD3 | UNKNOWN

  /** makeDateString: "mmddyyyy..." becomes "yyyy-mm-dd"; text shorter than 8 characters becomes "". */
  function MakeDateString(buf: string): (r: string)
    ensures |buf| < 8 <==> r == []
    ensures |buf| >= 8 ==> |r| == 10 && r[4] == '-' && r[7] == '-'
    ensures |buf| >= 8 ==> r[..4] == buf[4..8] && r[5..7] == buf[..2] && r[8..] == buf[2..4]
  {
    if |buf| >= 8 then buf[4..8] + "-" + buf[0..2] + "-" + buf[2..4] else ""
  }

  /** Only the first eight characters of the input matter. */
  lemma MakeDateStringUsesFirstEight(buf: string)
    requires |buf| >= 8
    ensures MakeDateString(buf) == MakeDateString(buf[..8])
  {
    var p := buf[..8];
    assert p[4..8] == buf[4..8] && p[0..2] == buf[0..2] && p[2..4] == buf[2..4];
  }

  lemma MakeDateStringExample()
    ensures MakeDateString("07122017") == "2017-07-12"
    ensures MakeDateString("0712201") == ""
  {
    var b := "07122017";
    assert b[4..8] == "2017" && b[0..2] == "07" && b[2..4] == "12";
  }

  /** Reads a "yyyy-mm-dd" text back as "mmddyyyy". */
  function UnmakeDateString(iso: string): (r: string)
    requires |iso| == 10
    ensures |r| == 8
  {
    iso[5..7] + iso[8..10] + iso[..4]
  }

  /** Normalising loses nothing of the first eight characters. */
  lemma MakeDateStringRoundTrip(buf: string)
    requires |buf| >= 8
    ensures UnmakeDateString(MakeDateString(buf)) == buf[..8]
  {
    var r := MakeDateString(buf);
    assert r[5..7] + r[8..10] + r[..4] == buf[..2] + buf[2..4] + buf[4..8];
    assert buf[..2] + buf[2..4] + buf[4..8] == buf[..8];
  }

  /** A "yyyy-mm-dd" text is the normalisation of its own "mmddyyyy" reading. */
  lemma UnmakeDateStringRoundTrip(iso: string)
    requires |iso| == 10 && iso[4] == '-' && iso[7] == '-'
    ensures MakeDateString(UnmakeDateString(iso)) == iso
  {
    var b := UnmakeDateString(iso);
    assert b[4..8] == iso[..4] && b[0..2] == iso[5..7] && b[2..4] == iso[8..10];
    assert iso == iso[..4] + "-" + iso[5..7] + "-" + iso[8..10];
  }

  /** What java.io.File reports about a path: its last name component, whether it exists, whether it is a directory. */
  datatype FileInfo = FileInfo(name: string, present: bool, isDirectory: bool)

  /** Last four characters of the file name compared with ".sd3" and ".zip", ignoring case. */
  function GetArchiveFileType(f: FileInfo): (r: ArchiveFileType)
    ensures r == SD3 <==> f.present && !f.isDirectory && |f.name| > 4 && EqualsIgnoreCase(f.name[|f.name| - 4..], ".sd3")
    ensures r == ZIP <==> f.present && !f.isDirectory && |f.name| > 4 && EqualsIgnoreCase(f.name[|f.name| - 4..], ".zip")
  {
    if f.present && !f.isDirectory && |f.name| > 4 then
      var ext := f.name[|f.name| - 4..];
      assert Fold(".sd3")[1] != Fold(".zip")[1];
      if EqualsIgnoreCase(ext, ".sd3") then SD3
      else if EqualsIgnoreCase(ext, ".zip") then ZIP
      else UNKNOWN
    else UNKNOWN
  }

  /** A missing path, a directory, or a name of at most four characters is never an archive. */
  lemma UnusableFileIsUnknown(f: FileInfo)
    requires !f.present || f.isDirectory || |f.name| <= 4
    ensures GetArchiveFileType(f) == UNKNOWN
  {
  }

  lemma ArchiveFileTypeExamples()
    ensures GetArchiveFileType(FileInfo("team.SD3", true, false)) == SD3
    ensures GetArchiveFileType(FileInfo("week1.Zip", true, false)) == ZIP
    ensures GetArchiveFileType(FileInfo("team.cl2", true, false)) == UNKNOWN
    ensures GetArchiveFileType(FileInfo(".sd3", true, false)) == UNKNOWN
  {
    assert Fold("team.SD3"[4..]) == ".sd3" == Fold(".sd3");
    assert Fold("week1.Zip"[5..]) == ".zip" == Fold(".zip");
    assert Fold("team.cl2"[4..])[1] != Fold(".sd3")[1];
    assert Fold("team.cl2"[4..])[1] != Fold(".zip")[1];
  }

  /** equalsIgnoreCase also folds the dotless i and the long s onto 'i' and 's'. */
  lemma NonAsciiArchiveFileTypes()
    ensures GetArchiveFileType(FileInfo("week1.Z\U{131}P", true, false)) == ZIP
    ensures GetArchiveFileType(FileInfo("team.\U{17F}D3", true, false)) == SD3
  {
    assert Fold("week1.Z\U{131}P"[5..]) == ".zip" == Fold(".zip");
    assert Fold("team.\U{17F}D3"[4..]) == ".sd3" == Fold(".sd3");
  }

  /** getFileNamesFromArchive: the member names of a ZIP (none when it cannot be read), the file itself for an SD3. */
  function FileNamesFromArchive(f: FileInfo, zipListing: Option<seq<string>>): (r: seq<string>)
    ensures GetArchiveFileType(f) == SD3 ==> r == [f.name]
    ensures GetArchiveFileType(f) == UNKNOWN ==> r == []
    ensures GetArchiveFileType(f) == ZIP ==> r == if zipListing.Some? then zipListing.value else []
  {
    match GetArchiveFileType(f)
    case SD3 => [f.name]
    case ZIP => if zipListing.Some? then zipListing.value else []
    case UNKNOWN => []
  }

  /** One member of a ZIP archive: its entry name and its text, line by line. */
  datatype ZipMember = ZipMember(name: string, lines: seq<string>)

  /** The part of the file system the engine touches:
      readable text files by path, directories, and the ZIP archives that can be opened, with their members in entry order.
      A ".zip" path held by files but not by zips is a file java.util.zip.ZipFile fails to open. */
  datatype Disk = Disk(files: map<string, seq<string>>, dirs: set<string>, zips: map<string, seq<ZipMember>>)

  /** File.getName: the text after the last '/'. */
  function FileName(path: string): (r: string)
    ensures r == path[LastIndexOf(path, '/') + 1..]
    ensures '/' !in r
  {
    var i := LastIndexOf(path, '/');
    var r := path[i + 1..];
    assert '/' !in r by {
      forall k | 0 <= k < |r| ensures r[k] != '/' {
        assert r[k] == path[i + 1 + k];
      }
    }
    r
  }

  function Info(disk: Disk, path: string): FileInfo {
    FileInfo(FileName(path), path in disk.files || path in disk.zips || path in disk.dirs, path in disk.dirs)
  }

  function MemberNames(members: seq<ZipMember>): (r: seq<string>)
    ensures |r| == |members| && forall i :: 0 <= i < |members| ==> r[i] == members[i].name
  {
    seq(|members|, i requires 0 <= i < |members| => members[i].name)
  }

  /** getFileNamesFromArchive(String) on the disk. */
  function ArchiveListing(disk: Disk, path: string): (r: seq<string>)
    ensures GetArchiveFileType(Info(disk, path)) == SD3 ==> r == [FileName(path)]
    ensures GetArchiveFileType(Info(disk, path)) == ZIP && path in disk.zips ==> r == MemberNames(disk.zips[path])
    ensures GetArchiveFileType(Info(disk, path)) == ZIP && path !in disk.zips ==> r == []
    ensures GetArchiveFileType(Info(disk, path)) == UNKNOWN ==> r == []
  {
    FileNamesFromArchive(Info(disk, path), if path in disk.zips then Some(MemberNames(disk.zips[path])) else None)
  }

  /** The last member with the given name: every matching entry is written to the same temporary file in turn. */
  function LastMember(members: seq<ZipMember>, name: string): (r: Option<ZipMember>)
    ensures r.None? <==> name !in MemberNames(members)
    ensures r.Some? ==> r.value in members && r.value.name == name
  {
    if members == [] then None
    else if members[|members| - 1].name == name then Some(members[|members| - 1])
    else
      assert MemberNames(members) == MemberNames(members[..|members| - 1]) + [members[|members| - 1].name];
      LastMember(members[..|members| - 1], name)
  }

  /** Whether new FileOutputStream("./temp_" + name) can open its file for a ZIP entry of that name. It throws
      FileNotFoundException (an IOException) when the entry is a directory entry (its name ends in '/'), when the path
      is an existing directory, or when the name has a directory part and "./temp_" plus that part is not a directory. */
  predicate Extractable(disk: Disk, name: string) {
    var i := LastIndexOf(name, '/');
    && (name == [] || name[|name| - 1] != '/')
    && "./temp_" + name !in disk.dirs
    && (i < 0 || "./temp_" + name[..i] in disk.dirs)
  }

  /** getFileFromArchive: extracts the named member to "./temp_" + name and returns that path,
      or returns "" when there is no such member; an archive that cannot be opened, or a temporary file that cannot be
      created, throws IOException. */
  function FileFromArchive(disk: Disk, archivePath: string, fileName: string): (r: Result<(string, Disk)>)
    ensures r.Err? <==> archivePath !in disk.zips || (fileName in MemberNames(disk.zips[archivePath]) && !Extractable(disk, fileName))
    ensures r.Err? ==> r.error == Io
    ensures r.Ok? ==> (r.value.0 == [] <==> fileName !in MemberNames(disk.zips[archivePath]))
    ensures r.Ok? && r.value.0 == [] ==> r.value.1 == disk
    ensures r.Ok? && r.value.0 != [] ==> r.value.0 == "./temp_" + fileName
    ensures r.Ok? && r.value.0 != [] ==> r.value.1 == disk.(files := disk.files[r.value.0 := LastMember(disk.zips[archivePath], fileName).value.lines])
    ensures r.Ok? ==> r.value.1.files - {r.value.0} == disk.files - {r.value.0}
  {
    if archivePath !in disk.zips then Err(Io)
    else match LastMember(disk.zips[archivePath], fileName)
      case None => Ok(("", disk))
      case Some(m) =>
        if !Extractable(disk, fileName) then Err(Io)
        else
          var temp := "./temp_" + fileName;
          assert disk.files[temp := m.lines] - {temp} == disk.files - {temp};
          Ok((temp, disk.(files := disk.files[temp := m.lines])))
  }

  /** A ZIP entry named rosters/team.cl2, from a zipped folder, cannot be extracted while ./temp_rosters does not
      exist, and the folder's own entry rosters/ never can. */
  lemma ZippedFolderNotExtracted(disk: Disk)
    requires "/r/a.zip" in disk.zips && MemberNames(disk.zips["/r/a.zip"]) == ["rosters/", "rosters/team.cl2"]
    requires "./temp_rosters" !in disk.dirs
    ensures FileFromArchive(disk, "/r/a.zip", "rosters/team.cl2") == Err(Io)
    ensures FileFromArchive(disk, "/r/a.zip", "rosters/") == Err(Io)
  {
    var names := MemberNames(disk.zips["/r/a.zip"]);
    assert names[1] == "rosters/team.cl2" && names[0] == "rosters/";
    var n := "rosters/team.cl2";
    assert LastIndexOf(n, '/') == 7 by {
      assert n[7] == '/';
      assert forall k :: 7 < k < |n| ==> n[k] != '/';
    }
    assert "./temp_" + n[..7] == "./temp_rosters";
    assert n in names && !Extractable(disk, n);
    assert "rosters/" in names && !Extractable(disk, "rosters/");
  }

  /** Files.deleteIfExists / File.delete on a regular file. */
  function Delete(disk: Disk, path: string): (r: Disk)
    ensures path !in r.files && r.files == disk.files - {path}
    ensures r.dirs == disk.dirs && r.zips == disk.zips
  {
    disk.(files := disk.files - {path})
  }
}
