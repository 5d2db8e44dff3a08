/** org.gcsl.ReadSdifArchiveTask: the loop that turns archive items into one result each, and the choice of the SDIF file
    inside an archive. ReadResultFilesTask carries its own copy of that choice (extractResultsArchiveFile). */
module ReadSdifArchive {
  import opened Base
  import opened JavaString
  import opened Utils
  import Scn = ArchiveItems
  import opened CallLoops

  /** orderResultFiles: the picker's listing "a.cl2, a.hy3" cut at each ", ", in the order given. */
  function OrderResultFiles(contents: string): seq<string> {
    Split(contents, ", ")
  }

  /** The first file name is the listing up to its first ", ", or the whole listing when there is none. */
  lemma OrderResultFilesHead(contents: string)
    ensures IndexOf(contents, ", ").None? ==> OrderResultFiles(contents) == [contents]
    ensures OrderResultFiles(contents) != [] ==>
              OrderResultFiles(contents)[0] == match IndexOf(contents, ", ") case None => contents case Some(i) => contents[..i]
  {
    if IndexOf(contents, ", ").None? {
      SplitWithoutSeparator(contents, ", ");
    }
    if OrderResultFiles(contents) != [] {
      SplitHead(contents, ", ");
    }
  }

  /** extractSdifFileFromArchive: an SD3 archive is itself the SDIF file; a ZIP archive gives up the first listed member
      as a temporary file (archiveContents[0], so a listing made only of separators throws
      ArrayIndexOutOfBoundsException); anything else is refused. The disk is the one the extraction leaves. */
  function ExtractSdifFile(disk: Disk, item: Scn.ArchiveItem): (r: Result<(string, Disk)>)
    ensures GetArchiveFileType(Info(disk, Scn.ArchivePath(item))) == SD3 ==> r == Ok((Scn.ArchivePath(item), disk))
    ensures GetArchiveFileType(Info(disk, Scn.ArchivePath(item))) == UNKNOWN ==> r == Err(Sdif(UnknownArchive))
    ensures GetArchiveFileType(Info(disk, Scn.ArchivePath(item))) == ZIP ==>
              r == if OrderResultFiles(item.contents) == [] then Err(IndexOutOfBounds)
                   else FileFromArchive(disk, Scn.ArchivePath(item), OrderResultFiles(item.contents)[0])
    ensures r.Ok? ==> r.value.1.zips == disk.zips && r.value.1.dirs == disk.dirs
    ensures r.Ok? ==> r.value.1.files - {r.value.0} == disk.files - {r.value.0}
  {
    var path := Scn.ArchivePath(item);
    var contents := OrderResultFiles(item.contents);
    match GetArchiveFileType(Info(disk, path))
    case ZIP => if contents == [] then Err(IndexOutOfBounds) else FileFromArchive(disk, path, contents[0])
    case SD3 => Ok((path, disk))
    case UNKNOWN => Err(Sdif(UnknownArchive))
  }

  /** A ZIP item whose listing has no ", " is extracted under its whole listing as member name. */
  lemma ExtractSingleMember(disk: Disk, item: Scn.ArchiveItem)
    requires GetArchiveFileType(Info(disk, Scn.ArchivePath(item))) == ZIP && IndexOf(item.contents, ", ").None?
    ensures ExtractSdifFile(disk, item) == FileFromArchive(disk, Scn.ArchivePath(item), item.contents)
  {
    OrderResultFilesHead(item.contents);
  }

  /** A ZIP item listed only as ", , " has no first entry. */
  lemma ExtractFromSeparatorsOnly(disk: Disk, item: Scn.ArchiveItem)
    requires GetArchiveFileType(Info(disk, Scn.ArchivePath(item))) == ZIP && item.contents == ", , "
    ensures ExtractSdifFile(disk, item) == Err(IndexOutOfBounds)
  {
    assert ", , " == ", " + ", ";
    SplitEmptyOfSeparators(", ");
  }

  /** call(): every item before the cancellation processed in order, its result collected; nothing is caught, so the
      first exception escapes call() and ends it. */
  function ArchiveRun<V>(process: (Disk, Scn.ArchiveItem) -> (Result<V>, Disk), disk: Disk, items: seq<Scn.ArchiveItem>, cancelAt: nat)
    : (r: (Outcome<seq<V>>, Disk))
    ensures !r.0.NullResult?
  {
    match RunTo(process, disk, items, Min(|items|, cancelAt))
    case Going(vs, d) => (Done(vs), d)
    case Halted(e, d, _) => (Crashed(e), d)
  }

  /** How many items call() started: progress is reported before an item is processed, so a failing item counts. */
  function Started<V>(process: (Disk, Scn.ArchiveItem) -> (Result<V>, Disk), disk: Disk, items: seq<Scn.ArchiveItem>, cancelAt: nat)
    : (n: nat)
    ensures n <= Min(|items|, cancelAt)
  {
    match RunTo(process, disk, items, Min(|items|, cancelAt))
    case Going(_, _) => Min(|items|, cancelAt)
    case Halted(_, _, at) => HaltedInRange(process, disk, items, Min(|items|, cancelAt)); at + 1
  }

  lemma {:induction false} HaltedInRange<V>(process: (Disk, Scn.ArchiveItem) -> (Result<V>, Disk), disk: Disk, items: seq<Scn.ArchiveItem>, n: nat)
    requires n <= |items| && RunTo(process, disk, items, n).Halted?
    ensures RunTo(process, disk, items, n).at < n
    decreases n
  {
    if RunTo(process, disk, items, n - 1).Halted? {
      HaltedInRange(process, disk, items, n - 1);
    }
  }

  /** The updateProgress(curItem, numItems) calls of the first n items: 1, 2, ..., n. */
  function Steps(n: nat): (r: seq<nat>)
    ensures |r| == n && forall k :: 0 <= k < n ==> r[k] == k + 1
  {
    seq(n, k requires 0 <= k < n => k + 1)
  }

  /** When every item is processed the answer has one result per item, item k's result at position k; when one fails,
      call() ends with that item's exception and every item before it was processed. */
  lemma {:induction false} ArchiveRunShape<V>(process: (Disk, Scn.ArchiveItem) -> (Result<V>, Disk), disk: Disk, items: seq<Scn.ArchiveItem>, cancelAt: nat)
    ensures ArchiveRun(process, disk, items, cancelAt).0.Done? ==>
              |ArchiveRun(process, disk, items, cancelAt).0.value| == Min(|items|, cancelAt)
              && Started(process, disk, items, cancelAt) == Min(|items|, cancelAt)
    ensures ArchiveRun(process, disk, items, cancelAt).0.Crashed? ==>
              Started(process, disk, items, cancelAt) >= 1
              && RunTo(process, disk, items, Started(process, disk, items, cancelAt)).Halted?
              && RunTo(process, disk, items, Started(process, disk, items, cancelAt) - 1).Going?
  {
    var n := Min(|items|, cancelAt);
    GoingLength(process, disk, items, n);
    if RunTo(process, disk, items, n).Halted? {
      HaltedInRange(process, disk, items, n);
      var at := RunTo(process, disk, items, n).at;
      HaltedAt(process, disk, items, n);
    }
  }

  lemma {:induction false} GoingLength<V>(process: (Disk, Scn.ArchiveItem) -> (Result<V>, Disk), disk: Disk, items: seq<Scn.ArchiveItem>, n: nat)
    requires n <= |items|
    ensures RunTo(process, disk, items, n).Going? ==> |RunTo(process, disk, items, n).values| == n
    decreases n
  {
    if n > 0 {
      GoingLength(process, disk, items, n - 1);
    }
  }

  /** The loop stopped at item at: it was still going before it, and it has stopped just after it. */
  lemma {:induction false} HaltedAt<V>(process: (Disk, Scn.ArchiveItem) -> (Result<V>, Disk), disk: Disk, items: seq<Scn.ArchiveItem>, n: nat)
    requires n <= |items| && RunTo(process, disk, items, n).Halted?
    ensures var at := RunTo(process, disk, items, n).at;
            at < n && RunTo(process, disk, items, at).Going? && RunTo(process, disk, items, at + 1) == RunTo(process, disk, items, n)
    decreases n
  {
    if RunTo(process, disk, items, n - 1).Halted? {
      HaltedAt(process, disk, items, n - 1);
    }
  }

  /** Every item before the cancellation was processed: call() returns their results. */
  lemma ArchiveRunOfGoing<V>(process: (Disk, Scn.ArchiveItem) -> (Result<V>, Disk), disk: Disk, items: seq<Scn.ArchiveItem>, cancelAt: nat,
                             n: nat, values: seq<V>, d: Disk)
    requires n == Min(|items|, cancelAt) && RunTo(process, disk, items, n) == Going(values, d)
    ensures ArchiveRun(process, disk, items, cancelAt) == (Done(values), d)
    ensures Started(process, disk, items, cancelAt) == n
  {
  }

  /** Item i threw: its exception ends call(), after i + 1 progress reports. */
  lemma ArchiveRunOfHalted<V>(process: (Disk, Scn.ArchiveItem) -> (Result<V>, Disk), disk: Disk, items: seq<Scn.ArchiveItem>, cancelAt: nat,
                              i: nat, e: Error, d: Disk)
    requires i < Min(|items|, cancelAt) && RunTo(process, disk, items, i + 1) == Halted(e, d, i)
    ensures ArchiveRun(process, disk, items, cancelAt) == (Crashed(e), d)
    ensures Started(process, disk, items, cancelAt) == i + 1
  {
    HaltedPersists(process, disk, items, i + 1, Min(|items|, cancelAt));
  }
}
