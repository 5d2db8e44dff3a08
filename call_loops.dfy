/** The for-loop that the call() of ReadRosterFilesTask and of ReadResultFilesTask share: one archive item after the
    other, stopping when the task is cancelled, and giving up with null at the first SdifException or IOException. */
module CallLoops {
  import opened Base
  import opened Utils
  import Scn = ArchiveItems

  /** The failures these loops catch: SdifException and IOException. Any other exception escapes call(). */
  predicate Caught(e: Error) { e.Sdif? || e.Io? }

  /** Where the loop stands: still going with the values read so far, or stopped by a failure. */
  datatype Progress<V> = Going(values: seq<V>, disk: Disk) | Halted(error: Error, disk: Disk, at: nat)

  /** The loop after its first n items, reading each archive with read. */
  function RunTo<V>(read: (Disk, Scn.ArchiveItem) -> (Result<V>, Disk), disk: Disk, items: seq<Scn.ArchiveItem>, n: nat): Progress<V>
    requires n <= |items|
  {
    if n == 0 then Going([], disk)
    else
      match RunTo(read, disk, items, n - 1)
      case Halted(e, d, at) => Halted(e, d, at)
      case Going(vs, d) =>
        var (res, next) := read(d, items[n - 1]);
        if res.Err? then Halted(res.error, next, n - 1) else Going(vs + [res.value], next)
  }

  function Min(a: int, b: int): int { if a <= b then a else b }

  /** call(), isCancelled() holding from item cancelAt on: the values of the items read, or null after a caught
      failure, or the exception that escapes; and the disk left behind. */
  function Run<V>(read: (Disk, Scn.ArchiveItem) -> (Result<V>, Disk), disk: Disk, items: seq<Scn.ArchiveItem>, cancelAt: nat)
    : (Outcome<seq<V>>, Disk)
  {
    match RunTo(read, disk, items, Min(|items|, cancelAt))
    case Going(vs, d) => (Done(vs), d)
    case Halted(e, d, _) => (if Caught(e) then NullResult else Crashed(e), d)
  }

  /** The loop has read every item before the cancellation: call() returns what it read. */
  lemma RunOfGoing<V>(read: (Disk, Scn.ArchiveItem) -> (Result<V>, Disk), disk: Disk, items: seq<Scn.ArchiveItem>, cancelAt: nat,
                      n: nat, values: seq<V>, d: Disk)
    requires n == Min(|items|, cancelAt) && RunTo(read, disk, items, n) == Going(values, d)
    ensures Run(read, disk, items, cancelAt) == (Done(values), d)
  {
  }

  /** Item i failed: call() returns null or lets the exception escape, whatever the later items hold. */
  lemma RunOfHalted<V>(read: (Disk, Scn.ArchiveItem) -> (Result<V>, Disk), disk: Disk, items: seq<Scn.ArchiveItem>, cancelAt: nat,
                       i: nat, e: Error, d: Disk)
    requires i < Min(|items|, cancelAt) && RunTo(read, disk, items, i + 1) == Halted(e, d, i)
    ensures Run(read, disk, items, cancelAt) == (if Caught(e) then NullResult else Crashed(e), d)
  {
    HaltedPersists(read, disk, items, i + 1, Min(|items|, cancelAt));
  }

  /** Once stopped, the loop stays stopped where it was: later items are not read. */
  lemma {:induction false} HaltedPersists<V>(read: (Disk, Scn.ArchiveItem) -> (Result<V>, Disk), disk: Disk, items: seq<Scn.ArchiveItem>, k: nat, n: nat)
    requires k <= n <= |items| && RunTo(read, disk, items, k).Halted?
    ensures RunTo(read, disk, items, n) == RunTo(read, disk, items, k)
    decreases n
  {
    if n > k {
      HaltedPersists(read, disk, items, k, n - 1);
    }
  }

  /** When every successful read leaves the disk as it was, the first n items give, in input order, what reading each
      of them gives, unless one fails; then the loop stops at the first that fails, with its error. */
  lemma {:induction false} RunToOnStableDisk<V>(read: (Disk, Scn.ArchiveItem) -> (Result<V>, Disk), disk: Disk, items: seq<Scn.ArchiveItem>, n: nat)
    requires n <= |items|
    requires forall item :: read(disk, item).0.Ok? ==> read(disk, item).1 == disk
    ensures RunTo(read, disk, items, n).Going? <==> forall k :: 0 <= k < n ==> read(disk, items[k]).0.Ok?
    ensures RunTo(read, disk, items, n).Going? ==>
              RunTo(read, disk, items, n).disk == disk && |RunTo(read, disk, items, n).values| == n
              && forall k :: 0 <= k < n ==> RunTo(read, disk, items, n).values[k] == read(disk, items[k]).0.value
    ensures RunTo(read, disk, items, n).Halted? ==>
              var k := RunTo(read, disk, items, n).at;
              k < n && read(disk, items[k]).0.Err? && RunTo(read, disk, items, n).error == read(disk, items[k]).0.error
              && forall m :: 0 <= m < k ==> read(disk, items[m]).0.Ok?
    decreases n
  {
    if n > 0 {
      RunToOnStableDisk(read, disk, items, n - 1);
    }
  }

  /** What call() returns, on a disk that successful reads leave as it was: the value of every item before the
      cancellation, in input order, when all of them are read; null exactly when the first item that fails does so with
      an SdifException or IOException, the values read before it being dropped. */
  lemma RunOnStableDisk<V>(read: (Disk, Scn.ArchiveItem) -> (Result<V>, Disk), disk: Disk, items: seq<Scn.ArchiveItem>, cancelAt: nat)
    requires forall item :: read(disk, item).0.Ok? ==> read(disk, item).1 == disk
    ensures Run(read, disk, items, cancelAt).0.Done? <==>
              forall k :: 0 <= k < Min(|items|, cancelAt) ==> read(disk, items[k]).0.Ok?
    ensures Run(read, disk, items, cancelAt).0.Done? ==>
              |Run(read, disk, items, cancelAt).0.value| == Min(|items|, cancelAt)
              && forall k :: 0 <= k < Min(|items|, cancelAt) ==>
                   Run(read, disk, items, cancelAt).0.value[k] == read(disk, items[k]).0.value
    ensures Run(read, disk, items, cancelAt).0.NullResult? <==>
              exists k :: 0 <= k < Min(|items|, cancelAt) && read(disk, items[k]).0.Err?
                && Caught(read(disk, items[k]).0.error)
                && forall m :: 0 <= m < k ==> read(disk, items[m]).0.Ok?
  {
    var n := Min(|items|, cancelAt);
    RunToOnStableDisk(read, disk, items, n);
    if RunTo(read, disk, items, n).Halted? {
      var k := RunTo(read, disk, items, n).at;
      forall k' | 0 <= k' < n && read(disk, items[k']).0.Err? && forall m :: 0 <= m < k' ==> read(disk, items[m]).0.Ok?
        ensures k' == k
      {
      }
    }
  }
}
