/** Failure-compatible wrappers and the failures the ingestion engine can raise. */
module Base {

  datatype Option<+T> = None | Some(value: T)

  /** Why an org.gcsl.sdif.SdifException was raised. */
  datatype SdifReason =
    | NotEnoughData            // header shorter than 2 characters
    | NotFileDescription       // header does not start with "A0"
    | CannotOpen               // the file named by the path cannot be opened
    | HeaderMissing            // the file has no first line
    | HeaderTooShort           // the header is too short for its fixed columns
    | InvalidRecordType        // athlete requested from a non-athlete record
    | InvalidAthleteData       // name, dob or gender of an athlete failed validation
    | MoreThanOneTeam          // a second team-ID record in a roster or entry file
    | AthleteBeforeTeam        // athlete record before any team-ID record (rosters, entries)
    | NoTeamDefined            // roster or entry file without a team-ID record
    | FileTypeMismatch         // header file type differs from the expected one
    | UnknownArchive           // archive is neither a ZIP nor an SD3 file
    | NoRosterFileInArchive    // ZIP roster archive holds no .cl2 or .hy3 member
    | MeetInfoRequired         // team-ID record before any meet record (results)
    | TeamInfoRequired         // athlete record before any team-ID record (results)
    | NoResultsDefined         // results file without a meet record
    | InvalidScenario          // scenario that selects no results file type

  /** Failures: a checked SdifException, or one of the unchecked Java exceptions the code lets escape. */
  datatype Error =
    | Sdif(reason: SdifReason)
    | IndexOutOfBounds         // String.substring or array indexing past the end
    | DateTimeParse            // LocalDate.parse rejected the text
    | NullPointer              // a lookup returned null and the caller dereferenced it
    | Io                       // a checked java.io.IOException
    | Sql                      // a checked java.sql.SQLException

  datatype Result<+T> = Ok(value: T) | Err(error: Error) {
    predicate IsFailure() { Err? }
    function PropagateFailure<U>(): Result<U>
      requires Err?
    {
      Err(error)
    }
    function Extract(): T
      requires Ok?
    {
      value
    }
  }

  /** How a background task's call() ends: with its value, with null after a failure it catches, or with an exception
      that escapes it (the task then fails with that exception). */
  datatype Outcome<+T> = Done(value: T) | NullResult | Crashed(error: Error)

  /** The first of values satisfying p, or dflt when none does: the scan an enum's static fromString performs over values(). */
  function FirstMatch<T>(values: seq<T>, p: T -> bool, dflt: T): (r: T)
    ensures (exists i :: 0 <= i < |values| && p(values[i])) ==> r in values && p(r)
    ensures (forall i :: 0 <= i < |values| ==> !p(values[i])) ==> r == dflt
  {
    if values == [] then dflt
    else if p(values[0]) then values[0]
    else FirstMatch(values[1..], p, dflt)
  }
}
