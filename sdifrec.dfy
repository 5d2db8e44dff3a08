/** org.gcsl.sdif.SdifRec: one line of an SDIF file, classified by its two-character record code. */
module SdifRecs {
  import opened Base

  datatype RecType =
    | FileDescription    // A0
    | RosterOnly         // A1
    | Meet               // B1
    | MeetHost           // B2
    | TeamId             // C1
    | TeamEntry          // C2
    | IndividualEvent    // D0
    | IndividualAdmin    // D1
    | IndividualContact  // D2
    | IndividualInfo     // D3
    | Split              // G0
    | RelayEvent         // E0
    | RelayName          // F0
    | FileTerminator     // Z0
    | Invalid            // XX, a line that could not be classified

  function Code(t: RecType): string {
    match t
    case FileDescription => "A0"
    case RosterOnly => "A1"
    case Meet => "B1"
    case MeetHost => "B2"
    case TeamId => "C1"
    case TeamEntry => "C2"
    case IndividualEvent => "D0"
    case IndividualAdmin => "D1"
    case IndividualContact => "D2"
    case IndividualInfo => "D3"
    case Split => "G0"
    case RelayEvent => "E0"
    case RelayName => "F0"
    case FileTerminator => "Z0"
    case Invalid => "XX"
  }

  /** SdifRecType.values(), in declaration order. */
  const RecTypes: seq<RecType> := [FileDescription, RosterOnly, Meet, MeetHost, TeamId, TeamEntry,
    IndividualEvent, IndividualAdmin, IndividualContact, IndividualInfo, Split, RelayEvent, RelayName,
    FileTerminator, Invalid]

  lemma RecTypesComplete(t: RecType)
    ensures t in RecTypes
  {
  }

  lemma CodeInjective(a: RecType, b: RecType)
    requires Code(a) == Code(b)
    ensures a == b
  {
  }

  /** SdifRecType.fromString: the type whose code equals the text, INVALID_REC when there is none. */
  function FromString(code: string): (r: RecType)
    ensures r != Invalid ==> Code(r) == code
    ensures (forall t :: Code(t) != code) ==> r == Invalid
  {
    FirstMatch(RecTypes, t => Code(t) == code, Invalid)
  }

  /** Every code is read back as the type it names. */
  lemma FromStringOfCode(t: RecType)
    ensures FromString(Code(t)) == t
  {
    RecTypesComplete(t);
    var r := FromString(Code(t));
    assert exists i :: 0 <= i < |RecTypes| && RecTypes[i] == t;
    CodeInjective(r, t);
  }

  /** A line is kept whole with its classification; readFile never hands over a null line. */
  datatype SdifRec = SdifRec(data: string, recType: RecType)

  /** The SdifRec constructor: null or shorter than two characters is INVALID_REC, otherwise the first two characters decide. */
  function RecTypeOf(line: Option<string>): (r: RecType)
    ensures r != Invalid ==> line.Some? && |line.value| >= 2 && Code(r) == line.value[..2]
  {
    if line.None? || |line.value| < 2 then Invalid else FromString(line.value[..2])
  }

  /** A line that starts with a record code is classified as that record. */
  lemma RecTypeOfCodedLine(t: RecType, rest: string)
    ensures RecTypeOf(Some(Code(t) + rest)) == t
  {
    assert (Code(t) + rest)[..2] == Code(t);
    FromStringOfCode(t);
  }

  function MakeRec(line: string): (r: SdifRec)
    ensures r.data == line
    ensures r.recType != Invalid ==> |line| >= 2 && Code(r.recType) == line[..2]
  {
    SdifRec(line, RecTypeOf(Some(line)))
  }
}
