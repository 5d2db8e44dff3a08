/** org.gcsl.sdif.SdifFileDescription: the A0 header line that says what an SDIF file holds. */
module SdifFileDescriptions {
  import opened Base
  import opened JavaString
  import Utils
  import SdifRecs

  datatype FileType =
    | MeetRegistration      // 01, the type of SD3 roster files
    | MeetResults           // 02
    | Ovc                   // 03
    | NatAgeGroupRecord     // 04
    | LscAgeGroupRecord     // 05
    | LscMotivationalList   // 06
    | NatRecsAndRankings    // 07
    | TeamSelection         // 08
    | LscBestTimes          // 09
    | UssRegistration       // 10
    | Top16                 // 16
    | VendorDefined         // 20, the type of ZIP roster files
    | Unknown               // 99

  function Code(t: FileType): string {
    match t
    case MeetRegistration => "01"
    case MeetResults => "02"
    case Ovc => "03"
    case NatAgeGroupRecord => "04"
    case LscAgeGroupRecord => "05"
    case LscMotivationalList => "06"
    case NatRecsAndRankings => "07"
    case TeamSelection => "08"
    case LscBestTimes => "09"
    case UssRegistration => "10"
    case Top16 => "16"
    case VendorDefined => "20"
    case Unknown => "99"
  }

  /** SdifFileType.values(), in declaration order. */
  const FileTypes: seq<FileType> := [MeetRegistration, MeetResults, Ovc, NatAgeGroupRecord,
    LscAgeGroupRecord, LscMotivationalList, NatRecsAndRankings, TeamSelection, LscBestTimes,
    UssRegistration, Top16, VendorDefined, Unknown]

  lemma CodeInjective(a: FileType, b: FileType)
    requires Code(a) == Code(b)
    ensures a == b
  {
  }

  /** SdifFileType.fromString: the type whose code equals the text, UNKNOWN when there is none. */
  function FromString(code: string): (r: FileType)
    ensures r != Unknown ==> Code(r) == code
    ensures (forall t :: Code(t) != code) ==> r == Unknown
  {
    FirstMatch(FileTypes, t => Code(t) == code, Unknown)
  }

  lemma FromStringOfCode(t: FileType)
    ensures FromString(Code(t)) == t
  {
    assert t in FileTypes;
    assert exists i :: 0 <= i < |FileTypes| && FileTypes[i] == t;
    CodeInjective(FromString(Code(t)), t);
  }

  datatype SdifFileDescription = SdifFileDescription(fileDate: string, fileType: FileType, vendor: string, vendorVersion: string)

  /** popFromSdifData: a header needs the A0 code and 113 characters for its fixed columns. */
  function Parse(buf: string): (r: Result<SdifFileDescription>)
    ensures |buf| < 2 ==> r == Err(Sdif(NotEnoughData))
    ensures |buf| >= 2 && buf[..2] != "A0" ==> r == Err(Sdif(NotFileDescription))
    ensures 2 <= |buf| < 113 && buf[..2] == "A0" ==> r == Err(IndexOutOfBounds)
    ensures r.Ok? <==> |buf| >= 113 && buf[..2] == "A0"
    ensures r.Ok? ==> |r.value.fileDate| == 10 && r.value.fileDate[4] == '-' && r.value.fileDate[7] == '-'
    ensures r.Ok? ==> r.value.fileType == Unknown || Code(r.value.fileType) == buf[11..13]
    ensures r.Ok? ==> Unpadded(r.value.vendor) && |r.value.vendor| <= 20
    ensures r.Ok? ==> Unpadded(r.value.vendorVersion) && |r.value.vendorVersion| <= 10
  {
    SdifRecs.FromStringOfCode(SdifRecs.FileDescription);
    if |buf| < 2 then Err(Sdif(NotEnoughData))
    else if SdifRecs.FromString(buf[..2]) != SdifRecs.FileDescription then Err(Sdif(NotFileDescription))
    // the widest column read, 105..113, decides whether substring throws
    else if |buf| < 113 then Err(IndexOutOfBounds)
    else
      Ok(SdifFileDescription(Utils.MakeDateString(buf[105..113]), FromString(buf[11..13]),
                             Trim(buf[43..63]), Trim(buf[63..73])))
  }

  /** A description the header columns can carry. */
  predicate Representable(d: SdifFileDescription) {
    && |d.fileDate| == 10 && d.fileDate[4] == '-' && d.fileDate[7] == '-'
    && Unpadded(d.vendor) && |d.vendor| <= 20
    && Unpadded(d.vendorVersion) && |d.vendorVersion| <= 10
  }

  /** Every successfully parsed header is one the columns can carry. */
  lemma ParsedIsRepresentable(buf: string)
    requires Parse(buf).Ok?
    ensures Representable(Parse(buf).value)
  {
  }

  /** A header line holding d, blank outside the columns that are read. */
  function Format(d: SdifFileDescription): (r: string)
    requires Representable(d)
    ensures |r| == 113 && r[..2] == "A0"
  {
    "A0" + Spaces(9) + Code(d.fileType) + Spaces(30) + PadRight(d.vendor, 20)
      + PadRight(d.vendorVersion, 10) + Spaces(32) + Utils.UnmakeDateString(d.fileDate)
  }

  /** Parsing a formatted header gives back the description. */
  lemma ParseFormat(d: SdifFileDescription)
    requires Representable(d)
    ensures Parse(Format(d)) == Ok(d)
  {
    var a := "A0" + Spaces(9);
    var b := a + Code(d.fileType);
    var c := b + Spaces(30);
    var e := c + PadRight(d.vendor, 20);
    var f := e + PadRight(d.vendorVersion, 10);
    var g := f + Spaces(32);
    var buf := g + Utils.UnmakeDateString(d.fileDate);
    assert buf == Format(d);
    assert buf[11..13] == Code(d.fileType);
    assert buf[43..63] == PadRight(d.vendor, 20);
    assert buf[63..73] == PadRight(d.vendorVersion, 10);
    assert buf[105..113] == Utils.UnmakeDateString(d.fileDate);
    FromStringOfCode(d.fileType);
    TrimOfPadRight(d.vendor, 20);
    TrimOfPadRight(d.vendorVersion, 10);
    Utils.UnmakeDateStringRoundTrip(d.fileDate);
  }
}
