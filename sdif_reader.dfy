/** org.gcsl.sdif.SdifReader: opens an SDIF file, reads its header, then hands out the remaining lines as records. */
module SdifReaders {
  import opened Base
  import opened JavaString
  import Utils
  import SR = SdifRecs
  import FD = SdifFileDescriptions

  /** SdifFileFormat; the source spells the last constant UNKOWN and gives it the empty name. */
  datatype FileFormat = Cl2 | Hy3 | Sd3 | Unknown

  function FormatName(f: FileFormat): string {
    match f
    case Cl2 => "CL2"
    case Hy3 => "HY3"
    case Sd3 => "SD3"
    case Unknown => ""
  }

  const Formats: seq<FileFormat> := [Cl2, Hy3, Sd3, Unknown]

  /** SdifFileFormat.fromString: the first format whose name equals the text ignoring case, UNKOWN otherwise. */
  function FormatFromString(fmt: string): (r: FileFormat)
    ensures r != Unknown ==> EqualsIgnoreCase(FormatName(r), fmt)
    ensures (forall f :: !EqualsIgnoreCase(FormatName(f), fmt)) ==> r == Unknown
  {
    FirstMatch(Formats, f => EqualsIgnoreCase(FormatName(f), fmt), Unknown)
  }

  lemma FormatNamesDiffer(a: FileFormat, b: FileFormat)
    requires EqualsIgnoreCase(FormatName(a), FormatName(b))
    ensures a == b
  {
    assert Fold("CL2") == "cl2" && Fold("HY3") == "hy3" && Fold("SD3") == "sd3" && Fold("") == "";
  }

  /** Any spelling of a format's name, in any case, selects that format; so does the empty extension for UNKOWN. */
  lemma FormatFromStringIgnoresCase(f: FileFormat, fmt: string)
    requires EqualsIgnoreCase(FormatName(f), fmt)
    ensures FormatFromString(fmt) == f
  {
    assert Formats[0] == Cl2 && Formats[1] == Hy3 && Formats[2] == Sd3 && Formats[3] == Unknown;
    var r := FormatFromString(fmt);
    assert exists i :: 0 <= i < |Formats| && Formats[i] == f;
    FormatNamesDiffer(r, f);
  }

  /** The long s, the dotless i and the capital I with dot match their ASCII letters, as in equalsIgnoreCase. */
  lemma NonAsciiFormatNames()
    ensures FormatFromString("\U{17F}d3") == Sd3
    ensures FormatFromString("\U{17F}D3") == Sd3
    ensures FormatFromString("Cl") == Unknown
  {
    assert EqualsIgnoreCase(FormatName(Sd3), "\U{17F}d3") by {
      assert Fold("\U{17F}d3") == "sd3" == Fold("SD3");
    }
    assert EqualsIgnoreCase(FormatName(Sd3), "\U{17F}D3") by {
      assert Fold("\U{17F}D3") == "sd3" == Fold("SD3");
    }
    FormatFromStringIgnoresCase(Sd3, "\U{17F}d3");
    FormatFromStringIgnoresCase(Sd3, "\U{17F}D3");
    forall f ensures !EqualsIgnoreCase(FormatName(f), "Cl") {
      assert |Fold("Cl")| == 2;
      if f == Unknown { assert |Fold(FormatName(f))| == 0; }
      else { assert |Fold(FormatName(f))| == 3; }
    }
  }

  /** getFileExtension: the text after the last '.', provided that dot is not the first character. */
  function Extension(name: string): (r: string)
    ensures '.' !in r
    ensures |r| <= |name| && r == name[|name| - |r|..]
    ensures r != [] ==> |r| + 1 < |name| && name[|name| - |r| - 1] == '.'
  {
    var i := LastIndexOf(name, '.');
    if i > 0 then
      var r := name[i + 1..];
      assert '.' !in r by {
        forall k | 0 <= k < |r| ensures r[k] != '.' {
          assert r[k] == name[i + 1 + k];
        }
      }
      r
    else ""
  }

  /** A name with a non-empty stem and a dot-free suffix has that suffix as its extension. */
  lemma ExtensionOfDotted(stem: string, ext: string)
    requires stem != [] && '.' !in ext
    ensures Extension(stem + "." + ext) == ext
  {
    var name := stem + "." + ext;
    assert name[|stem|] == '.';
    forall k | |stem| < k < |name| ensures name[k] != '.' {
      assert name[k] == ext[k - |stem| - 1];
    }
    LastIndexOfIs(name, '.', |stem|);
    assert name[|stem| + 1..] == ext;
  }

  lemma {:induction false} LastIndexOfIs(s: string, c: char, k: int)
    requires 0 <= k < |s| && s[k] == c
    requires forall j :: k < j < |s| ==> s[j] != c
    ensures LastIndexOf(s, c) == k
  {
    if k < |s| - 1 {
      LastIndexOfIs(s[..|s| - 1], c, k);
    }
  }

  /** A name without a dot, or whose only dot leads, has no extension. */
  lemma ExtensionOfUndotted(name: string)
    requires forall k :: 0 < k < |name| ==> name[k] != '.'
    ensures Extension(name) == []
  {
  }

  /** The lines of a file, one record each. */
  function Records(lines: seq<string>): (r: seq<SR.SdifRec>)
    ensures |r| == |lines|
    ensures forall i :: 0 <= i < |lines| ==> r[i].data == lines[i]
  {
    seq(|lines|, i requires 0 <= i < |lines| => SR.MakeRec(lines[i]))
  }

  /** What the constructor finds: the format named by the extension and the parsed header line.
      Every failure on the way, whatever Java exception it starts as, leaves the constructor as an SdifException. */
  function OpenSpec(disk: Utils.Disk, path: string): (r: Result<(FileFormat, FD.SdifFileDescription)>)
    ensures r.Err? ==> r.error.Sdif?
    ensures (path == [] || path !in disk.files) ==> r == Err(Sdif(CannotOpen))
    ensures path != [] && path in disk.files && disk.files[path] == [] ==> r == Err(Sdif(HeaderMissing))
    ensures r.Ok? <==> path != [] && path in disk.files && disk.files[path] != [] && FD.Parse(disk.files[path][0]).Ok?
    ensures r.Ok? ==> r.value.1 == FD.Parse(disk.files[path][0]).value
    ensures r.Ok? ==> r.value.0 == FormatFromString(Extension(Utils.FileName(path)))
  {
    var format := FormatFromString(Extension(Utils.FileName(path)));
    if path == [] || path !in disk.files then Err(Sdif(CannotOpen))
    // readLine() returns null, and popFromSdifData dereferences it
    else if disk.files[path] == [] then Err(Sdif(HeaderMissing))
    else match FD.Parse(disk.files[path][0])
      case Ok(d) => Ok((format, d))
      case Err(Sdif(reason)) => Err(Sdif(reason))
      case Err(_) => Err(Sdif(HeaderTooShort))
  }

  class SdifReader {
    var fileDescription: FD.SdifFileDescription
    var fileFormat: FileFormat
    var filePath: string
    /** The lines after the header not yet read; None once the underlying reader is closed (null). */
    var pending: Option<seq<string>>

    constructor Init(path: string, format: FileFormat, desc: FD.SdifFileDescription, rest: seq<string>)
      ensures filePath == path && fileFormat == format && fileDescription == desc && pending == Some(rest)
    {
      filePath := path;
      fileFormat := format;
      fileDescription := desc;
      pending := Some(rest);
    }

    /** close(): releases the reader; closing again changes nothing. */
    method Close()
      modifies this
      ensures pending.None?
      ensures fileDescription == old(fileDescription) && fileFormat == old(fileFormat) && filePath == old(filePath)
    {
      pending := None;
    }

    /** readFile(): one record per remaining line, in order, then the reader is closed.
        A second call finds the reader null and throws NullPointerException. */
    method ReadFile() returns (r: Result<seq<SR.SdifRec>>)
      modifies this
      ensures old(pending).None? ==> r == Err(NullPointer)
      ensures old(pending).Some? ==> r == Ok(Records(old(pending).value))
      ensures pending.None?
      ensures fileDescription == old(fileDescription) && fileFormat == old(fileFormat) && filePath == old(filePath)
    {
      if pending.None? {
        return Err(NullPointer);
      }
      var lines := pending.value;
      var recs: seq<SR.SdifRec> := [];
      var i := 0;
      while i < |lines|
        invariant 0 <= i <= |lines|
        invariant |recs| == i
        invariant forall k :: 0 <= k < i ==> recs[k] == SR.MakeRec(lines[k])
      {
        recs := recs + [SR.MakeRec(lines[i])];
        i := i + 1;
      }
      Close();
      assert recs == Records(lines);
      r := Ok(recs);
    }
  }

  /** new SdifReader(path): the reader is positioned after the header line. */
  method Open(disk: Utils.Disk, path: string) returns (r: Result<SdifReader>)
    ensures r.Ok? <==> OpenSpec(disk, path).Ok?
    ensures r.Err? ==> r.error == OpenSpec(disk, path).error
    ensures r.Ok? ==> fresh(r.value) && r.value.filePath == path
    ensures r.Ok? ==> r.value.fileFormat == OpenSpec(disk, path).value.0
    ensures r.Ok? ==> r.value.fileDescription == OpenSpec(disk, path).value.1
    ensures r.Ok? ==> r.value.pending == Some(disk.files[path][1..])
  {
    var spec := OpenSpec(disk, path);
    if spec.Err? {
      return Err(spec.error);
    }
    var reader := new SdifReader.Init(path, spec.value.0, spec.value.1, disk.files[path][1..]);
    r := Ok(reader);
  }
}
