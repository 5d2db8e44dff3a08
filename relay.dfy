/** org.gcsl.model.Relay: a relay team named after its club and letter, with its swimmers in order. */
module Relays {
  import opened Base
  import opened JavaString
  import A = Athletes
  import SR = SdifRecs

  /** What fromSdifData reads from an E0 record: the relay's name and whether it was a no-show. */
  datatype RelayFields = RelayFields(name: string, noShow: bool)

  /** The name is the trimmed team code of columns 12..18, a dash, and the relay letter at column 11;
      the relay is a no-show exactly when the trimmed final time of columns 72..80 is "NS" (so "SCR" is not). */
  function FieldsOf(rec: SR.SdifRec): (r: Result<RelayFields>)
    ensures |rec.data| < 80 <==> r == Err(IndexOutOfBounds)
    ensures r.Ok? ==> (r.value.noShow <==> Trim(rec.data[72..80]) == "NS")
    ensures r.Ok? ==> r.value.name == Trim(rec.data[12..18]) + "-" + rec.data[11..12]
  {
    if |rec.data| < 80 then Err(IndexOutOfBounds)
    else Ok(RelayFields(Trim(rec.data[12..18]) + "-" + rec.data[11..12], Trim(rec.data[72..80]) == "NS"))
  }

  class Relay {
    var athletes: seq<A.Athlete>
    var name: string
    var noShowResult: bool

    /** Relay(name): a relay that swam. */
    constructor (name: string)
      ensures this.name == name && !noShowResult && athletes == []
    {
      this.name := name;
      noShowResult := false;
      athletes := [];
    }

    constructor WithNoShow(name: string, noShow: bool)
      ensures this.name == name && noShowResult == noShow && athletes == []
    {
      this.name := name;
      noShowResult := noShow;
      athletes := [];
    }

    /** addAthlete: appended at the end, duplicates kept. */
    method AddAthlete(a: A.Athlete)
      modifies this
      ensures athletes == old(athletes) + [a]
      ensures name == old(name) && noShowResult == old(noShowResult)
    {
      athletes := athletes + [a];
    }
  }

  /** fromSdifData: a new relay carrying the fields of the record, or the substring failure. */
  method FromSdifData(rec: SR.SdifRec) returns (r: Result<Relay>)
    ensures FieldsOf(rec).Err? ==> r == Err(FieldsOf(rec).error)
    ensures FieldsOf(rec).Ok? ==> r.Ok? && fresh(r.value) && r.value.athletes == []
    ensures FieldsOf(rec).Ok? ==> r.value.name == FieldsOf(rec).value.name && r.value.noShowResult == FieldsOf(rec).value.noShow
  {
    var fields := FieldsOf(rec);
    if fields.Err? {
      return Err(fields.error);
    }
    var relay := new Relay.WithNoShow(fields.value.name, fields.value.noShow);
    r := Ok(relay);
  }

  /** An E0 record with the given letter, team code and final time, blank elsewhere. */
  function FormatRelayEvent(letter: char, code: string, time: string): (r: string)
    requires |code| <= 6 && |time| <= 8
    ensures |r| == 80 && r[..2] == "E0"
  {
    "E0" + Spaces(9) + [letter] + PadRight(code, 6) + Spaces(54) + PadRight(time, 8)
  }

  lemma FormatRelayEventColumns(letter: char, code: string, time: string)
    requires |code| <= 6 && |time| <= 8
    ensures FormatRelayEvent(letter, code, time)[11..12] == [letter]
    ensures FormatRelayEvent(letter, code, time)[12..18] == PadRight(code, 6)
    ensures FormatRelayEvent(letter, code, time)[72..80] == PadRight(time, 8)
  {
    var a := "E0" + Spaces(9) + [letter];
    var b := a + PadRight(code, 6);
    var c := b + Spaces(54);
    var line := c + PadRight(time, 8);
    assert line == FormatRelayEvent(letter, code, time);
    PrefixSlice(c, PadRight(time, 8), 11, 18);
    PrefixSlice(b, Spaces(54), 11, 18);
    PrefixSlice(a, PadRight(code, 6), 11, 12);
    assert line[11..12] == b[11..12] == a[11..12] == [letter];
    assert line[12..18] == b[12..18] == PadRight(code, 6);
    assert line[72..80] == PadRight(time, 8);
  }

  /** Reading a formatted E0 record gives "code-letter" and the no-show flag of its final time. */
  lemma FieldsOfFormat(letter: char, code: string, time: string)
    requires Unpadded(code) && |code| <= 6 && Unpadded(time) && |time| <= 8
    ensures FieldsOf(SR.MakeRec(FormatRelayEvent(letter, code, time))) == Ok(RelayFields(code + "-" + [letter], time == "NS"))
  {
    FormatRelayEventColumns(letter, code, time);
    TrimOfPadRight(code, 6);
    TrimOfPadRight(time, 8);
  }

  /** A relay name gives back its team code and letter, as long as team codes hold no dash. */
  lemma NameDeterminesTeamAndLetter(code1: string, letter1: char, code2: string, letter2: char)
    requires '-' !in code1 && '-' !in code2
    requires code1 + "-" + [letter1] == code2 + "-" + [letter2]
    ensures code1 == code2 && letter1 == letter2
  {
    JoinInjective(code1, [letter1], code2, [letter2], '-');
  }

  /** A scratched relay ("SCR") and a timed relay read as having swum; only "NS" marks a no-show. */
  lemma OnlyNsIsNoShow(letter: char, code: string)
    requires Unpadded(code) && |code| <= 6
    ensures FieldsOf(SR.MakeRec(FormatRelayEvent(letter, code, "NS"))) == Ok(RelayFields(code + "-" + [letter], true))
    ensures FieldsOf(SR.MakeRec(FormatRelayEvent(letter, code, "SCR"))) == Ok(RelayFields(code + "-" + [letter], false))
    ensures FieldsOf(SR.MakeRec(FormatRelayEvent(letter, code, "1:52.34"))) == Ok(RelayFields(code + "-" + [letter], false))
  {
    FieldsOfFormat(letter, code, "NS");
    FieldsOfFormat(letter, code, "SCR");
    assert |"SCR"| != |"NS"|;
    FieldsOfFormat(letter, code, "1:52.34");
    assert |"1:52.34"| != |"NS"|;
  }
}
