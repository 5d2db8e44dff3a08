/** org.gcsl.model.Athlete: a swimmer identified by name, date of birth, gender and team. */
module Athletes {
  import opened Base
  import opened JavaString
  import Utils
  import SR = SdifRecs

  /** The value an Athlete is compared and hashed by. The database id and the update timestamp are
      not part of it: a collection of athletes keeps the id beside this key. */
  datatype Athlete = Athlete(name: string, dob: string, gender: string, teamId: int)

  /** A whole Athlete object: its key and the two fields equality ignores. */
  datatype AthleteObject = AthleteObject(key: Athlete, id: int, lastUpdate: string)

  /** Athlete.equals: dob, gender, name and teamId; never id or lastUpdate. */
  predicate Equals(a: AthleteObject, b: AthleteObject) {
    a.key.dob == b.key.dob && a.key.gender == b.key.gender && a.key.name == b.key.name && a.key.teamId == b.key.teamId
  }

  /** Equality is exactly equality of keys, whatever the ids and timestamps. */
  lemma EqualsIsKeyEquality(a: AthleteObject, b: AthleteObject)
    ensures Equals(a, b) <==> a.key == b.key
    ensures Equals(a, b) ==> Equals(a.(id := b.id, lastUpdate := b.lastUpdate), b)
  {
  }

  /** makeHash, the text hashCode and toString are built from. */
  function MakeHash(a: Athlete): string {
    a.name + ":" + a.dob + ":" + a.gender + ":" + IntToString(a.teamId)
  }

  predicate ColonFree(a: Athlete) {
    ':' !in a.name && ':' !in a.dob && ':' !in a.gender
  }

  /** Equal athletes hash alike; and when no field holds a ':', the hash text tells athletes apart. */
  lemma HashIdentifiesAthlete(a: Athlete, b: Athlete)
    ensures a == b ==> MakeHash(a) == MakeHash(b)
    ensures ColonFree(a) && ColonFree(b) && MakeHash(a) == MakeHash(b) ==> a == b
  {
    if ColonFree(a) && ColonFree(b) && MakeHash(a) == MakeHash(b) {
      HashFields(a);
      HashFields(b);
      FieldsInjective(a.name, a.dob, a.gender, IntToString(a.teamId), b.name, b.dob, b.gender, IntToString(b.teamId));
      IntToStringInjective(a.teamId, b.teamId);
    }
  }

  /** The hash text as the name joined by ':' to the rest. */
  lemma HashFields(a: Athlete)
    ensures MakeHash(a) == a.name + [':'] + (a.dob + [':'] + (a.gender + [':'] + IntToString(a.teamId)))
  {
  }

  /** Four fields joined by ':' come apart again when the first three hold no ':'. */
  lemma FieldsInjective(n1: string, d1: string, g1: string, t1: string, n2: string, d2: string, g2: string, t2: string)
    requires ':' !in n1 && ':' !in d1 && ':' !in g1 && ':' !in n2 && ':' !in d2 && ':' !in g2
    requires n1 + [':'] + (d1 + [':'] + (g1 + [':'] + t1)) == n2 + [':'] + (d2 + [':'] + (g2 + [':'] + t2))
    ensures n1 == n2 && d1 == d2 && g1 == g2 && t1 == t2
  {
    JoinInjective(n1, d1 + [':'] + (g1 + [':'] + t1), n2, d2 + [':'] + (g2 + [':'] + t2), ':');
    JoinInjective(d1, g1 + [':'] + t1, d2, g2 + [':'] + t2, ':');
    JoinInjective(g1, t1, g2, t2, ':');
  }

  /** Where the name, birth date and gender columns start in each record that carries an athlete. */
  datatype Layout = Layout(nameIdx: nat, dobIdx: nat, genderIdx: nat)

  const NameLen: nat := 28
  const DobLen: nat := 8
  const GenderLen: nat := 1

  function LayoutOf(t: SR.RecType): (r: Option<Layout>)
    ensures r.Some? <==> t == SR.IndividualEvent || t == SR.IndividualAdmin || t == SR.RelayName
    ensures r.Some? ==> r.value.nameIdx + NameLen <= r.value.dobIdx
    ensures r.Some? ==> r.value.dobIdx + DobLen <= r.value.genderIdx
  {
    if t == SR.IndividualEvent then Some(Layout(11, 55, 65))
    else if t == SR.IndividualAdmin then Some(Layout(18, 63, 73))
    else if t == SR.RelayName then Some(Layout(22, 65, 75))
    else None
  }

  /** The name column after trim() and replaceAll(" +", " "). */
  function NormalizeName(column: string): (r: string)
    ensures Unpadded(r) && NoDoubleSpace(r) && |r| <= |column|
    ensures NonSpaces(r) == NonSpaces(Trim(column))
    ensures forall a, k: nat, b ::
              (Trim(column) == a + Spaces(k) + b && 1 <= k && NoDoubleSpace(a) && (a == [] || a[|a| - 1] != ' ') && (b == [] || b[0] != ' '))
              ==> r == a + " " + CollapseSpaces(b)
  {
    var t := Trim(column);
    CollapseKeepsUnpadded(t);
    CollapseSpacesSound(t);
    CollapseSpacesRuns(t);
    CollapseSpaces(t)
  }

  /** An athlete a D0, D1 or F0 record can carry. */
  predicate Representable(a: Athlete) {
    && 3 <= |a.name| <= NameLen && Unpadded(a.name) && NoDoubleSpace(a.name)
    && |a.dob| == 10 && a.dob[4] == '-' && a.dob[7] == '-'
    && |a.gender| == 1
    && a.teamId == Utils.INVALID_ID
  }

  /** popFromSdifData: D0, D1 and F0 records carry an athlete; a parsed athlete belongs to no team yet. */
  function FromSdif(rec: SR.SdifRec): (r: Result<Athlete>)
    ensures LayoutOf(rec.recType).None? <==> r == Err(Sdif(InvalidRecordType))
    ensures LayoutOf(rec.recType).Some? && |rec.data| < LayoutOf(rec.recType).value.genderIdx + GenderLen
            ==> r == Err(IndexOutOfBounds)
    ensures r.Err? ==> r.error in {Sdif(InvalidRecordType), IndexOutOfBounds, Sdif(InvalidAthleteData)}
    ensures r.Ok? ==> Representable(r.value)
    ensures LayoutOf(rec.recType).Some? && |rec.data| >= LayoutOf(rec.recType).value.genderIdx + GenderLen ==>
              var l := LayoutOf(rec.recType).value;
              r == Parsed(rec.data[l.nameIdx..l.nameIdx + NameLen], rec.data[l.dobIdx..l.dobIdx + DobLen],
                          rec.data[l.genderIdx..l.genderIdx + GenderLen])
  {
    match LayoutOf(rec.recType)
    case None => Err(Sdif(InvalidRecordType))
    case Some(l) =>
      // the gender column ends last, so it decides whether substring throws
      if |rec.data| < l.genderIdx + GenderLen then Err(IndexOutOfBounds)
      else Parsed(rec.data[l.nameIdx..l.nameIdx + NameLen], rec.data[l.dobIdx..l.dobIdx + DobLen],
                  rec.data[l.genderIdx..l.genderIdx + GenderLen])
  }

  /** The athlete of the three columns once they are cut out: the name normalised, the date made "yyyy-mm-dd", and
      the lengths checked. */
  function Parsed(nameCol: string, dobCol: string, genderCol: string): (r: Result<Athlete>)
    requires |nameCol| == NameLen && |dobCol| == DobLen
    ensures r.Err? ==> r.error == Sdif(InvalidAthleteData)
    ensures r.Ok? ==> Representable(r.value)
  {
    var name := NormalizeName(nameCol);
    var dob := Utils.MakeDateString(dobCol);
    if |name| < 3 || |dob| != 10 || |genderCol| != 1 then Err(Sdif(InvalidAthleteData))
    else Ok(Athlete(name, dob, genderCol, Utils.INVALID_ID))
  }

  /** The columns of a representable athlete, as a record holds them, parse back to it. */
  lemma ParsedOfFields(a: Athlete)
    requires Representable(a)
    ensures Parsed(PadRight(a.name, NameLen), Utils.UnmakeDateString(a.dob), a.gender) == Ok(a)
  {
    NormalizePadded(a);
    Utils.UnmakeDateStringRoundTrip(a.dob);
  }

  /** A parsed athlete holds the normalised name column, the birth-date column as "yyyy-mm-dd" and the gender column. */
  lemma FromSdifReadsColumns(rec: SR.SdifRec)
    requires FromSdif(rec).Ok?
    ensures LayoutOf(rec.recType).Some? && |rec.data| >= LayoutOf(rec.recType).value.genderIdx + GenderLen
    ensures var l := LayoutOf(rec.recType).value;
            var a := FromSdif(rec).value;
            && a.dob == Utils.MakeDateString(rec.data[l.dobIdx..l.dobIdx + DobLen])
            && a.gender == rec.data[l.genderIdx..l.genderIdx + GenderLen]
            && a.name == NormalizeName(rec.data[l.nameIdx..l.nameIdx + NameLen])
  {
  }

  /** A record with the given code and layout holding a, blank outside the columns that are read. */
  function FormatWith(code: string, l: Layout, a: Athlete): (r: string)
    requires |code| == 2 && 2 <= l.nameIdx && l.nameIdx + NameLen <= l.dobIdx && l.dobIdx + DobLen <= l.genderIdx
    requires Representable(a)
    ensures |r| == l.genderIdx + GenderLen
  {
    code + Spaces(l.nameIdx - 2) + PadRight(a.name, NameLen) + Spaces(l.dobIdx - l.nameIdx - NameLen)
      + Utils.UnmakeDateString(a.dob) + Spaces(l.genderIdx - l.dobIdx - DobLen) + a.gender
  }

  /** A record of type t holding a. */
  function Format(t: SR.RecType, a: Athlete): (r: string)
    requires LayoutOf(t).Some? && Representable(a)
    ensures |r| == LayoutOf(t).value.genderIdx + GenderLen
  {
    FormatWith(SR.Code(t), LayoutOf(t).value, a)
  }

  /** The columns of a formatted record hold the padded name, the "mmddyyyy" birth date and the gender. */
  lemma FormatColumns(code: string, l: Layout, a: Athlete)
    requires |code| == 2 && 2 <= l.nameIdx && l.nameIdx + NameLen <= l.dobIdx && l.dobIdx + DobLen <= l.genderIdx
    requires Representable(a)
    ensures var line := FormatWith(code, l, a);
            && line[..2] == code
            && line[l.nameIdx..l.nameIdx + NameLen] == PadRight(a.name, NameLen)
            && line[l.dobIdx..l.dobIdx + DobLen] == Utils.UnmakeDateString(a.dob)
            && line[l.genderIdx..l.genderIdx + GenderLen] == a.gender
  {
    var a1 := code + Spaces(l.nameIdx - 2);
    var a2 := a1 + PadRight(a.name, NameLen);
    var a3 := a2 + Spaces(l.dobIdx - l.nameIdx - NameLen);
    var a4 := a3 + Utils.UnmakeDateString(a.dob);
    var a5 := a4 + Spaces(l.genderIdx - l.dobIdx - DobLen);
    var line := a5 + a.gender;
    assert line == FormatWith(code, l, a);
    assert |a1| == l.nameIdx && |a2| == l.nameIdx + NameLen && |a3| == l.dobIdx && |a4| == l.dobIdx + DobLen;
    assert line[l.genderIdx..l.genderIdx + GenderLen] == a.gender;
    PrefixSlice(a5, a.gender, l.dobIdx, l.dobIdx + DobLen);
    PrefixSlice(a4, Spaces(l.genderIdx - l.dobIdx - DobLen), l.dobIdx, l.dobIdx + DobLen);
    assert a4[l.dobIdx..l.dobIdx + DobLen] == Utils.UnmakeDateString(a.dob);
    PrefixSlice(a5, a.gender, l.nameIdx, l.nameIdx + NameLen);
    PrefixSlice(a4, Spaces(l.genderIdx - l.dobIdx - DobLen), l.nameIdx, l.nameIdx + NameLen);
    PrefixSlice(a3, Utils.UnmakeDateString(a.dob), l.nameIdx, l.nameIdx + NameLen);
    PrefixSlice(a2, Spaces(l.dobIdx - l.nameIdx - NameLen), l.nameIdx, l.nameIdx + NameLen);
    assert a2[l.nameIdx..l.nameIdx + NameLen] == PadRight(a.name, NameLen);
    PrefixSlice(a5, a.gender, 0, 2);
    PrefixSlice(a4, Spaces(l.genderIdx - l.dobIdx - DobLen), 0, 2);
    PrefixSlice(a3, Utils.UnmakeDateString(a.dob), 0, 2);
    PrefixSlice(a2, Spaces(l.dobIdx - l.nameIdx - NameLen), 0, 2);
    PrefixSlice(a1, PadRight(a.name, NameLen), 0, 2);
    PrefixSlice(code, Spaces(l.nameIdx - 2), 0, 2);
  }

  /** The name of a representable athlete, padded to the column width, normalises back to itself. */
  lemma NormalizePadded(a: Athlete)
    requires Representable(a)
    ensures NormalizeName(PadRight(a.name, NameLen)) == a.name
  {
    TrimOfPadRight(a.name, NameLen);
    CollapseOfNoDoubleSpace(a.name);
  }

  /** Parsing a formatted record gives back the athlete. */
  lemma ParseFormat(t: SR.RecType, a: Athlete)
    requires LayoutOf(t).Some? && Representable(a)
    ensures FromSdif(SR.MakeRec(Format(t, a))) == Ok(a)
  {
    var line := Format(t, a);
    var l := LayoutOf(t).value;
    FormatColumns(SR.Code(t), l, a);
    assert line == SR.Code(t) + line[2..];
    SR.RecTypeOfCodedLine(t, line[2..]);
    var rec := SR.MakeRec(line);
    assert FromSdif(rec) == Parsed(line[l.nameIdx..l.nameIdx + NameLen], line[l.dobIdx..l.dobIdx + DobLen],
                                   line[l.genderIdx..l.genderIdx + GenderLen]);
    ParsedOfFields(a);
  }
}
