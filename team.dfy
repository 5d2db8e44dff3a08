/** org.gcsl.model.Team: a team and the set of its athletes. */
module Teams {
  import opened Base
  import opened JavaString
  import Utils
  import SR = SdifRecs
  import opened Athletes

  /** What Team.equals and makeHash look at: never lastUpdate and never the athletes. */
  datatype TeamKey = TeamKey(id: int, code: string, name: string)

  /** makeHash: id, code and name joined by ':'. */
  function MakeHash(k: TeamKey): string {
    IntToString(k.id) + ":" + k.code + ":" + k.name
  }

  /** Equal teams hash alike; when codes hold no ':', the hash text tells teams apart. */
  lemma HashIdentifiesTeam(a: TeamKey, b: TeamKey)
    ensures a == b ==> MakeHash(a) == MakeHash(b)
    ensures ':' !in a.code && ':' !in b.code && MakeHash(a) == MakeHash(b) ==> a == b
  {
    if ':' !in a.code && ':' !in b.code && MakeHash(a) == MakeHash(b) {
      IntToStringInjective(a.id, b.id);
      IntToStringInjective(b.id, a.id);
      var ta := a.code + ":" + a.name;
      var tb := b.code + ":" + b.name;
      assert MakeHash(a) == IntToString(a.id) + [':'] + ta;
      assert MakeHash(b) == IntToString(b.id) + [':'] + tb;
      JoinInjective(IntToString(a.id), ta, IntToString(b.id), tb, ':');
      assert ta == a.code + [':'] + a.name && tb == b.code + [':'] + b.name;
      JoinInjective(a.code, a.name, b.code, b.name, ':');
    }
  }

  /** The code and name a team record carries. */
  datatype TeamFields = TeamFields(code: string, name: string)

  /** fromSdifData: code = trim of columns 13..17, name = trim of columns 17..47 of a C1 record. */
  function SdifTeamFields(rec: SR.SdifRec): (r: Result<TeamFields>)
    ensures r.Err? <==> |rec.data| < 47
    ensures r.Err? ==> r.error == IndexOutOfBounds
    ensures r.Ok? ==> Unpadded(r.value.code) && |r.value.code| <= 4 && Unpadded(r.value.name) && |r.value.name| <= 30
  {
    if |rec.data| < 47 then Err(IndexOutOfBounds)
    else
      var code := Trim(rec.data[13..17]);
      var name := Trim(rec.data[17..47]);
      assert Unpadded(code) && |code| <= 4;
      assert Unpadded(name) && |name| <= 30;
      Ok(TeamFields(code, name))
  }

  /** fromHy3Data: code = trim of columns 2..7, name = trim of columns 7..37. */
  function Hy3TeamFields(rec: SR.SdifRec): (r: Result<TeamFields>)
    ensures r.Err? <==> |rec.data| < 37
    ensures r.Err? ==> r.error == IndexOutOfBounds
    ensures r.Ok? ==> Unpadded(r.value.code) && |r.value.code| <= 5 && Unpadded(r.value.name) && |r.value.name| <= 30
  {
    if |rec.data| < 37 then Err(IndexOutOfBounds)
    else
      var code := Trim(rec.data[2..7]);
      var name := Trim(rec.data[7..37]);
      assert Unpadded(code) && |code| <= 5;
      assert Unpadded(name) && |name| <= 30;
      Ok(TeamFields(code, name))
  }

  /** A C1 record holding f. */
  function FormatSdifTeam(f: TeamFields): (r: string)
    requires Unpadded(f.code) && |f.code| <= 4 && Unpadded(f.name) && |f.name| <= 30
    ensures |r| == 47 && r[..2] == "C1"
  {
    "C1" + Spaces(11) + PadRight(f.code, 4) + PadRight(f.name, 30)
  }

  /** Parsing a formatted C1 record gives back its code and name. */
  lemma SdifTeamFieldsRoundTrip(f: TeamFields)
    requires Unpadded(f.code) && |f.code| <= 4 && Unpadded(f.name) && |f.name| <= 30
    ensures SdifTeamFields(SR.MakeRec(FormatSdifTeam(f))) == Ok(f)
  {
    var p := "C1" + Spaces(11);
    var q := p + PadRight(f.code, 4);
    var line := q + PadRight(f.name, 30);
    assert line == FormatSdifTeam(f);
    PrefixSlice(q, PadRight(f.name, 30), 13, 17);
    assert line[17..47] == PadRight(f.name, 30);
    TrimOfPadRight(f.code, 4);
    TrimOfPadRight(f.name, 30);
  }

  /** A team-ID record of a HY3 file holding f; the two leading characters are its record code. */
  function FormatHy3Team(recCode: string, f: TeamFields): (r: string)
    requires |recCode| == 2
    requires Unpadded(f.code) && |f.code| <= 5 && Unpadded(f.name) && |f.name| <= 30
    ensures |r| == 37
  {
    recCode + PadRight(f.code, 5) + PadRight(f.name, 30)
  }

  lemma Hy3TeamFieldsRoundTrip(recCode: string, f: TeamFields)
    requires |recCode| == 2
    requires Unpadded(f.code) && |f.code| <= 5 && Unpadded(f.name) && |f.name| <= 30
    ensures Hy3TeamFields(SR.MakeRec(FormatHy3Team(recCode, f))) == Ok(f)
  {
    var q := recCode + PadRight(f.code, 5);
    var line := q + PadRight(f.name, 30);
    assert line == FormatHy3Team(recCode, f);
    PrefixSlice(q, PadRight(f.name, 30), 2, 7);
    assert line[7..37] == PadRight(f.name, 30);
    TrimOfPadRight(f.code, 5);
    TrimOfPadRight(f.name, 30);
  }

  function Retag(a: Athlete, teamId: int): Athlete {
    a.(teamId := teamId)
  }

  /** Every member carries the given team id. */
  predicate TaggedWith(m: map<Athlete, int>, teamId: int) {
    forall a :: a in m ==> a.teamId == teamId
  }

  function RetaggedKeys(keys: set<Athlete>, teamId: int): set<Athlete> {
    set a | a in keys :: Retag(a, teamId)
  }

  /** When all members share one team id, retagging them is one-to-one. */
  lemma RetagInjective(m: map<Athlete, int>, from: int, a: Athlete, b: Athlete, to: int)
    requires TaggedWith(m, from) && a in m && b in m
    requires Retag(a, to) == Retag(b, to)
    ensures a == b
  {
  }

  class Team {
    var id: int
    var code: string
    var name: string
    var lastUpdate: string
    /** The HashSet<Athlete>: each member's key with the database id that member object carries. */
    var athletes: map<Athlete, int>

    /** Team(id, shortName, longName, lastUpdate): a team without athletes. */
    constructor (id: int, shortName: string, longName: string, lastUpdate: string)
      ensures this.id == id && code == shortName && name == longName && this.lastUpdate == lastUpdate
      ensures athletes == map[]
    {
      this.id := id;
      code := shortName;
      name := longName;
      this.lastUpdate := lastUpdate;
      athletes := map[];
    }

    function Key(): TeamKey
      reads this
    {
      TeamKey(id, code, name)
    }

    /** Team.equals. */
    predicate Equals(other: Team)
      reads this, other
    {
      Key() == other.Key()
    }

    /** Every athlete of the team carries the team's id. */
    predicate Tagged()
      reads this
    {
      TaggedWith(athletes, id)
    }

    /** getTeamSize. */
    function Size(): (n: nat)
      reads this
      ensures n == |athletes.Keys|
    {
      |athletes|
    }

    /** addAthlete: tags the athlete with the team id, then adds it; an equal member already present is kept with its id. */
    method AddAthlete(a: Athlete, athleteId: int)
      modifies this
      ensures id == old(id) && code == old(code) && name == old(name) && lastUpdate == old(lastUpdate)
      ensures athletes == if Retag(a, id) in old(athletes) then old(athletes) else old(athletes)[Retag(a, id) := athleteId]
      ensures athletes.Keys == old(athletes).Keys + {Retag(a, id)}
      ensures old(Tagged()) ==> Tagged()
    {
      var tagged := Retag(a, id);
      if tagged !in athletes {
        athletes := athletes[tagged := athleteId];
      }
    }

    /** removeAthlete: removes the equal member, if any, and nothing else. */
    method RemoveAthlete(a: Athlete)
      modifies this
      ensures id == old(id) && code == old(code) && name == old(name) && lastUpdate == old(lastUpdate)
      ensures athletes.Keys == old(athletes).Keys - {a}
      ensures forall k :: k in athletes ==> athletes[k] == old(athletes)[k]
      ensures old(Tagged()) ==> Tagged()
    {
      athletes := athletes - {a};
    }

    /** addRoster: adds every athlete of the set as it is, without retagging; members already present are kept. */
    method AddRoster(roster: map<Athlete, int>)
      modifies this
      ensures id == old(id) && code == old(code) && name == old(name) && lastUpdate == old(lastUpdate)
      ensures athletes.Keys == old(athletes).Keys + roster.Keys
      ensures forall k :: k in old(athletes) ==> athletes[k] == old(athletes)[k]
      ensures forall k :: k in roster && k !in old(athletes) ==> athletes[k] == roster[k]
      ensures old(Tagged()) && TaggedWith(roster, id) ==> Tagged()
    {
      athletes := roster + athletes;
    }

    /** setId: the new id, and every athlete retagged with it in a rebuilt set. When two members differ only
        in their team id they become equal, and which of their database ids survives depends on iteration order. */
    method SetId(newId: int)
      modifies this
      ensures id == newId && code == old(code) && name == old(name) && lastUpdate == old(lastUpdate)
      ensures athletes.Keys == RetaggedKeys(old(athletes).Keys, newId)
      ensures Tagged()
      ensures forall b :: b in athletes ==> exists a :: a in old(athletes) && Retag(a, newId) == b && athletes[b] == old(athletes)[a]
    {
      id := newId;
      var rest := athletes.Keys;
      var rebuilt: map<Athlete, int> := map[];
      while rest != {}
        invariant rest <= athletes.Keys
        invariant rebuilt.Keys == RetaggedKeys(athletes.Keys - rest, newId)
        invariant forall b :: b in rebuilt ==> exists a :: a in athletes && a !in rest && Retag(a, newId) == b && rebuilt[b] == athletes[a]
        decreases |rest|
      {
        var a :| a in rest;
        var b := Retag(a, newId);
        if b !in rebuilt {
          rebuilt := rebuilt[b := athletes[a]];
        }
        rest := rest - {a};
      }
      athletes := rebuilt;
    }
  }

  /** After setId on a team whose athletes all carry its old id, every member is found again under the new id with
      the database id it had. */
  lemma SetIdKeepsMembers(old_athletes: map<Athlete, int>, oldId: int, newId: int, athletes: map<Athlete, int>, a: Athlete)
    requires TaggedWith(old_athletes, oldId) && a in old_athletes
    requires athletes.Keys == RetaggedKeys(old_athletes.Keys, newId)
    requires forall b :: b in athletes ==> exists a :: a in old_athletes && Retag(a, newId) == b && athletes[b] == old_athletes[a]
    ensures Retag(a, newId) in athletes && athletes[Retag(a, newId)] == old_athletes[a]
  {
    var b := Retag(a, newId);
    assert b in athletes;
    var a' :| a' in old_athletes && Retag(a', newId) == b && athletes[b] == old_athletes[a'];
    RetagInjective(old_athletes, oldId, a, a', newId);
  }

  /** An athlete whose team id differs from the one every member carries is never contained. */
  lemma OtherTeamIdNotContained(m: map<Athlete, int>, teamId: int, a: Athlete)
    requires TaggedWith(m, teamId) && a.teamId != teamId
    ensures a !in m
  {
  }

  /** A team built from a C1 record has the parsed code and name and no id yet. */
  method FromSdifData(rec: SR.SdifRec) returns (r: Result<Team>)
    ensures r.Err? <==> SdifTeamFields(rec).Err?
    ensures r.Err? ==> r.error == SdifTeamFields(rec).error
    ensures r.Ok? ==> fresh(r.value) && r.value.athletes == map[] && r.value.lastUpdate == ""
    ensures r.Ok? ==> r.value.Key() == TeamKey(Utils.INVALID_ID, SdifTeamFields(rec).value.code, SdifTeamFields(rec).value.name)
  {
    var f := SdifTeamFields(rec);
    if f.Err? {
      return Err(f.error);
    }
    var t := new Team(Utils.INVALID_ID, f.value.code, f.value.name, "");
    r := Ok(t);
  }

  /** The same from a HY3 team record. */
  method FromHy3Data(rec: SR.SdifRec) returns (r: Result<Team>)
    ensures r.Err? <==> Hy3TeamFields(rec).Err?
    ensures r.Err? ==> r.error == Hy3TeamFields(rec).error
    ensures r.Ok? ==> fresh(r.value) && r.value.athletes == map[] && r.value.lastUpdate == ""
    ensures r.Ok? ==> r.value.Key() == TeamKey(Utils.INVALID_ID, Hy3TeamFields(rec).value.code, Hy3TeamFields(rec).value.name)
  {
    var f := Hy3TeamFields(rec);
    if f.Err? {
      return Err(f.error);
    }
    var t := new Team(Utils.INVALID_ID, f.value.code, f.value.name, "");
    r := Ok(t);
  }
}
