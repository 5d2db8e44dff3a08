/** The java.lang.String operations the engine relies on, over seq<char>. */
module JavaString {
  import opened Base

  /** s.substring(b, e): throws StringIndexOutOfBoundsException unless b <= e <= |s|. */
  function Substring(s: string, b: nat, e: nat): (r: Result<string>)
    ensures r.Ok? <==> b <= e <= |s|
    ensures r.Ok? ==> |r.value| == e - b && r.value == s[b..e]
    ensures r.Err? ==> r.error == IndexOutOfBounds
  {
    if b <= e <= |s| then Ok(s[b..e]) else Err(IndexOutOfBounds)
  }

  /** String.trim() removes every leading and trailing character whose code is at most U+0020. */
  predicate IsWhite(c: char) { c <= ' ' }

  predicate Unpadded(s: string) {
    s == [] || (!IsWhite(s[0]) && !IsWhite(s[|s| - 1]))
  }

  function TrimLeft(s: string): (r: string)
    ensures |r| <= |s| && r == s[|s| - |r|..]
    ensures r != [] ==> !IsWhite(r[0])
    ensures forall i :: 0 <= i < |s| - |r| ==> IsWhite(s[i])
  {
    if s != [] && IsWhite(s[0]) then TrimLeft(s[1..]) else s
  }

  function TrimRight(s: string): (r: string)
    ensures |r| <= |s| && r == s[..|r|]
    ensures r != [] ==> !IsWhite(r[|r| - 1])
    ensures forall i :: |r| <= i < |s| ==> IsWhite(s[i])
  {
    if s != [] && IsWhite(s[|s| - 1]) then TrimRight(s[..|s| - 1]) else s
  }

  function Trim(s: string): (r: string)
    ensures Unpadded(r) && |r| <= |s|
  {
    var l := TrimLeft(s);
    var r := TrimRight(l);
    assert r != [] ==> r[0] == l[0];
    r
  }

  /** Trimming removes exactly a white prefix and a white suffix. */
  lemma {:induction false} TrimIsInfix(s: string)
    ensures exists i, j :: 0 <= i <= j <= |s| && Trim(s) == s[i..j]
                        && (forall k :: 0 <= k < i ==> IsWhite(s[k]))
                        && (forall k :: j <= k < |s| ==> IsWhite(s[k]))
  {
    var i, j := TrimBounds(s);
    assert 0 <= i <= j <= |s| && Trim(s) == s[i..j];
  }

  /** Where the trimmed text sits in s. */
  lemma {:induction false} TrimBounds(s: string) returns (i: nat, j: nat)
    ensures i <= j <= |s| && Trim(s) == s[i..j]
    ensures forall k :: 0 <= k < i ==> IsWhite(s[k])
    ensures forall k :: j <= k < |s| ==> IsWhite(s[k])
  {
    var l := TrimLeft(s);
    var r := TrimRight(l);
    i := |s| - |l|;
    j := i + |r|;
    assert Trim(s) == r;
    assert l == s[i..] && r == l[..|r|];
    forall k | j <= k < |s| ensures IsWhite(s[k]) {
      assert s[k] == l[k - i];
    }
  }

  lemma {:induction false} TrimLeftOfUnpadded(s: string)
    requires s == [] || !IsWhite(s[0])
    ensures TrimLeft(s) == s
  {
  }

  /** A string with no white character at either end is its own trim. */
  lemma TrimOfUnpadded(s: string)
    requires Unpadded(s)
    ensures Trim(s) == s
  {
    TrimLeftOfUnpadded(s);
  }

  lemma {:induction false} TrimLeftAfterWhite(w: string, t: string)
    requires forall k :: 0 <= k < |w| ==> IsWhite(w[k])
    requires t == [] || !IsWhite(t[0])
    ensures TrimLeft(w + t) == t
  {
    if w != [] {
      assert (w + t)[1..] == w[1..] + t;
      TrimLeftAfterWhite(w[1..], t);
    }
  }

  lemma {:induction false} TrimRightBeforeWhite(t: string, w: string)
    requires forall k :: 0 <= k < |w| ==> IsWhite(w[k])
    requires t == [] || !IsWhite(t[|t| - 1])
    ensures TrimRight(t + w) == t
  {
    if w != [] {
      assert (t + w)[..|t + w| - 1] == t + w[..|w| - 1];
      TrimRightBeforeWhite(t, w[..|w| - 1]);
    } else {
      assert t + w == t;
    }
  }

  /** Padding a non-empty unpadded text with white characters on both sides does not change its trim. */
  lemma TrimOfPadded(w1: string, t: string, w2: string)
    requires forall k :: 0 <= k < |w1| ==> IsWhite(w1[k])
    requires forall k :: 0 <= k < |w2| ==> IsWhite(w2[k])
    requires t != [] && Unpadded(t)
    ensures Trim(w1 + t + w2) == t
  {
    assert w1 + t + w2 == w1 + (t + w2);
    TrimLeftAfterWhite(w1, t + w2);
    TrimRightBeforeWhite(t, w2);
  }

  /** Drops the leading run of ' ' characters. */
  function DropSpaces(s: string): (r: string)
    ensures |r| <= |s| && r == s[|s| - |r|..]
    ensures r == [] || r[0] != ' '
    ensures forall i :: 0 <= i < |s| - |r| ==> s[i] == ' '
  {
    if s != [] && s[0] == ' ' then DropSpaces(s[1..]) else s
  }

  /** s.replaceAll(" +", " "): every maximal run of ' ' becomes a single ' '. */
  function CollapseSpaces(s: string): (r: string)
    ensures |r| <= |s|
    decreases |s|
  {
    if s == [] then []
    else if s[0] == ' ' then [' '] + CollapseSpaces(DropSpaces(s[1..]))
    else [s[0]] + CollapseSpaces(s[1..])
  }

  predicate NoDoubleSpace(s: string) {
    forall i :: 0 <= i < |s| - 1 ==> !(s[i] == ' ' && s[i + 1] == ' ')
  }

  /** The characters other than ' ', in order. */
  function NonSpaces(s: string): string {
    if s == [] then [] else (if s[0] == ' ' then [] else [s[0]]) + NonSpaces(s[1..])
  }

  lemma {:induction false} NonSpacesOfDropSpaces(s: string)
    ensures NonSpaces(DropSpaces(s)) == NonSpaces(s)
  {
    if s != [] && s[0] == ' ' {
      NonSpacesOfDropSpaces(s[1..]);
    }
  }

  lemma {:induction false} CollapseStartsWith(s: string)
    requires s != []
    ensures CollapseSpaces(s) != [] && CollapseSpaces(s)[0] == s[0]
  {
  }

  /** Collapsing leaves no two adjacent spaces and keeps every other character, in order. */
  lemma {:induction false} CollapseSpacesSound(s: string)
    ensures NoDoubleSpace(CollapseSpaces(s))
    ensures NonSpaces(CollapseSpaces(s)) == NonSpaces(s)
    decreases |s|
  {
    if s == [] {
    } else if s[0] == ' ' {
      var rest := DropSpaces(s[1..]);
      CollapseSpacesSound(rest);
      NonSpacesOfDropSpaces(s[1..]);
      var c := CollapseSpaces(rest);
      assert CollapseSpaces(s) == [' '] + c;
      if c != [] {
        CollapseStartsWith(rest);
      }
      assert ([' '] + c)[1..] == c;
    } else {
      CollapseSpacesSound(s[1..]);
      var c := CollapseSpaces(s[1..]);
      assert CollapseSpaces(s) == [s[0]] + c;
      assert ([s[0]] + c)[1..] == c;
    }
  }

  lemma {:induction false} CollapseEndsWith(s: string)
    requires s != [] && s[|s| - 1] != ' '
    ensures CollapseSpaces(s) != [] && CollapseSpaces(s)[|CollapseSpaces(s)| - 1] == s[|s| - 1]
    decreases |s|
  {
    if |s| == 1 {
    } else if s[0] == ' ' {
      var rest := DropSpaces(s[1..]);
      assert rest != [] && rest[|rest| - 1] == s[|s| - 1];
      CollapseEndsWith(rest);
    } else {
      CollapseEndsWith(s[1..]);
    }
  }

  /** Collapsing a trimmed string keeps it trimmed. */
  lemma CollapseKeepsUnpadded(s: string)
    requires Unpadded(s)
    ensures Unpadded(CollapseSpaces(s))
  {
    if s != [] {
      CollapseStartsWith(s);
      CollapseEndsWith(s);
    }
  }

  /** Character.toLowerCase restricted to ASCII letters. */
  function LowerChar(c: char): char {
    if 'A' <= c <= 'Z' then (c as int + 32) as char else c
  }

  function Lower(s: string): (r: string)
    ensures |r| == |s| && forall i :: 0 <= i < |s| ==> r[i] == LowerChar(s[i])
  {
    seq(|s|, i requires 0 <= i < |s| => LowerChar(s[i]))
  }

  /**
   * The case fold equalsIgnoreCase applies to one character, toLowerCase(toUpperCase(c)):
   * the ASCII letters, plus the four non-ASCII characters that fold onto an ASCII letter --
   * dotless i (U+0131) and capital I with dot (U+0130) onto 'i', long s (U+017F) onto 's'
   * and the Kelvin sign (U+212A) onto 'k'.
   */
  function FoldChar(c: char): (r: char)
    ensures c < '\U{80}' ==> r == LowerChar(c)
    ensures r < '\U{80}' <==> c < '\U{80}' || c in {'\U{130}', '\U{131}', '\U{17F}', '\U{212A}'}
    ensures !('A' <= r <= 'Z')
  {
    if c == '\U{130}' || c == '\U{131}' then 'i'
    else if c == '\U{17F}' then 's'
    else if c == '\U{212A}' then 'k'
    else LowerChar(c)
  }

  function Fold(s: string): (r: string)
    ensures |r| == |s| && forall i :: 0 <= i < |s| ==> r[i] == FoldChar(s[i])
  {
    seq(|s|, i requires 0 <= i < |s| => FoldChar(s[i]))
  }

  /** s.equalsIgnoreCase(t): same length and, character by character, the same fold. */
  predicate EqualsIgnoreCase(s: string, t: string) {
    Fold(s) == Fold(t)
  }

  /** Against ASCII text, a string matches ignoring case exactly when its fold is the ASCII lower case of that text. */
  lemma {:induction false} EqualsIgnoreCaseAscii(s: string, t: string)
    requires forall i :: 0 <= i < |t| ==> t[i] < '\U{80}'
    ensures EqualsIgnoreCase(s, t) <==> Fold(s) == Lower(t)
  {
    assert Fold(t) == Lower(t) by {
      forall i | 0 <= i < |t| ensures Fold(t)[i] == Lower(t)[i] {
        assert t[i] < '\U{80}';
      }
    }
  }

  predicate EndsWith(s: string, suffix: string) {
    |suffix| <= |s| && s[|s| - |suffix|..] == suffix
  }

  /** s.lastIndexOf(c): the last position holding c, or -1. */
  function LastIndexOf(s: string, c: char): (r: int)
    ensures -1 <= r < |s|
    ensures r >= 0 ==> s[r] == c
    ensures forall k :: r < k < |s| ==> s[k] != c
  {
    if s == [] then -1
    else if s[|s| - 1] == c then |s| - 1
    else LastIndexOf(s[..|s| - 1], c)
  }

  predicate OccursAt(s: string, sep: string, k: int) {
    0 <= k && k + |sep| <= |s| && s[k..k + |sep|] == sep
  }

  lemma OccursAtShift(s: string, sep: string, k: int)
    requires s != [] && k >= 0
    ensures OccursAt(s, sep, k + 1) <==> OccursAt(s[1..], sep, k)
  {
    if 0 <= k && k + 1 + |sep| <= |s| {
      assert s[k + 1..k + 1 + |sep|] == s[1..][k..k + |sep|];
    }
  }

  /** Position of the first occurrence of sep in s. */
  function IndexOf(s: string, sep: string): (r: Option<nat>)
    requires sep != []
    ensures r.Some? ==> OccursAt(s, sep, r.value)
    ensures forall k :: (r.None? || k < r.value) ==> !OccursAt(s, sep, k)
  {
    if |s| < |sep| then None
    else if s[..|sep|] == sep then Some(0)
    else
      var t := IndexOf(s[1..], sep);
      assert forall k :: k >= 0 ==> (OccursAt(s, sep, k + 1) <==> OccursAt(s[1..], sep, k)) by {
        forall k | k >= 0 ensures OccursAt(s, sep, k + 1) <==> OccursAt(s[1..], sep, k) {
          OccursAtShift(s, sep, k);
        }
      }
      assert forall k :: k <= 0 ==> !OccursAt(s, sep, k);
      match t
      case None =>
        assert forall k :: !OccursAt(s, sep, k) by {
          forall k ensures !OccursAt(s, sep, k) {
            if k > 0 { assert !OccursAt(s[1..], sep, k - 1); }
          }
        }
        None
      case Some(j) =>
        assert forall k :: k < j + 1 ==> !OccursAt(s, sep, k) by {
          forall k | k < j + 1 ensures !OccursAt(s, sep, k) {
            if k > 0 { assert !OccursAt(s[1..], sep, k - 1); }
          }
        }
        Some(j + 1)
  }

  /** The pieces of s around the non-overlapping occurrences of sep, scanning left to right. */
  function Pieces(s: string, sep: string): (r: seq<string>)
    requires sep != []
    ensures |r| >= 1
    decreases |s|
  {
    match IndexOf(s, sep)
    case None => [s]
    case Some(i) => [s[..i]] + Pieces(s[i + |sep|..], sep)
  }

  function DropTrailingEmpty(xs: seq<string>): (r: seq<string>)
    ensures |r| <= |xs| && r == xs[..|r|]
    ensures r == [] || r[|r| - 1] != []
  {
    if xs != [] && xs[|xs| - 1] == [] then DropTrailingEmpty(xs[..|xs| - 1]) else xs
  }

  /** s.split(sep) for a separator without regular-expression metacharacters:
      Java keeps s itself when sep never occurs, and otherwise drops trailing empty pieces. */
  function Split(s: string, sep: string): (r: seq<string>)
    requires sep != []
  {
    var p := Pieces(s, sep);
    if |p| == 1 then p else DropTrailingEmpty(p)
  }

  /** A text without the separator splits into itself. */
  lemma SplitWithoutSeparator(s: string, sep: string)
    requires sep != [] && IndexOf(s, sep).None?
    ensures Split(s, sep) == [s]
  {
  }

  /** When the split is not empty its first piece is the text before the first separator. */
  lemma SplitHead(s: string, sep: string)
    requires sep != [] && Split(s, sep) != []
    ensures Split(s, sep)[0] == match IndexOf(s, sep) case None => s case Some(i) => s[..i]
  {
  }

  /** A text made of two separators splits into nothing at all. */
  lemma {:induction false} SplitEmptyOfSeparators(sep: string)
    requires sep != []
    ensures Split(sep + sep, sep) == []
  {
    assert (sep + sep)[..|sep|] == sep;
    assert (sep + sep)[|sep|..] == sep;
    assert sep[..|sep|] == sep;
    assert sep[|sep|..] == [];
    assert Pieces(sep, sep) == [[]] + Pieces([], sep);
    assert Pieces(sep + sep, sep) == [[], [], []];
  }

  function NatToString(n: nat): (r: string)
    ensures |r| >= 1
  {
    var d := ['0' + (n % 10) as char];
    if n < 10 then d else NatToString(n / 10) + d
  }

  /** Integer.toString(i). */
  function IntToString(i: int): string {
    if i < 0 then "-" + NatToString(-i) else NatToString(i)
  }

  function Spaces(n: nat): (r: string)
    ensures |r| == n && forall i :: 0 <= i < n ==> r[i] == ' '
  {
    if n == 0 then [] else Spaces(n - 1) + [' ']
  }

  /** t filled with spaces on the right up to n characters: how a fixed-width column holds a short text. */
  function PadRight(t: string, n: nat): (r: string)
    requires |t| <= n
    ensures |r| == n && r[..|t|] == t
  {
    t + Spaces(n - |t|)
  }

  /** Trimming a padded column gives back the unpadded text it holds. */
  lemma TrimOfPadRight(t: string, n: nat)
    requires Unpadded(t) && |t| <= n
    ensures Trim(PadRight(t, n)) == t
  {
    var w := Spaces(n - |t|);
    if t == [] {
      TrimLeftAfterWhite(w, []);
      assert w + [] == w;
      assert TrimLeft(w) == [];
    } else {
      TrimLeftOfUnpadded(t + w);
      TrimRightBeforeWhite(t, w);
    }
  }

  lemma {:induction false} CollapseOfNoDoubleSpace(s: string)
    requires NoDoubleSpace(s)
    ensures CollapseSpaces(s) == s
    decreases |s|
  {
    if s != [] {
      assert NoDoubleSpace(s[1..]) by {
        forall i | 0 <= i < |s[1..]| - 1 ensures !(s[1..][i] == ' ' && s[1..][i + 1] == ' ') {
          assert s[1..][i] == s[i + 1] && s[1..][i + 1] == s[i + 2];
        }
      }
      if s[0] == ' ' {
        assert s[1..] == [] || s[1] != ' ';
        assert DropSpaces(s[1..]) == s[1..];
      }
      CollapseOfNoDoubleSpace(s[1..]);
    }
  }

  /** Dropping the leading spaces of a run of k spaces before a text that does not start with one leaves the text. */
  lemma {:induction false} DropSpacesRun(k: nat, b: string)
    requires b == [] || b[0] != ' '
    ensures DropSpaces(Spaces(k) + b) == b
  {
    var s := Spaces(k) + b;
    var r := DropSpaces(s);
    assert s[k..] == b;
    if |r| > |b| {
      assert s[|s| - |r|] == ' ';
    }
  }

  lemma NoDoubleSpaceTail(a: string)
    requires a != [] && NoDoubleSpace(a)
    ensures NoDoubleSpace(a[1..])
  {
    forall i | 0 <= i < |a| - 2 ensures !(a[1..][i] == ' ' && a[1..][i + 1] == ' ') {
      assert a[1..][i] == a[i + 1] && a[1..][i + 1] == a[i + 2];
    }
  }

  /** One step of CollapseSpaces on a text whose second character, after a leading space, is not a space. */
  lemma CollapseStep(s: string)
    requires s != [] && (s[0] == ' ' ==> |s| > 1 && s[1] != ' ')
    ensures CollapseSpaces(s) == [s[0]] + CollapseSpaces(s[1..])
  {
    if s[0] == ' ' {
      assert DropSpaces(s[1..]) == s[1..];
    }
  }

  /** A prefix with no two spaces in a row and no trailing space is kept as it is. */
  lemma {:induction false} CollapseAppend(a: string, b: string)
    requires NoDoubleSpace(a) && (a == [] || a[|a| - 1] != ' ')
    ensures CollapseSpaces(a + b) == a + CollapseSpaces(b)
    decreases |a|
  {
    if a != [] {
      var a' := a[1..];
      NoDoubleSpaceTail(a);
      assert a' == [] || a'[|a'| - 1] == a[|a| - 1];
      CollapseAppend(a', b);
      var s := a + b;
      assert s[0] == a[0] && s[1..] == a' + b;
      CollapseStep(s);
      if a[0] == ' ' {
        assert a'[0] == a[1];
      }
      assert a == [a[0]] + a';
      assert CollapseSpaces(s) == [a[0]] + (a' + CollapseSpaces(b));
    } else {
      assert a + b == b;
    }
  }

  /** A run of k >= 1 spaces before a text that does not start with one collapses to a single space. */
  lemma {:induction false} CollapseOfRun(k: nat, b: string)
    requires 1 <= k && (b == [] || b[0] != ' ')
    ensures CollapseSpaces(Spaces(k) + b) == " " + CollapseSpaces(b)
  {
    var w := Spaces(k) + b;
    assert w[0] == ' ' && w[1..] == Spaces(k - 1) + b;
    DropSpacesRun(k - 1, b);
    assert DropSpaces(w[1..]) == b;
    assert CollapseSpaces(w) == [' '] + CollapseSpaces(DropSpaces(w[1..]));
  }

  /** replaceAll(" +", " ") on one run: the first maximal run of k >= 1 spaces, after a prefix with no two spaces in a
      row, becomes exactly one space, and the rest is collapsed in turn. */
  lemma {:induction false} CollapseSpacesRun(a: string, k: nat, b: string)
    requires NoDoubleSpace(a) && (a == [] || a[|a| - 1] != ' ')
    requires 1 <= k && (b == [] || b[0] != ' ')
    ensures CollapseSpaces(a + Spaces(k) + b) == a + " " + CollapseSpaces(b)
  {
    var w := Spaces(k) + b;
    assert a + Spaces(k) + b == a + w;
    CollapseAppend(a, w);
    CollapseOfRun(k, b);
  }

  /** CollapseSpacesRun for every way of cutting s around a run of spaces. */
  lemma {:induction false} CollapseSpacesRuns(s: string)
    ensures forall a, k: nat, b ::
              (s == a + Spaces(k) + b && 1 <= k && NoDoubleSpace(a) && (a == [] || a[|a| - 1] != ' ') && (b == [] || b[0] != ' '))
              ==> CollapseSpaces(s) == a + " " + CollapseSpaces(b)
  {
    forall a, k: nat, b | s == a + Spaces(k) + b && 1 <= k && NoDoubleSpace(a) && (a == [] || a[|a| - 1] != ' ') &&
                          (b == [] || b[0] != ' ')
      ensures CollapseSpaces(s) == a + " " + CollapseSpaces(b)
    {
      CollapseSpacesRun(a, k, b);
    }
  }

  /** Joining two texts around a separator that the first never holds loses nothing. */
  lemma JoinInjective(a1: string, b1: string, a2: string, b2: string, c: char)
    requires c !in a1 && c !in a2
    requires a1 + [c] + b1 == a2 + [c] + b2
    ensures a1 == a2 && b1 == b2
  {
    var s1 := a1 + [c] + b1;
    JoinedAt(a1, c, b1);
    JoinedAt(a2, c, b2);
    assert a1 == s1[..|a1|];
    assert a2 == (a2 + [c] + b2)[..|a2|];
    assert b1 == s1[|a1| + 1..];
    assert b2 == (a2 + [c] + b2)[|a2| + 1..];
  }

  lemma JoinedAt(a: string, c: char, b: string)
    ensures (a + [c] + b)[|a|] == c
    ensures forall i :: 0 <= i < |a| ==> (a + [c] + b)[i] == a[i]
  {
  }

  predicate IsDigit(c: char) { '0' <= c <= '9' }

  lemma {:induction false} NatToStringDigits(n: nat)
    ensures forall i :: 0 <= i < |NatToString(n)| ==> IsDigit(NatToString(n)[i])
  {
    if n >= 10 {
      NatToStringDigits(n / 10);
    }
  }

  lemma NatToStringLength(n: nat)
    ensures n < 10 <==> |NatToString(n)| == 1
  {
  }

  /** Distinct numbers have distinct decimal texts. */
  lemma {:induction false} NatToStringInjective(a: nat, b: nat)
    requires NatToString(a) == NatToString(b)
    ensures a == b
  {
    NatToStringLength(a);
    NatToStringLength(b);
    var s := NatToString(a);
    assert s[|s| - 1] == '0' + (a % 10) as char == '0' + (b % 10) as char;
    if a >= 10 && b >= 10 {
      assert NatToString(a / 10) == s[..|s| - 1] == NatToString(b / 10);
      NatToStringInjective(a / 10, b / 10);
    }
  }

  /** Integer.toString never writes a ':' and never gives two numbers the same text. */
  lemma IntToStringSign(i: int)
    ensures |IntToString(i)| >= 1 && (IntToString(i)[0] == '-' <==> i < 0)
  {
    NatToStringDigits(if i < 0 then -i else i);
  }

  lemma IntToStringInjective(a: int, b: int)
    ensures ':' !in IntToString(a)
    ensures IntToString(a) == IntToString(b) ==> a == b
  {
    NatToStringDigits(if a < 0 then -a else a);
    IntToStringSign(a);
    IntToStringSign(b);
    if IntToString(a) == IntToString(b) {
      if a < 0 && b < 0 {
        assert NatToString(-a) == IntToString(a)[1..];
        assert NatToString(-b) == IntToString(b)[1..];
        NatToStringInjective(-a, -b);
      } else if a >= 0 && b >= 0 {
        NatToStringInjective(a, b);
      }
    }
    if a < 0 {
      assert forall i :: 1 <= i < |IntToString(a)| ==> IntToString(a)[i] == NatToString(-a)[i - 1];
    }
  }

  /** A slice within the first part of a concatenation is a slice of that part. */
  lemma PrefixSlice(p: string, q: string, i: nat, j: nat)
    requires i <= j <= |p|
    ensures (p + q)[i..j] == p[i..j]
  {
  }
}
