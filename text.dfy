/**
 * The Python string operations the chunk serialiser and parser rely on:
 * str.isspace, str.strip, the `in` substring test, str.split with a separator,
 * str.join, str.split(c, 1) and str.lower.
 */
module Text {
  import opened Wrappers

  /** Python's str.isspace() on one character (Unicode White_Space as CPython defines it). */
  predicate IsSpace(c: char)
  {
    || c == ' '
    || ('\t' <= c <= '\r')
    || ('\U{1C}' <= c <= '\U{1F}')
    || c == '\U{85}' || c == '\U{A0}' || c == '\U{1680}'
    || ('\U{2000}' <= c <= '\U{200A}')
    || c == '\U{2028}' || c == '\U{2029}' || c == '\U{202F}' || c == '\U{205F}' || c == '\U{3000}'
  }

  /** Neither end of s is whitespace: s is its own strip(). */
  predicate Trimmed(s: string)
  {
    |s| == 0 || (!IsSpace(s[0]) && !IsSpace(s[|s| - 1]))
  }

  predicate AllSpace(s: string)
  {
    forall i :: 0 <= i < |s| ==> IsSpace(s[i])
  }

  function StripLeft(s: string): (r: string)
    ensures |r| <= |s| && r == s[|s| - |r|..]
    ensures forall i :: 0 <= i < |s| - |r| ==> IsSpace(s[i])
    ensures |r| == 0 || !IsSpace(r[0])
    decreases |s|
  {
    if |s| > 0 && IsSpace(s[0]) then
      var r := StripLeft(s[1..]);
      assert forall i :: 1 <= i < |s| ==> s[i] == s[1..][i - 1];
      r
    else s
  }

  function StripRight(s: string): (r: string)
    ensures |r| <= |s| && r == s[..|r|]
    ensures forall i :: |r| <= i < |s| ==> IsSpace(s[i])
    ensures |r| == 0 || !IsSpace(r[|r| - 1])
    decreases |s|
  {
    if |s| > 0 && IsSpace(s[|s| - 1]) then
      var r := StripRight(s[..|s| - 1]);
      assert forall i :: 0 <= i < |s| - 1 ==> s[i] == s[..|s| - 1][i];
      r
    else s
  }

  /** str.strip() with no argument. */
  function Strip(s: string): (r: string)
    ensures Trimmed(r)
    ensures |r| <= |s|
  {
    var l := StripLeft(s);
    var r := StripRight(l);
    assert |r| > 0 ==> r[0] == l[0];
    r
  }

  /** strip() leaves a string alone exactly when neither end is whitespace. */
  lemma StripIdentity(s: string)
    ensures Strip(s) == s <==> Trimmed(s)
  {
    if Trimmed(s) && |s| > 0 {
      assert StripLeft(s) == s;
      assert StripRight(s) == s;
    }
  }

  /** strip() gives the empty string exactly for whitespace-only input. */
  lemma StripEmptyIffAllSpace(s: string)
    ensures Strip(s) == "" <==> AllSpace(s)
  {
    if AllSpace(s) {
      AllSpaceStripsLeft(s);
    } else {
      var i :| 0 <= i < |s| && !IsSpace(s[i]);
      var k := KeptByStripLeft(s, i);
      KeptByStripRight(StripLeft(s), k);
    }
  }

  /** A non-blank character survives lstrip(); k is its position in the result. */
  lemma KeptByStripLeft(s: string, i: nat) returns (k: nat)
    requires i < |s| && !IsSpace(s[i])
    ensures k < |StripLeft(s)| && StripLeft(s)[k] == s[i]
  {
    var l := StripLeft(s);
    assert !(i < |s| - |l|);
    k := i - (|s| - |l|);
  }

  /** A non-blank character survives rstrip() at the same position. */
  lemma KeptByStripRight(s: string, k: nat)
    requires k < |s| && !IsSpace(s[k])
    ensures k < |StripRight(s)|
  {
  }

  lemma {:induction false} AllSpaceStripsLeft(s: string)
    requires AllSpace(s)
    ensures StripLeft(s) == ""
    decreases |s|
  {
    if |s| > 0 {
      assert AllSpace(s[1..]) by {
        forall i | 0 <= i < |s| - 1 ensures IsSpace(s[1..][i]) { assert s[1..][i] == s[i + 1]; }
      }
      AllSpaceStripsLeft(s[1..]);
    }
  }

  /** Stripping one leading blank off an already trimmed value: the " v" half of "k: v". */
  lemma StripBlankThen(v: string)
    requires Trimmed(v)
    ensures Strip(" " + v) == v
  {
    assert (" " + v)[1..] == v;
    assert StripLeft(" " + v) == StripLeft(v);
    StripIdentity(v);
    assert StripLeft(v) == v;
  }

  // ----- substring search -----

  predicate MatchAt(s: string, pat: string, i: int)
  {
    0 <= i && i + |pat| <= |s| && s[i..i + |pat|] == pat
  }

  /** str.find(pat, i): the leftmost match at or after i. */
  function FindFrom(s: string, pat: string, i: nat): (r: Option<nat>)
    requires i <= |s|
    ensures r.Some? ==> i <= r.value <= |s| && MatchAt(s, pat, r.value)
    ensures r.Some? ==> forall j :: i <= j < r.value ==> !MatchAt(s, pat, j)
    ensures r.None? ==> forall j :: i <= j ==> !MatchAt(s, pat, j)
    decreases |s| - i
  {
    if MatchAt(s, pat, i) then Some(i)
    else if i == |s| then None
    else FindFrom(s, pat, i + 1)
  }

  function Find(s: string, pat: string): Option<nat>
  {
    FindFrom(s, pat, 0)
  }

  /** Python's `pat in s` for strings. */
  predicate Contains(s: string, pat: string)
  {
    Find(s, pat).Some?
  }

  lemma ContainsAt(s: string, pat: string, j: int)
    requires MatchAt(s, pat, j)
    ensures Contains(s, pat)
  {
  }

  lemma NoMatchWhenAbsent(s: string, pat: string, j: int)
    requires !Contains(s, pat)
    ensures !MatchAt(s, pat, j)
  {
  }

  lemma NoMatchFind(s: string, pat: string)
    requires forall j :: 0 <= j ==> !MatchAt(s, pat, j)
    ensures Find(s, pat) == None
  {
  }

  /** The leftmost match is the one Find reports. */
  lemma FindLeast(s: string, pat: string, i: nat)
    requires MatchAt(s, pat, i)
    requires forall j :: 0 <= j < i ==> !MatchAt(s, pat, j)
    ensures Find(s, pat) == Some(i)
  {
  }

  lemma NoMatchInPrefix(s: string, pat: string, i: nat)
    requires |pat| > 0 && i <= |s|
    requires forall j :: 0 <= j < i ==> !MatchAt(s, pat, j)
    ensures !Contains(s[..i], pat)
  {
    forall j | 0 <= j ensures !MatchAt(s[..i], pat, j) {
      if j + |pat| <= i {
        assert s[..i][j..j + |pat|] == s[j..j + |pat|];
        assert !MatchAt(s, pat, j);
      }
    }
    NoMatchFind(s[..i], pat);
  }

  /** For a one-character pattern, `c in s` is the membership of the character. */
  lemma ContainsChar(s: string, c: char)
    ensures Contains(s, [c]) <==> c in s
  {
    if c in s {
      var j :| 0 <= j < |s| && s[j] == c;
      assert s[j..j + 1] == [c];
      ContainsAt(s, [c], j);
    }
    if Contains(s, [c]) {
      var j := Find(s, [c]).value;
      assert s[j..j + 1] == [c];
      assert s[j] == c;
    }
  }

  // ----- join and split -----

  /** sep.join(parts). */
  function Join(sep: string, parts: seq<string>): string
    decreases |parts|
  {
    if |parts| == 0 then ""
    else if |parts| == 1 then parts[0]
    else parts[0] + sep + Join(sep, parts[1..])
  }

  /**
   * s.split(sep) for a non-empty separator: cut at the leftmost match, then go on after it.
   * Joining the pieces gives s back, no piece contains the separator, and every cut is at
   * the leftmost match after the previous piece (SplitJoin is the converse).
   */
  function Split(s: string, sep: string): (parts: seq<string>)
    requires |sep| > 0
    ensures |parts| >= 1
    ensures Join(sep, parts) == s
    ensures forall k :: 0 <= k < |parts| ==> !Contains(parts[k], sep)
    ensures forall k :: 0 <= k < |parts| - 1 ==> EndsCleanly(parts[k], sep)
    decreases |s|
  {
    match Find(s, sep)
    case None => [s]
    case Some(i) =>
      NoMatchInPrefix(s, sep, i);
      FindCutEndsCleanly(s, sep, i);
      var rest := Split(s[i + |sep|..], sep);
      assert s == s[..i] + sep + s[i + |sep|..];
      var parts := [s[..i]] + rest;
      assert parts[1..] == rest;
      parts
  }

  /** The separator following p is the first match in p + sep: nothing inside p, or straddling its end, matches. */
  predicate EndsCleanly(p: string, sep: string)
  {
    Find(p + sep, sep) == Some(|p|)
  }

  /** The piece before the leftmost match ends cleanly. */
  lemma FindCutEndsCleanly(s: string, sep: string, i: nat)
    requires |sep| > 0 && Find(s, sep) == Some(i)
    ensures EndsCleanly(s[..i], sep)
  {
    var p := s[..i] + sep;
    assert p == s[..i + |sep|];
    assert p[i..i + |sep|] == sep;
    forall j | 0 <= j < i ensures !MatchAt(p, sep, j) {
      assert !MatchAt(s, sep, j);
      assert p[j..j + |sep|] == s[j..j + |sep|];
    }
    FindLeast(p, sep, i);
  }

  lemma FindExtends(x: string, y: string, pat: string, i: nat)
    requires Find(x, pat) == Some(i) && i + |pat| <= |x|
    ensures Find(x + y, pat) == Some(i)
  {
    assert (x + y)[i..i + |pat|] == x[i..i + |pat|];
    forall j | 0 <= j < i ensures !MatchAt(x + y, pat, j) {
      assert !MatchAt(x, pat, j);
      assert (x + y)[j..j + |pat|] == x[j..j + |pat|];
    }
    FindLeast(x + y, pat, i);
  }

  /** Splitting what Join built returns the parts, when every separator is the leftmost match. */
  lemma {:induction false} SplitJoin(sep: string, parts: seq<string>)
    requires |sep| > 0 && |parts| >= 1
    requires forall k :: 0 <= k < |parts| - 1 ==> EndsCleanly(parts[k], sep)
    requires !Contains(parts[|parts| - 1], sep)
    ensures Split(Join(sep, parts), sep) == parts
    decreases |parts|
  {
    if |parts| > 1 {
      var p := parts[0];
      var rest := Join(sep, parts[1..]);
      assert Join(sep, parts) == (p + sep) + rest;
      FindExtends(p + sep, rest, sep, |p|);
      assert (p + sep + rest)[|p| + |sep|..] == rest;
      SplitJoin(sep, parts[1..]);
      assert parts == [p] + parts[1..];
    }
  }

  /** The last piece of a split on one character is what follows the last occurrence of it. */
  lemma {:induction false} SplitLastPiece(x: string, y: string, c: char)
    requires c !in y
    ensures var parts := Split(x + [c] + y, [c]); parts[|parts| - 1] == y
    decreases |x|
  {
    var s := x + [c] + y;
    assert MatchAt(s, [c], |x|) by {
      assert s[|x|..|x| + 1] == [c];
    }
    var i := Find(s, [c]).value;
    var rest := s[i + 1..];
    var tail := Split(rest, [c]);
    assert Split(s, [c]) == [s[..i]] + tail;
    if i == |x| {
      assert rest == y;
      ContainsChar(y, c);
      assert tail == [y];
    } else {
      assert s[i..i + 1] == [c];
      assert rest == x[i + 1..] + [c] + y;
      SplitLastPiece(x[i + 1..], y, c);
    }
    assert ([s[..i]] + tail)[|tail|] == tail[|tail| - 1] == y;
  }

  /** ToLower works character by character, so it distributes over concatenation. */
  lemma ToLowerAppend(a: string, b: string)
    ensures ToLower(a + b) == ToLower(a) + ToLower(b)
  {
  }

  /** s.split(c, 1) when c occurs in s: the text before the first c and the text after it. */
  function SplitAtFirst(s: string, c: char): (r: (string, string))
    requires c in s
    ensures c !in r.0
    ensures s == r.0 + [c] + r.1
    decreases |s|
  {
    if s[0] == c then ([], s[1..])
    else
      var (a, b) := SplitAtFirst(s[1..], c);
      assert s == [s[0]] + s[1..];
      ([s[0]] + a, b)
  }

  /** The halves of SplitAtFirst are determined by their shape: the first half is free of c. */
  lemma {:induction false} SplitAtFirstUnique(a: string, b: string, c: char)
    requires c !in a
    ensures c in a + [c] + b && SplitAtFirst(a + [c] + b, c) == (a, b)
    decreases |a|
  {
    var s := a + [c] + b;
    if |a| > 0 {
      assert s[1..] == a[1..] + [c] + b;
      SplitAtFirstUnique(a[1..], b, c);
      assert a == [a[0]] + a[1..];
    } else {
      assert s[1..] == b;
    }
  }

  // ----- case, digits -----

  /** str.lower() on ASCII letters; every other character is left as it is. */
  function LowerChar(c: char): char
  {
    if 'A' <= c <= 'Z' then (c as int + 32) as char else c
  }

  function ToLower(s: string): (r: string)
    ensures |r| == |s|
    ensures forall i :: 0 <= i < |s| ==> r[i] == LowerChar(s[i])
  {
    seq(|s|, i requires 0 <= i < |s| => LowerChar(s[i]))
  }

  /** Lower-casing brings in no character other than lower-case letters. */
  lemma ToLowerKeepsAbsent(s: string, c: char)
    requires c !in s && !('a' <= c <= 'z')
    ensures c !in ToLower(s)
  {
    forall i | 0 <= i < |s| ensures ToLower(s)[i] != c {
      assert s[i] != c;
    }
  }

  /** str(n) for a non-negative int. */
  function NatToString(n: nat): string
    decreases n
  {
    var d := ['0', '1', '2', '3', '4', '5', '6', '7', '8', '9'][n % 10];
    if n < 10 then [d] else NatToString(n / 10) + [d]
  }
}
