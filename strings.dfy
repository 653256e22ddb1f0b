/**
  Text primitives with the meaning Python gives them on `str`: whitespace
  classification, `strip`, `lower`, `split()`, `join`, `startswith`,
  `endswith`, substring tests, character removal and code-point ordering.
*/
module Strings {
  import opened Sequences

  /** The characters for which Python's `str.isspace()` holds; `strip()` and `split()` use this set. */
  predicate IsSpace(c: char) {
    || ('\t' <= c <= '\r')
    || ('\U{1C}' <= c <= ' ')
    || c == '\U{85}' || c == '\U{A0}' || c == '\U{1680}'
    || ('\U{2000}' <= c <= '\U{200A}')
    || c == '\U{2028}' || c == '\U{2029}' || c == '\U{202F}' || c == '\U{205F}' || c == '\U{3000}'
  }

  predicate NoSpace(s: string) {
    forall i :: 0 <= i < |s| ==> !IsSpace(s[i])
  }

  /** Neither end of `s` is whitespace. */
  predicate IsTrimmed(s: string) {
    s == [] || (!IsSpace(s[0]) && !IsSpace(s[|s| - 1]))
  }

  /** `s.lstrip()` */
  function TrimStart(s: string): (r: string)
    ensures |r| <= |s| && r == s[|s| - |r|..]
    ensures r == [] || !IsSpace(r[0])
    ensures forall i :: 0 <= i < |s| - |r| ==> IsSpace(s[i])
  {
    if s != [] && IsSpace(s[0]) then
      var r := TrimStart(s[1..]);
      assert s[1..][|s| - 1 - |r|..] == s[|s| - |r|..];
      assert forall i :: 1 <= i < |s| ==> s[1..][i - 1] == s[i];
      r
    else s
  }

  lemma TrimStartSpace(s: string)
    ensures TrimStart(" " + s) == TrimStart(s)
  {
    assert (" " + s)[0] == ' ' && (" " + s)[1..] == s;
  }

  /** `s.rstrip()` */
  function TrimEnd(s: string): (r: string)
    ensures |r| <= |s| && r == s[..|r|]
    ensures r == [] || !IsSpace(r[|r| - 1])
    ensures forall i :: |r| <= i < |s| ==> IsSpace(s[i])
  {
    if s != [] && IsSpace(s[|s| - 1]) then TrimEnd(s[..|s| - 1]) else s
  }

  /** `s.strip()`: the result has no whitespace at either end, and is empty exactly when `s` is all whitespace. */
  function Trim(s: string): (r: string)
    ensures IsTrimmed(r)
    ensures r == [] <==> forall i :: 0 <= i < |s| ==> IsSpace(s[i])
    ensures IsTrimmed(s) ==> r == s
  {
    var t := TrimStart(s);
    var r := TrimEnd(t);
    assert r != [] ==> r[0] == t[0];
    r
  }

  function LowerChar(c: char): char {
    if 'A' <= c <= 'Z' then (c as int + 32) as char else c
  }

  /** `s.lower()` on the ASCII letters. */
  function Lower(s: string): (r: string)
    ensures |r| == |s|
    ensures forall i :: 0 <= i < |s| ==> r[i] == LowerChar(s[i])
  {
    seq(|s|, i requires 0 <= i < |s| => LowerChar(s[i]))
  }

  /** No ASCII capital letter occurs in `s`. */
  predicate IsLowerCase(s: string) {
    forall i :: 0 <= i < |s| ==> !('A' <= s[i] <= 'Z')
  }

  predicate StartsWith(s: string, prefix: string) {
    |prefix| <= |s| && s[..|prefix|] == prefix
  }

  predicate EndsWith(s: string, suffix: string) {
    |suffix| <= |s| && s[|s| - |suffix|..] == suffix
  }

  /** Python's `needle in hay` on `str`. */
  predicate Contains(hay: string, needle: string)
    decreases |hay|
  {
    StartsWith(hay, needle) || (hay != [] && Contains(hay[1..], needle))
  }

  /** `s.replace(c, "")` */
  function RemoveChar(s: string, c: char): (r: string)
    ensures |r| <= |s|
    ensures forall i :: 0 <= i < |r| ==> r[i] != c
  {
    if s == [] then [] else (if s[0] == c then [] else [s[0]]) + RemoveChar(s[1..], c)
  }

  /** A character other than `c` survives `replace(c, '')`. */
  lemma {:induction false} RemoveCharKeeps(s: string, c: char, i: nat)
    requires i < |s| && s[i] != c
    ensures exists j :: 0 <= j < |RemoveChar(s, c)| && RemoveChar(s, c)[j] == s[i]
  {
    var r := RemoveChar(s, c);
    if i == 0 {
      assert r[0] == s[0];
    } else {
      RemoveCharKeeps(s[1..], c, i - 1);
      var rest := RemoveChar(s[1..], c);
      var j :| 0 <= j < |rest| && rest[j] == s[1..][i - 1];
      var k := if s[0] == c then j else j + 1;
      assert r[k] == s[i];
    }
  }

  lemma {:induction false} RemoveCharAppend(a: string, b: string, c: char)
    ensures RemoveChar(a + b, c) == RemoveChar(a, c) + RemoveChar(b, c)
  {
    if a != [] {
      assert (a + b)[1..] == a[1..] + b;
      RemoveCharAppend(a[1..], b, c);
    } else {
      assert a + b == b;
    }
  }

  lemma {:induction false} RemoveCharAbsent(s: string, c: char)
    requires forall i :: 0 <= i < |s| ==> s[i] != c
    ensures RemoveChar(s, c) == s
  {
    if s != [] {
      RemoveCharAbsent(s[1..], c);
    }
  }

  /** Removing `c` from text that holds it once, between `a` and `b`, joins `a` and `b`. */
  lemma RemoveCharOnce(a: string, b: string, c: char)
    requires forall i :: 0 <= i < |a| ==> a[i] != c
    requires forall i :: 0 <= i < |b| ==> b[i] != c
    ensures RemoveChar(a + [c] + b, c) == a + b
  {
    assert RemoveChar([c], c) == [] by {
      assert [c][1..] == [];
    }
    RemoveCharAbsent(a, c);
    RemoveCharAbsent(b, c);
    calc {
      RemoveChar(a + [c] + b, c);
      { RemoveCharAppend(a + [c], b, c); }
      RemoveChar(a + [c], c) + RemoveChar(b, c);
      { RemoveCharAppend(a, [c], c); }
      a + [] + b;
    }
    assert a + [] == a;
  }

  /** A word of `str.split()`: non-empty and free of whitespace. */
  predicate IsWord(w: string) {
    w != [] && NoSpace(w)
  }

  /** Length of the longest whitespace-free prefix of `s`. */
  function WordEnd(s: string): (n: nat)
    ensures n <= |s|
    ensures forall i :: 0 <= i < n ==> !IsSpace(s[i])
    ensures n < |s| ==> IsSpace(s[n])
  {
    if s == [] || IsSpace(s[0]) then 0 else 1 + WordEnd(s[1..])
  }

  /** `s.split()`: the maximal runs of non-whitespace characters, in order. */
  function Words(s: string): (ws: seq<string>)
    ensures forall i :: 0 <= i < |ws| ==> IsWord(ws[i])
    decreases |s|
  {
    if s == [] then []
    else if IsSpace(s[0]) then Words(s[1..])
    else
      var n := WordEnd(s);
      [s[..n]] + Words(s[n..])
  }

  /** `sep.join(ws)` */
  function Join(sep: string, ws: seq<string>): string {
    if ws == [] then "" else if |ws| == 1 then ws[0] else ws[0] + sep + Join(sep, ws[1..])
  }

  /** Appending text that starts a new run (or nothing) does not move the end of the first word. */
  lemma {:induction false} WordEndAppend(s: string, t: string)
    requires WordEnd(s) < |s| || t == [] || IsSpace(t[0])
    ensures WordEnd(s + t) == WordEnd(s)
  {
    if s == [] {
      assert s + t == t;
    } else if !IsSpace(s[0]) {
      assert (s + t)[1..] == s[1..] + t;
      WordEndAppend(s[1..], t);
    }
  }

  lemma WordEndOfWord(w: string, t: string)
    requires IsWord(w)
    requires t == [] || IsSpace(t[0])
    ensures WordEnd(w + t) == |w|
  {
    WordEndAppend(w, t);
  }

  lemma {:induction false} WordsOfSpacePrefix(s: string, t: string)
    requires forall i :: 0 <= i < |s| ==> IsSpace(s[i])
    ensures Words(s + t) == Words(t)
    decreases |s|
  {
    if s != [] {
      assert (s + t)[1..] == s[1..] + t;
      WordsOfSpacePrefix(s[1..], t);
    } else {
      assert s + t == t;
    }
  }

  /** `" ".join(ws).split() == ws` for words: joining with single spaces loses nothing. */
  lemma {:induction false} WordsOfJoin(ws: seq<string>)
    requires forall i :: 0 <= i < |ws| ==> IsWord(ws[i])
    ensures Words(Join(" ", ws)) == ws
  {
    if |ws| == 1 {
      var w := ws[0];
      WordEndOfWord(w, "");
      assert w + "" == w;
      assert w[|w|..] == [];
    } else if |ws| > 1 {
      var w := ws[0];
      var rest := Join(" ", ws[1..]);
      var s := w + " " + rest;
      assert s == w + (" " + rest);
      WordEndOfWord(w, " " + rest);
      assert s[..|w|] == w;
      assert s[|w|..] == " " + rest;
      WordsOfSpacePrefix(" ", rest);
      WordsOfJoin(ws[1..]);
    }
  }

  /** Whitespace only as single ASCII spaces between non-space characters. */
  predicate SingleSpaced(s: string) {
    forall i :: 0 <= i < |s| && IsSpace(s[i]) ==> s[i] == ' ' && 0 < i < |s| - 1 && !IsSpace(s[i + 1])
  }

  lemma {:induction false} JoinSingleSpaced(ws: seq<string>)
    requires forall i :: 0 <= i < |ws| ==> IsWord(ws[i])
    ensures SingleSpaced(Join(" ", ws))
    ensures ws != [] ==> Join(" ", ws) != [] && !IsSpace(Join(" ", ws)[0])
  {
    if |ws| > 1 {
      JoinSingleSpaced(ws[1..]);
      var w := ws[0];
      var rest := Join(" ", ws[1..]);
      var s := w + " " + rest;
      assert forall i :: 0 <= i < |w| ==> s[i] == w[i];
      assert forall i :: |w| < i < |s| ==> s[i] == rest[i - |w| - 1];
      assert s[|w|] == ' ';
    }
  }

  lemma {:induction false} JoinLowerCase(ws: seq<string>)
    requires forall i :: 0 <= i < |ws| ==> IsLowerCase(ws[i])
    ensures IsLowerCase(Join(" ", ws))
  {
    if |ws| > 1 {
      JoinLowerCase(ws[1..]);
    }
  }

  lemma {:induction false} WordsLowerCase(s: string)
    requires IsLowerCase(s)
    ensures forall i :: 0 <= i < |Words(s)| ==> IsLowerCase(Words(s)[i])
    decreases |s|
  {
    if s != [] {
      if IsSpace(s[0]) {
        WordsLowerCase(s[1..]);
      } else {
        WordsLowerCase(s[WordEnd(s)..]);
      }
    }
  }

  lemma LowerIsLowerCase(s: string)
    ensures IsLowerCase(Lower(s))
  {
  }

  lemma LowerOfLowerCase(s: string)
    requires IsLowerCase(s)
    ensures Lower(s) == s
  {
  }

  lemma LowerAppend(a: string, b: string)
    ensures Lower(a + b) == Lower(a) + Lower(b)
  {
  }

  lemma LowerOfSpaces(a: string)
    requires forall i :: 0 <= i < |a| ==> IsSpace(a[i])
    ensures Lower(a) == a
  {
  }

  lemma LowerAroundSpaces(a: string, r: string, c: string)
    requires forall i :: 0 <= i < |a| ==> IsSpace(a[i])
    requires forall i :: 0 <= i < |c| ==> IsSpace(c[i])
    ensures Lower(a + r + c) == a + (Lower(r) + c)
  {
    LowerAppend(a + r, c);
    LowerAppend(a, r);
    LowerOfSpaces(a);
    LowerOfSpaces(c);
  }

  lemma TrimStartSplits(s: string) returns (a: string)
    ensures s == a + TrimStart(s)
    ensures forall i :: 0 <= i < |a| ==> IsSpace(a[i])
  {
    var t := TrimStart(s);
    var k := |s| - |t|;
    a := s[..k];
    assert s == a + s[k..];
    forall i | 0 <= i < |a|
      ensures IsSpace(a[i])
    {
      assert a[i] == s[i];
    }
  }

  lemma TrimEndSplits(t: string) returns (c: string)
    ensures t == TrimEnd(t) + c
    ensures forall i :: 0 <= i < |c| ==> IsSpace(c[i])
  {
    var r := TrimEnd(t);
    c := t[|r|..];
    assert t == t[..|r|] + t[|r|..];
    forall i | 0 <= i < |c|
      ensures IsSpace(c[i])
    {
      assert c[i] == t[|r| + i];
    }
  }

  lemma TrimSplits(s: string) returns (a: string, c: string)
    ensures s == a + Trim(s) + c
    ensures forall i :: 0 <= i < |a| ==> IsSpace(a[i])
    ensures forall i :: 0 <= i < |c| ==> IsSpace(c[i])
  {
    a := TrimStartSplits(s);
    var t := TrimStart(s);
    c := TrimEndSplits(t);
    ConcatAssoc(a, TrimEnd(t), c);
  }

  /** Whitespace survives `lower()` where it stood, so `split()` sees the same boundaries. */
  lemma WordsOfLowerTrim(s: string)
    ensures Words(Lower(Trim(s))) == Words(Lower(s))
  {
    var a, c := TrimSplits(s);
    var r := Trim(s);
    LowerAroundSpaces(a, r, c);
    WordsOfSpacePrefix(a, Lower(r) + c);
    WordsOfSpaceSuffix(Lower(r), c);
  }

  lemma {:induction false} WordsOfSpaceSuffix(s: string, t: string)
    requires forall i :: 0 <= i < |t| ==> IsSpace(t[i])
    ensures Words(s + t) == Words(s)
    decreases |s|
  {
    if s == [] {
      assert s + t == t + [];
      WordsOfSpacePrefix(t, []);
    } else if IsSpace(s[0]) {
      assert (s + t)[1..] == s[1..] + t;
      WordsOfSpaceSuffix(s[1..], t);
    } else {
      var n := WordEnd(s);
      WordEndAppend(s, t);
      assert (s + t)[..n] == s[..n];
      assert (s + t)[n..] == s[n..] + t;
      WordsOfSpaceSuffix(s[n..], t);
    }
  }

  /** Python's `a < b` on `str`: lexicographic order of code points, a proper prefix first. */
  predicate Less(a: string, b: string) {
    if b == [] then false
    else if a == [] then true
    else if a[0] != b[0] then a[0] < b[0]
    else Less(a[1..], b[1..])
  }

  lemma {:induction false} LessIrreflexive(a: string)
    ensures !Less(a, a)
  {
    if a != [] {
      LessIrreflexive(a[1..]);
    }
  }

  lemma {:induction false} LessTransitive(a: string, b: string, c: string)
    requires Less(a, b) && Less(b, c)
    ensures Less(a, c)
  {
    if a != [] && a[0] == b[0] && b[0] == c[0] {
      LessTransitive(a[1..], b[1..], c[1..]);
    }
  }

  lemma {:induction false} LessTotal(a: string, b: string)
    ensures a == b || Less(a, b) || Less(b, a)
  {
    if a != [] && b != [] && a[0] == b[0] {
      LessTotal(a[1..], b[1..]);
      if a[1..] == b[1..] {
        assert a == [a[0]] + a[1..] && b == [b[0]] + b[1..];
      }
    }
  }

  lemma {:induction false} LessAsymmetric(a: string, b: string)
    requires Less(a, b)
    ensures !Less(b, a)
  {
    if a != [] && a[0] == b[0] {
      LessAsymmetric(a[1..], b[1..]);
    }
  }
}
