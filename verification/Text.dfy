/** Searching in strings, as `std::find`, `std::search` and `string_view::find` do it. */
module Text {

  const CRLF: string := "\r\n"
  const SEP: string := "\r\n\r\n"

  /** The index of the first occurrence of `v`, or `|s|`. */
  function IndexOf(s: string, v: string): (i: nat)
    requires v != ""
    ensures i <= |s|
  {
    if s == "" || v <= s then 0 else 1 + IndexOf(s[1..], v)
  }

  /** There is an occurrence at the index found, and none in front of it. */
  lemma {:induction false} IndexIsFirst(s: string, v: string)
    requires v != ""
    ensures IndexOf(s, v) < |s| ==> v <= s[IndexOf(s, v)..]
    ensures forall j :: 0 <= j < IndexOf(s, v) ==> !(v <= s[j..])
  {
    assert s[0..] == s;
    if s != "" && !(v <= s) {
      IndexIsFirst(s[1..], v);
      assert forall j :: 0 < j <= |s| ==> s[j..] == s[1..][j - 1..];
    }
  }

  /** The text in front of the first `v`, or all of it. */
  function Token(s: string, v: string): string
    requires v != ""
  {
    s[..IndexOf(s, v)]
  }

  /** The text behind the first `v`, or nothing. */
  function Rest(s: string, v: string): (rest: string)
    requires v != ""
    ensures s != "" ==> |rest| < |s|
    ensures |rest| <= |s|
  {
    var i := IndexOf(s, v);
    if i < |s| then assert v <= s[i..] by { IndexIsFirst(s, v); } s[i + |v|..] else ""
  }

  /** Token and rest are the two sides of the first `v`; without one the token is all and the rest nothing. */
  lemma CutAtFirst(s: string, v: string)
    requires v != ""
    ensures (forall j :: 0 <= j < |s| ==> !(v <= s[j..])) ==> Token(s, v) == s && Rest(s, v) == ""
    ensures (exists j :: 0 <= j < |s| && v <= s[j..]) ==>
      && s == Token(s, v) + v + Rest(s, v)
      && forall j :: 0 <= j < |Token(s, v)| ==> !(v <= s[j..])
  {
    IndexIsFirst(s, v);
    var i := IndexOf(s, v);
    if i < |s| {
      assert s == s[..i] + s[i..] && s[i..] == v + s[i..][|v|..];
    }
  }

  /** The first occurrence is the one that none precedes. */
  lemma IndexIs(s: string, v: string, i: nat)
    requires v != "" && i < |s| && v <= s[i..]
    requires forall j :: 0 <= j < i ==> !(v <= s[j..])
    ensures IndexOf(s, v) == i
  {
    IndexIsFirst(s, v);
    var k := IndexOf(s, v);
    if k < i {
      assert false;
    }
  }

  lemma NoLaterPrefix(s: string, t: string, v: string)
    requires !(v <= s) && |v| <= |s|
    ensures !(v <= s + t)
  {
    assert (s + t)[..|v|] == s[..|v|];
  }

  /** An occurrence stays the first one whatever text follows. */
  lemma IndexStable(s: string, t: string, v: string)
    requires v != "" && IndexOf(s, v) < |s|
    ensures IndexOf(s + t, v) == IndexOf(s, v)
  {
    IndexIsFirst(s, v);
    var i := IndexOf(s, v);
    assert (s + t)[i..] == s[i..] + t;
    forall j | 0 <= j < i ensures !(v <= (s + t)[j..]) {
      assert (s + t)[j..] == s[j..] + t;
      NoLaterPrefix(s[j..], t, v);
    }
    IndexIs(s + t, v, i);
  }

  /** A token free of the separator's first character is found whole. */
  lemma TokenAndRest(p: string, v: string, rest: string)
    requires v != "" && v[0] !in p
    ensures Token(p + v + rest, v) == p
    ensures Rest(p + v + rest, v) == rest
  {
    var s := p + v + rest;
    assert s[|p|..] == v + rest;
    forall j | 0 <= j < |p| ensures !(v <= s[j..]) {
      assert s[j..][0] == p[j];
    }
    IndexIs(s, v, |p|);
    assert s[..|p|] == p && s[|p| + |v|..] == rest;
  }

  predicate IsBlank(c: char) {
    c == ' ' || c == '\t'
  }

  function SkipBlank(s: string): (rest: string)
    ensures |rest| <= |s|
  {
    if s != "" && IsBlank(s[0]) then SkipBlank(s[1..]) else s
  }

  /** What is left is a suffix that starts with no blank, and only blanks are gone. */
  lemma {:induction false} SkipBlankIsSuffix(s: string) returns (n: nat)
    ensures n <= |s| && SkipBlank(s) == s[n..]
    ensures n < |s| ==> s[n] != ' ' && s[n] != '\t'
    ensures forall i :: 0 <= i < n ==> s[i] == ' ' || s[i] == '\t'
  {
    if s != "" && IsBlank(s[0]) {
      var m := SkipBlankIsSuffix(s[1..]);
      n := m + 1;
    } else {
      n := 0;
    }
  }

  /** Blanks in front of a CR end before it. */
  lemma {:induction false} SkipBlankBeforeCR(s: string, t: string)
    requires t != "" && !IsBlank(t[0])
    ensures SkipBlank(s + t) == SkipBlank(s) + t
  {
    if s == "" {
      assert s + t == t;
    } else if IsBlank(s[0]) {
      assert (s + t)[1..] == s[1..] + t;
      SkipBlankBeforeCR(s[1..], t);
    }
  }

  // ---- lines ---------------------------------------------------------------------------

  function Lines(ls: seq<string>): string {
    if ls == [] then "" else ls[0] + CRLF + Lines(ls[1..])
  }

  predicate IsLine(l: string) {
    l != "" && '\r' !in l
  }

  lemma SeparatorIsTwoBreaks(rest: string)
    ensures SEP <= CRLF + rest <==> CRLF <= rest
  {
    if SEP <= CRLF + rest {
      assert SEP[2] == (CRLF + rest)[2] == rest[0] && SEP[3] == (CRLF + rest)[3] == rest[1];
    }
    if CRLF <= rest {
      assert CRLF + rest == SEP + rest[2..];
    }
  }

  /** Where the first empty line behind one line is. */
  lemma SeparatorAfterLine(l: string, rest: string)
    requires IsLine(l)
    ensures CRLF <= rest ==> IndexOf(l + CRLF + rest, SEP) == |l|
    ensures !(CRLF <= rest) ==> IndexOf(l + CRLF + rest, SEP) == |l| + 2 + IndexOf(rest, SEP)
  {
    var s := l + CRLF + rest;
    assert s[|l|..] == CRLF + rest && s[|l| + 1..] == "\n" + rest && s[|l| + 2..] == rest;
    forall j | 0 <= j < |l| ensures !(SEP <= s[j..]) {
      assert s[j..][0] == l[j];
    }
    SeparatorIsTwoBreaks(rest);
    if CRLF <= rest {
      IndexIs(s, SEP, |l|);
    } else {
      assert s[|l| + 1..][0] == '\n';
      IndexAfterPrefix(s, SEP, |l| + 2);
    }
  }

  lemma IndexAfterPrefix(s: string, v: string, n: nat)
    requires v != "" && n <= |s|
    requires forall j :: 0 <= j < n ==> !(v <= s[j..])
    ensures IndexOf(s, v) == n + IndexOf(s[n..], v)
  {
    IndexIsFirst(s, v);
    IndexIsFirst(s[n..], v);
    var i := IndexOf(s[n..], v);
    assert forall j :: n <= j <= |s| ==> s[j..] == s[n..][j - n..];
    if n + i < |s| {
      IndexIs(s, v, n + i);
    } else {
      var k := IndexOf(s, v);
      if n <= k < |s| {
        assert false;
      }
    }
  }

  lemma Regroup(x: string, y: string, z: string)
    ensures (x + y) + z == x + (y + z)
  {
  }

  lemma FirstLine(ls: seq<string>, t: string)
    requires ls != []
    ensures Lines(ls) + CRLF + t == ls[0] + CRLF + (Lines(ls[1..]) + CRLF + t)
    ensures |Lines(ls)| == |ls[0]| + 2 + |Lines(ls[1..])|
  {
    var first, rest := ls[0] + CRLF, Lines(ls[1..]);
    Regroup(first, rest, CRLF);
    Regroup(first, rest + CRLF, t);
  }

  lemma LinesAreNoBreak(ls: seq<string>, t: string)
    requires ls != [] && IsLine(ls[0])
    ensures !(CRLF <= Lines(ls) + CRLF + t)
  {
    FirstLine(ls, t);
    assert (Lines(ls) + CRLF + t)[0] == ls[0][0];
  }

  /** Lines and an empty line: the first empty line is that one, whatever follows. */
  lemma {:induction false} SeparatorEndsLines(ls: seq<string>, t: string)
    requires ls != [] && forall l :: l in ls ==> IsLine(l)
    ensures |Lines(ls)| >= 2
    ensures IndexOf(Lines(ls) + CRLF + t, SEP) == |Lines(ls)| - 2
  {
    var tail := ls[1..];
    FirstLine(ls, t);
    assert IsLine(ls[0]);
    SeparatorAfterLine(ls[0], Lines(tail) + CRLF + t);
    if tail == [] {
      assert Lines(tail) + CRLF + t == CRLF + t;
    } else {
      assert forall l :: l in tail ==> l in ls;
      SeparatorEndsLines(tail, t);
      LinesAreNoBreak(tail, t);
    }
  }
}
