/** Character classes and the operations of Rust's `str` that the command
    parser uses, on `string` (a sequence of Unicode scalar values). */
module Text {

  /** Unicode White_Space: the class of `\s` in a Unicode regex and of
      `char::is_whitespace`, hence of `str::trim` and `str::split_whitespace`. */
  const WHITE_SPACE: set<char> := {
    '\t', '\n', '\U{000B}', '\U{000C}', '\r', ' ', '\U{0085}', '\U{00A0}', '\U{1680}',
    '\U{2000}', '\U{2001}', '\U{2002}', '\U{2003}', '\U{2004}', '\U{2005}', '\U{2006}',
    '\U{2007}', '\U{2008}', '\U{2009}', '\U{200A}',
    '\U{2028}', '\U{2029}', '\U{202F}', '\U{205F}', '\U{3000}'
  }

  predicate IsWhite(c: char) { c in WHITE_SPACE }

  predicate NotWhite(c: char) { !IsWhite(c) }

  /** `[A-Za-z]` */
  predicate IsAsciiLetter(c: char) { 'A' <= c <= 'Z' || 'a' <= c <= 'z' }

  /** `\w`, restricted to its ASCII members. */
  predicate IsWordChar(c: char) { IsAsciiLetter(c) || '0' <= c <= '9' || c == '_' }

  /** `[\w-]` */
  predicate IsNameChar(c: char) { IsWordChar(c) || c == '-' }

  /** `[ \t]` */
  predicate IsSpaceOrTab(c: char) { c == ' ' || c == '\t' }


  /** `[ \t]*` */
  predicate AllSpaceOrTab(s: string) { forall i :: 0 <= i < |s| ==> IsSpaceOrTab(s[i]) }

  lemma SpaceOrTabWhite(s: string)
    requires AllSpaceOrTab(s)
    ensures AllWhite(s)
  {
    assert IsWhite(' ') && IsWhite('\t');
  }

  /** `[^\r\n]` */
  predicate NotCrLf(c: char) { c != '\r' && c != '\n' }

  predicate AllWhite(s: string) { forall i :: 0 <= i < |s| ==> IsWhite(s[i]) }

  predicate NoWhite(s: string) { forall i :: 0 <= i < |s| ==> NotWhite(s[i]) }

  /** What `split_whitespace` can yield: a non-empty run without whitespace. */
  predicate IsWord(w: string) { w != [] && NoWhite(w) }

  predicate AllWords(ws: seq<string>) { forall i :: 0 <= i < |ws| ==> IsWord(ws[i]) }

  lemma AllWordsCons(w: string, ws: seq<string>)
    requires IsWord(w) && AllWords(ws)
    ensures AllWords([w] + ws)
  {
    forall i | 0 <= i < |[w] + ws|
      ensures IsWord(([w] + ws)[i])
    {
      if i > 0 { assert ([w] + ws)[i] == ws[i - 1]; }
    }
  }

  lemma AllWordsTail(ws: seq<string>)
    requires AllWords(ws) && ws != []
    ensures IsWord(ws[0]) && AllWords(ws[1..])
  {
    assert forall i :: 0 <= i < |ws| - 1 ==> ws[1..][i] == ws[i + 1];
  }

  /** The end of the longest run of characters satisfying `p` that starts at index `i` of `s`. */
  function RunEnd(s: string, i: nat, p: char -> bool): (e: nat)
    requires i <= |s|
    ensures i <= e <= |s|
    ensures forall j :: i <= j < e ==> p(s[j])
    ensures e < |s| ==> !p(s[e])
    decreases |s| - i
  {
    if i < |s| && p(s[i]) then RunEnd(s, i + 1, p) else i
  }

  /** The contract of RunEnd determines it: any `e` with its properties is it. */
  lemma RunEndIs(s: string, i: nat, p: char -> bool, e: nat)
    requires i <= e <= |s|
    requires forall j :: i <= j < e ==> p(s[j])
    requires e < |s| ==> !p(s[e])
    ensures RunEnd(s, i, p) == e
    decreases |s| - i
  {
    if i < e {
      RunEndIs(s, i + 1, p, e);
    }
  }

  /** `str::trim_start`: drops the leading whitespace and nothing else. */
  function TrimStart(s: string): (r: string)
    ensures |r| <= |s|
    ensures forall i :: 0 <= i < |s| - |r| ==> IsWhite(s[i])
    ensures r != [] ==> NotWhite(r[0]) && r[0] == s[|s| - |r|]
    decreases |s|
  {
    if s != [] && IsWhite(s[0]) then
      var r := TrimStart(s[1..]);
      assert forall i :: 1 <= i < |s| ==> s[1..][i - 1] == s[i];
      r
    else
      s
  }

  /** What TrimStart keeps is a suffix of `s`. */
  lemma TrimStartSuffix(s: string)
    ensures TrimStart(s) == s[|s| - |TrimStart(s)|..]
    decreases |s|
  {
    if s != [] && IsWhite(s[0]) {
      TrimStartSuffix(s[1..]);
      assert s[1..][|s| - 1 - |TrimStart(s)|..] == s[|s| - |TrimStart(s)|..];
    }
  }

  /** `s` is what TrimStart removes followed by what it keeps. */
  lemma TrimStartSplit(s: string)
    ensures s == s[..|s| - |TrimStart(s)|] + TrimStart(s)
  {
    TrimStartSuffix(s);
    SplitAt(s, |s| - |TrimStart(s)|);
  }

  /** What TrimStart removes is whitespace, and something when `s` starts with it. */
  lemma TrimStartPrefix(s: string)
    ensures AllWhite(s[..|s| - |TrimStart(s)|])
    ensures s != [] && IsWhite(s[0]) ==> |TrimStart(s)| < |s|
  {
    var k := |s| - |TrimStart(s)|;
    assert forall i :: 0 <= i < k ==> s[..k][i] == s[i];
  }

  /** `str::trim_end`: drops the trailing whitespace and nothing else. */
  function TrimEnd(s: string): (r: string)
    ensures |r| <= |s| && r == s[..|r|]
    ensures forall i :: |r| <= i < |s| ==> IsWhite(s[i])
    ensures r != [] ==> NotWhite(r[|r| - 1])
    decreases |s|
  {
    if s != [] && IsWhite(s[|s| - 1]) then TrimEnd(s[..|s| - 1]) else s
  }

  /** Neither begins nor ends with whitespace. */
  predicate IsTrimmed(s: string)
  {
    s == [] || (NotWhite(s[0]) && NotWhite(s[|s| - 1]))
  }

  /** `str::trim`: what is left of `s` once a whitespace prefix and a
      whitespace suffix are cut off. */
  function Trim(s: string): (r: string)
    ensures r == [] <==> AllWhite(s)
    ensures IsTrimmed(r)
  {
    var t := TrimStart(s);
    var r := TrimEnd(t);
    assert r != [] ==> r[0] == t[0];
    r
  }

  /** Where Trim's result sits in `s`: between a whitespace prefix and a whitespace suffix. */
  lemma TrimSlice(s: string)
    ensures var i := |s| - |TrimStart(s)|;
            && i + |Trim(s)| <= |s| && Trim(s) == s[i..i + |Trim(s)|]
            && AllWhite(s[..i]) && AllWhite(s[i + |Trim(s)|..])
  {
    var t := TrimStart(s);
    var i := |s| - |t|;
    TrimStartSuffix(s);
    TrimStartPrefix(s);
    TrimEndSuffix(t);
    DropSlices(s, i, |Trim(s)|);
  }

  /** What TrimEnd removes is whitespace. */
  lemma TrimEndSuffix(t: string)
    ensures AllWhite(t[|TrimEnd(t)|..])
  {
    var k := |TrimEnd(t)|;
    assert forall j :: 0 <= j < |t| - k ==> t[k..][j] == t[k + j];
  }

  lemma DropSlices(s: string, i: nat, n: nat)
    requires i + n <= |s|
    ensures s[i..][..n] == s[i..i + n] && s[i..][n..] == s[i + n..]
  {
  }

  lemma SplitAt(s: string, k: nat)
    requires k <= |s|
    ensures s == s[..k] + s[k..]
  {
  }

  lemma SplitThree(s: string, i: nat, j: nat, k: nat)
    requires i <= j <= k <= |s|
    ensures s == s[..i] + s[i..j] + s[j..k] + s[k..]
  {
    assert s[..k] == s[..i] + s[i..j] + s[j..k];
  }

  lemma ConcatAssoc(a: string, b: string, c: string)
    ensures a + (b + c) == a + b + c
  {
  }

  lemma AllWhiteConcat(a: string, b: string)
    requires AllWhite(a) && AllWhite(b)
    ensures AllWhite(a + b)
  {
    assert forall j :: |a| <= j < |a| + |b| ==> (a + b)[j] == b[j - |a|];
  }

  /** The whitespace prefix of `w + x` is `w` when `x` does not begin with whitespace. */
  lemma TrimStartPadded(w: string, x: string)
    requires AllWhite(w)
    requires x != [] ==> NotWhite(x[0])
    ensures TrimStart(w + x) == x
    decreases |w|
  {
    if w == [] {
      assert w + x == x;
    } else {
      assert (w + x)[0] == w[0];
      assert (w + x)[1..] == w[1..] + x;
      assert AllWhite(w[1..]) by { assert forall j :: 0 <= j < |w| - 1 ==> w[1..][j] == w[j + 1]; }
      TrimStartPadded(w[1..], x);
    }
  }

  /** The whitespace suffix of `x + w` is `w` when `x` does not end with whitespace. */
  lemma TrimEndPadded(x: string, w: string)
    requires AllWhite(w)
    requires x != [] ==> NotWhite(x[|x| - 1])
    ensures TrimEnd(x + w) == x
    decreases |w|
  {
    if w == [] {
      assert x + w == x;
    } else {
      var v := w[..|w| - 1];
      assert (x + w)[|x + w| - 1] == w[|w| - 1];
      assert (x + w)[..|x + w| - 1] == x + v;
      assert AllWhite(v) by { assert forall j :: 0 <= j < |v| ==> v[j] == w[j]; }
      TrimEndPadded(x, v);
    }
  }

  /** Padding `m` with whitespace on either side is undone by Trim. */
  lemma TrimPadded(a: string, m: string, b: string)
    requires AllWhite(a) && AllWhite(b) && IsTrimmed(m)
    ensures Trim(a + m + b) == m
  {
    if m == [] {
      AllWhiteConcat(a, b);
      assert a + m + b == a + b;
    } else {
      assert (m + b)[0] == m[0];
      TrimStartPadded(a, m + b);
      assert a + m + b == a + (m + b);
      TrimEndPadded(m, b);
    }
  }

  /** Trim leaves exactly the texts that are already trimmed as they are. */
  lemma TrimFixed(s: string)
    ensures Trim(s) == s <==> IsTrimmed(s)
  {
    if IsTrimmed(s) {
      TrimPadded("", s, "");
      assert "" + s + "" == s;
    }
  }

  lemma TrimIdempotent(s: string)
    ensures Trim(Trim(s)) == Trim(s)
  {
    TrimFixed(Trim(s));
  }

  /** Trim adds no character that `s` lacks. */
  lemma TrimAvoids(s: string, c: char)
    requires forall j :: 0 <= j < |s| ==> s[j] != c
    ensures forall j :: 0 <= j < |Trim(s)| ==> Trim(s)[j] != c
  {
    var i := |s| - |TrimStart(s)|;
    TrimSlice(s);
    assert forall j :: 0 <= j < |Trim(s)| ==> Trim(s)[j] == s[i + j];
  }

  /** A text is what trimming leaves with whitespace on either side. */
  lemma TrimParts(s: string) returns (w1: string, w2: string)
    ensures s == w1 + Trim(s) + w2
    ensures AllWhite(w1) && AllWhite(w2)
  {
    var i := |s| - |TrimStart(s)|;
    TrimSlice(s);
    var j := i + |Trim(s)|;
    w1, w2 := s[..i], s[j..];
    SplitMid(s, i, j);
  }

  lemma SplitMid(s: string, i: nat, j: nat)
    requires i <= j <= |s|
    ensures s == s[..i] + s[i..j] + s[j..]
  {
    assert s[..j] == s[..i] + s[i..j];
  }

  /** Whitespace around a text does not change what trimming it leaves. */
  lemma TrimIgnoresPadding(a: string, s: string, b: string)
    requires AllWhite(a) && AllWhite(b)
    ensures Trim(a + s + b) == Trim(s)
  {
    var w1, w2 := TrimParts(s);
    AllWhiteConcat(a, w1);
    AllWhiteConcat(w2, b);
    assert a + s + b == (a + w1) + Trim(s) + (w2 + b);
    TrimPadded(a + w1, Trim(s), w2 + b);
  }

  /** Trim also removes the '\r' of a "\r\n" line ending, as `str::lines` does. */
  lemma TrimAbsorbsCr(s: string)
    ensures Trim(s + "\r") == Trim(s)
  {
    assert IsWhite('\r');
    assert s + "\r" == "" + s + "\r";
    TrimIgnoresPadding("", s, "\r");
  }

  /** Trimming the end of `p + q`, where `p` ends in a non-whitespace
      character, trims only the end of `q`. */
  lemma TrimEndAfter(p: string, q: string)
    requires p != [] && NotWhite(p[|p| - 1])
    ensures TrimEnd(p + q) == p + TrimEnd(q)
    decreases |q|
  {
    if q == [] {
      assert p + q == p;
    } else if IsWhite(q[|q| - 1]) {
      assert (p + q)[|p + q| - 1] == q[|q| - 1];
      assert (p + q)[..|p + q| - 1] == p + q[..|q| - 1];
      TrimEndAfter(p, q[..|q| - 1]);
    } else {
      assert (p + q)[|p + q| - 1] == q[|q| - 1];
    }
  }

  /** Trimming `p + q`, where `p` begins and ends with non-whitespace,
      keeps `p` whole and trims only the end of `q`. */
  lemma TrimKeepsHead(p: string, q: string)
    requires p != [] && NotWhite(p[0]) && NotWhite(p[|p| - 1])
    ensures Trim(p + q) == p + TrimEnd(q)
  {
    assert (p + q)[0] == p[0];
    assert TrimStart(p + q) == p + q;
    TrimEndAfter(p, q);
  }

  /** Trimming the end first does not change what Trim leaves. */
  lemma TrimEndTrim(s: string)
    ensures Trim(TrimEnd(s)) == Trim(s)
  {
    var r := TrimEnd(s);
    var tail := s[|r|..];
    assert s == "" + r + tail;
    assert AllWhite(tail) by { assert forall j :: 0 <= j < |tail| ==> tail[j] == s[|r| + j]; }
    TrimIgnoresPadding("", r, tail);
  }

  /** Position of the first occurrence of `c` (where `splitn(2, c)` splits). */
  function IndexOf(s: string, c: char): (i: nat)
    requires c in s
    ensures i < |s| && s[i] == c
    ensures forall j :: 0 <= j < i ==> s[j] != c
  {
    if s[0] == c then 0 else 1 + IndexOf(s[1..], c)
  }

  lemma IndexOfIs(s: string, c: char, i: nat)
    requires i < |s| && s[i] == c
    requires forall j :: 0 <= j < i ==> s[j] != c
    ensures IndexOf(s, c) == i
  {
  }

  // ---------------------------------------------------------------------
  // Splitting a message into '\n'-separated segments

  /** A segment holds no '\n'. */
  predicate IsSegment(l: string) { forall j :: 0 <= j < |l| ==> l[j] != '\n' }

  lemma SegmentConcat(a: string, b: string)
    requires IsSegment(a) && IsSegment(b)
    ensures IsSegment(a + b)
  {
    assert forall j :: |a| <= j < |a| + |b| ==> (a + b)[j] == b[j - |a|];
  }

  /** The segments between the '\n' characters of `s`; every segment but the
      last was followed by a '\n'. */
  function SplitLines(s: string): (r: seq<string>)
    ensures |r| >= 1
    ensures forall i :: 0 <= i < |r| ==> IsSegment(r[i])
    decreases |s|
  {
    if '\n' in s then
      var i := IndexOf(s, '\n');
      assert IsSegment(s[..i]) by { assert forall j :: 0 <= j < i ==> s[..i][j] == s[j]; }
      var rest := SplitLines(s[i + 1..]);
      assert forall k :: 1 <= k < 1 + |rest| ==> ([s[..i]] + rest)[k] == rest[k - 1];
      [s[..i]] + rest
    else
      [s]
  }

  /** Inverse of SplitLines: the segments with a '\n' between each two. */
  function JoinLines(ls: seq<string>): string
    requires |ls| >= 1
  {
    if |ls| == 1 then ls[0] else ls[0] + "\n" + JoinLines(ls[1..])
  }

  lemma {:induction false} JoinSplitLines(s: string)
    ensures JoinLines(SplitLines(s)) == s
    decreases |s|
  {
    if '\n' in s {
      var a, rest := CutLine(s);
      SplitLinesCons(a, rest);
      JoinSplitLines(rest);
      var ls := [a] + SplitLines(rest);
      assert ls[0] == a && ls[1..] == SplitLines(rest);
    }
  }

  /** `s` cut at its first '\n'. */
  lemma CutLine(s: string) returns (a: string, rest: string)
    requires '\n' in s
    ensures s == a + "\n" + rest && IsSegment(a) && |rest| < |s|
  {
    var i := IndexOf(s, '\n');
    a, rest := s[..i], s[i + 1..];
    assert forall j :: 0 <= j < i ==> a[j] == s[j];
    assert s == s[..i] + "\n" + s[i + 1..];
  }

  /** One step of SplitLines: a segment, its '\n', and the rest. */
  lemma SplitLinesCons(a: string, rest: string)
    requires IsSegment(a)
    ensures SplitLines(a + "\n" + rest) == [a] + SplitLines(rest)
  {
    var s := a + "\n" + rest;
    assert forall j :: 0 <= j < |a| ==> s[j] == a[j];
    assert s[|a|] == '\n';
    IndexOfIs(s, '\n', |a|);
    assert s[..|a|] == a;
    assert s[|a| + 1..] == rest;
  }

  lemma {:induction false} SplitJoinLines(ls: seq<string>)
    requires |ls| >= 1
    requires forall i :: 0 <= i < |ls| ==> IsSegment(ls[i])
    ensures SplitLines(JoinLines(ls)) == ls
  {
    if |ls| > 1 {
      var rest := JoinLines(ls[1..]);
      assert JoinLines(ls) == ls[0] + "\n" + rest;
      SplitLinesCons(ls[0], rest);
      assert forall i :: 0 <= i < |ls| - 1 ==> ls[1..][i] == ls[i + 1];
      SplitJoinLines(ls[1..]);
      assert ls == [ls[0]] + ls[1..];
    }
  }

  // ---------------------------------------------------------------------
  // `str::split_whitespace`

  /** The maximal runs of non-whitespace characters of `s`, left to right. */
  function SplitWhitespace(s: string): (r: seq<string>)
    ensures AllWords(r)
    ensures r == [] <==> AllWhite(s)
    decreases |s|
  {
    var t := TrimStart(s);
    if t == [] then
      assert s[..|s|] == s;
      []
    else
      var n := RunEnd(t, 0, NotWhite);
      assert s[|s| - |t|] == t[0];
      FirstWord(t, n);
      var r := [t[..n]] + SplitWhitespace(t[n..]);
      AllWordsCons(t[..n], SplitWhitespace(t[n..]));
      r
  }

  /** The first word of a string that does not start with whitespace. */
  lemma FirstWord(t: string, n: nat)
    requires t != [] && NotWhite(t[0]) && n == RunEnd(t, 0, NotWhite)
    ensures 0 < n && IsWord(t[..n])
  {
    assert forall i :: 0 <= i < n ==> t[..n][i] == t[i];
  }

  /** One step of SplitWhitespace: leading whitespace `w`, then the word `tok`,
      then a remainder that is empty or starts with whitespace. */
  lemma SplitWhitespaceStep(w: string, tok: string, rest: string)
    requires AllWhite(w) && IsWord(tok)
    requires rest != [] ==> IsWhite(rest[0])
    ensures SplitWhitespace(w + tok + rest) == [tok] + SplitWhitespace(rest)
  {
    var t := tok + rest;
    assert t[0] == tok[0];
    TrimStartPadded(w, t);
    assert w + tok + rest == w + t;
    WordRun(tok, rest);
  }

  /** A word followed by a remainder that starts with whitespace: the run of
      non-whitespace is the word. */
  lemma WordRun(tok: string, rest: string)
    requires IsWord(tok)
    requires rest != [] ==> IsWhite(rest[0])
    ensures RunEnd(tok + rest, 0, NotWhite) == |tok|
    ensures (tok + rest)[..|tok|] == tok && (tok + rest)[|tok|..] == rest
  {
    var t := tok + rest;
    assert forall j :: 0 <= j < |tok| ==> t[j] == tok[j];
    if rest != [] { assert t[|tok|] == rest[0]; }
    RunEndIs(t, 0, NotWhite, |tok|);
  }

  /** `gaps[0] + toks[0] + gaps[1] + ... + toks[k-1] + gaps[k]` */
  function Interleave(gaps: seq<string>, toks: seq<string>): string
    requires |gaps| == |toks| + 1
  {
    if toks == [] then gaps[0] else gaps[0] + toks[0] + Interleave(gaps[1..], toks[1..])
  }

  /** `toks` are non-empty words without whitespace, `gaps` are whitespace, and
      the gaps between two words are non-empty. */
  ghost predicate Separates(gaps: seq<string>, toks: seq<string>)
  {
    && |gaps| == |toks| + 1
    && (forall i :: 0 <= i < |gaps| ==> AllWhite(gaps[i]))
    && (forall i :: 0 < i < |toks| ==> gaps[i] != [])
    && AllWords(toks)
  }

  lemma SeparatesTail(gaps: seq<string>, toks: seq<string>)
    requires Separates(gaps, toks) && toks != []
    ensures Separates(gaps[1..], toks[1..])
  {
    assert forall i :: 0 <= i < |gaps| - 1 ==> gaps[1..][i] == gaps[i + 1];
  }

  lemma SeparatesCons(g: string, tok: string, gaps: seq<string>, toks: seq<string>)
    requires Separates(gaps, toks)
    requires AllWhite(g) && IsWord(tok)
    requires toks != [] ==> gaps[0] != []
    ensures Separates([g] + gaps, [tok] + toks)
  {
    var gs, ts := [g] + gaps, [tok] + toks;
    assert forall i :: 0 < i < |gs| ==> gs[i] == gaps[i - 1];
    assert forall i :: 0 < i < |ts| ==> ts[i] == toks[i - 1];
  }

  /** An interleaving whose first gap is non-empty begins with whitespace. */
  lemma InterleaveHead(gaps: seq<string>, toks: seq<string>)
    requires Separates(gaps, toks)
    requires gaps[0] != []
    ensures Interleave(gaps, toks) != [] && IsWhite(Interleave(gaps, toks)[0])
  {
    var g := gaps[0];
    assert AllWhite(g);
    assert IsWhite(g[0]);
    if toks != [] {
      var x := toks[0] + Interleave(gaps[1..], toks[1..]);
      assert Interleave(gaps, toks) == g + x;
      assert (g + x)[0] == g[0];
    }
  }

  /** Splitting whitespace-separated words yields exactly those words. */
  lemma {:induction false} SplitWhitespaceOfInterleave(gaps: seq<string>, toks: seq<string>)
    requires Separates(gaps, toks)
    ensures SplitWhitespace(Interleave(gaps, toks)) == toks
  {
    if toks == [] {
      assert AllWhite(Interleave(gaps, toks));
    } else {
      var rest := Interleave(gaps[1..], toks[1..]);
      SeparatesTail(gaps, toks);
      if gaps[1] != [] {
        InterleaveHead(gaps[1..], toks[1..]);
      } else {
        assert |toks| == 1 && rest == [];
      }
      SplitWhitespaceStep(gaps[0], toks[0], rest);
      SplitWhitespaceOfInterleave(gaps[1..], toks[1..]);
    }
  }

  /** The whitespace around and between the words of `s`, as SplitWhitespace leaves it. */
  function Gaps(s: string): (g: seq<string>)
    ensures |g| == |SplitWhitespace(s)| + 1
    ensures g[0] == s[..|s| - |TrimStart(s)|]
    decreases |s|
  {
    var t := TrimStart(s);
    if t == [] then
      assert s[..|s|] == s;
      [s]
    else
      var n := RunEnd(t, 0, NotWhite);
      [s[..|s| - |t|]] + Gaps(t[n..])
  }

  /** A string that begins with whitespace has a non-empty first gap. */
  lemma GapsHead(s: string)
    ensures s != [] && IsWhite(s[0]) ==> Gaps(s)[0] != []
    ensures AllWhite(Gaps(s)[0])
  {
    TrimStartPrefix(s);
  }

  /** One step of Gaps and SplitWhitespace together: the leading gap, the first word, and the rest. */
  lemma GapsStep(s: string) returns (w: string, tok: string, rest: string)
    requires TrimStart(s) != []
    ensures s == w + tok + rest
    ensures Gaps(s) == [w] + Gaps(rest)
    ensures SplitWhitespace(s) == [tok] + SplitWhitespace(rest)
    ensures AllWhite(w) && IsWord(tok)
    ensures SplitWhitespace(rest) != [] ==> Gaps(rest)[0] != []
  {
    var t := TrimStart(s);
    var n := RunEnd(t, 0, NotWhite);
    w, tok, rest := s[..|s| - |t|], t[..n], t[n..];
    TrimStartSplit(s);
    SplitAt(t, n);
    ConcatAssoc(w, tok, rest);
    TrimStartPrefix(s);
    FirstWord(t, n);
    if rest != [] {
      assert rest[0] == t[n];
      GapsHead(rest);
    }
  }

  lemma InterleaveCons(w: string, tok: string, gaps: seq<string>, toks: seq<string>)
    requires |gaps| == |toks| + 1
    ensures Interleave([w] + gaps, [tok] + toks) == w + tok + Interleave(gaps, toks)
  {
    assert ([w] + gaps)[1..] == gaps && ([tok] + toks)[1..] == toks;
  }

  /** Every string is its words interleaved with whitespace gaps. */
  lemma {:induction false} InterleaveOfSplitWhitespace(s: string)
    ensures Separates(Gaps(s), SplitWhitespace(s))
    ensures Interleave(Gaps(s), SplitWhitespace(s)) == s
    decreases |s|
  {
    var t := TrimStart(s);
    if t == [] {
      assert AllWhite(s) by { assert s[..|s|] == s; }
    } else {
      var w, tok, rest := GapsStep(s);
      InterleaveOfSplitWhitespace(rest);
      SeparatesCons(w, tok, Gaps(rest), SplitWhitespace(rest));
      InterleaveCons(w, tok, Gaps(rest), SplitWhitespace(rest));
    }
  }

  /** Words rendered with one space before each, as a user types them after a command name. */
  function JoinArgs(toks: seq<string>): string
  {
    if toks == [] then "" else " " + toks[0] + JoinArgs(toks[1..])
  }

  lemma JoinArgsStart(toks: seq<string>)
    ensures AllWhite(" ")
    ensures JoinArgs(toks) != [] ==> IsWhite(JoinArgs(toks)[0])
  {
    assert IsWhite(' ');
  }

  /** Round trip: words joined with single spaces split back into the same words. */
  lemma {:induction false} SplitJoinArgs(toks: seq<string>)
    requires AllWords(toks)
    ensures SplitWhitespace(JoinArgs(toks)) == toks
  {
    if toks != [] {
      var rest := JoinArgs(toks[1..]);
      JoinArgsStart(toks[1..]);
      AllWordsTail(toks);
      SplitJoinArgs(toks[1..]);
      SplitWhitespaceStep(" ", toks[0], rest);
      assert toks == [toks[0]] + toks[1..];
    }
  }
}
