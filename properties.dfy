// What parse_command (src/command.rs:11-63) promises, stated about the model
// in CommandParser: when it yields a command, how each line is read, and
// that a message written in the documented format parses back to the
// command it was written from.
module CommandProperties {
  import opened Wrappers
  import opened Text
  import opened CommandParser

  // ---------------------------------------------------------------------
  // Exactly one command

  /** A message yields a command exactly when the pattern occurs in it once:
      none and two or more both give nothing (src/command.rs:17-21). */
  lemma ParseExactlyOne(input: string)
    ensures Parse(input).Some? <==> CountMatches(Kinds(SplitLines(input)), 0) == 1
    ensures Parse(input).Some? <==> Openers(Kinds(SplitLines(input)), 0) == 1
  {
    var ks := Kinds(SplitLines(input));
    if NextMatch(ks, 0).Some? {
      assert CountMatches(ks, 0) == 1 + CountMatches(ks, NextMatch(ks, 0).value.bodyEnd);
    }
    CountIsOpeners(ks, 0);
  }

  /** The number of segments from `from` on that open an occurrence,
      counted one segment at a time. */
  function Openers(ks: seq<LineKind>, from: nat): nat
    requires from <= |ks|
    decreases |ks| - from
  {
    if from == |ks| then 0 else (if Opens(ks, from) then 1 else 0) + Openers(ks, from + 1)
  }

  /** The iterator yields one match per segment that opens an occurrence:
      a body never holds a command line, so no opener is skipped. */
  lemma {:induction false} CountIsOpeners(ks: seq<LineKind>, from: nat)
    requires from <= |ks|
    ensures CountMatches(ks, from) == Openers(ks, from)
    decreases |ks| - from
  {
    match NextMatch(ks, from)
    case None =>
      NoOpenersBetween(ks, from, |ks|);
    case Some(m) =>
      NoOpenersBetween(ks, from, m.line);
      assert Openers(ks, m.line) == 1 + Openers(ks, m.line + 1);
      NoOpenersBetween(ks, m.line + 1, m.bodyEnd);
      CountIsOpeners(ks, m.bodyEnd);
  }

  /** Segments that do not open add nothing to the count. */
  lemma {:induction false} NoOpenersBetween(ks: seq<LineKind>, a: nat, b: nat)
    requires a <= b <= |ks|
    requires forall j :: a <= j < b ==> !Opens(ks, j)
    ensures Openers(ks, a) == Openers(ks, b)
    decreases b - a
  {
    if a < b {
      NoOpenersBetween(ks, a + 1, b);
    }
  }

  /** The scan yields a command exactly when one segment opens an
      occurrence: every command line that a line break follows starts one,
      since a body never holds a command line (src/command.rs:17-21). */
  lemma ScanKindsOne(ks: seq<LineKind>, segs: seq<string>)
    requires KindsFit(ks, segs)
    ensures ScanKinds(ks, segs).Some? <==> exists i: nat :: Opens(ks, i) && forall j: nat :: Opens(ks, j) ==> j == i
  {
    ScanKindsSome(ks, segs);
    OneOpener(ks);
  }

  /** ScanKinds yields a command exactly when there is a first match and
      none after its body. */
  lemma ScanKindsSome(ks: seq<LineKind>, segs: seq<string>)
    requires KindsFit(ks, segs)
    ensures ScanKinds(ks, segs).Some?
        <==> NextMatch(ks, 0).Some? && NextMatch(ks, NextMatch(ks, 0).value.bodyEnd).None?
  {
  }

  /** A first match and none after its body is exactly one opening segment. */
  lemma OneOpener(ks: seq<LineKind>)
    ensures NextMatch(ks, 0).Some? && NextMatch(ks, NextMatch(ks, 0).value.bodyEnd).None?
        <==> exists i: nat :: Opens(ks, i) && forall j: nat :: Opens(ks, j) ==> j == i
  {
    match NextMatch(ks, 0)
    case None =>
    case Some(m) =>
      OpenersAfterBody(ks, m);
      match NextMatch(ks, m.bodyEnd)
      case Some(m2) =>
        NotOneOpener(ks, m.line, m2.line);
      case None =>
        assert Opens(ks, m.line);
  }

  /** Every segment that opens an occurrence, other than the first match's
      command line, lies past that match's body. */
  lemma OpenersAfterBody(ks: seq<LineKind>, m: Match)
    requires NextMatch(ks, 0) == Some(m)
    ensures forall j: nat :: Opens(ks, j) && j != m.line ==> m.bodyEnd <= j
  {
  }

  lemma NotOneOpener(ks: seq<LineKind>, a: nat, b: nat)
    requires a != b && Opens(ks, a) && Opens(ks, b)
    ensures !exists i: nat :: Opens(ks, i) && forall j: nat :: Opens(ks, j) ==> j == i
  {
  }

  /** Two command lines anywhere in a message, each followed by a line
      break, make it ambiguous: it yields nothing (src/command.rs:19-21). */
  lemma TwoCommandLinesAnywhere(input: string, i: nat, j: nat)
    requires i < j < |SplitLines(input)| - 1
    requires IsCommandLine(SplitLines(input)[i]) && IsCommandLine(SplitLines(input)[j])
    ensures Parse(input) == None
  {
    var segs := SplitLines(input);
    var ks := Kinds(segs);
    assert Opens(ks, i) && Opens(ks, j);
    ScanKindsOne(ks, segs);
  }

  /** The command line must be followed by a line break: a message without
      one holds no command (src/command.rs:14). */
  lemma NoLineBreakNoCommand(input: string)
    requires '\n' !in input
    ensures Parse(input) == None
  {
    assert SplitLines(input) == [input];
  }

  /** Two command lines in a row, each ended by a line break, are two
      occurrences: the message is ambiguous and yields nothing, rather than
      the first command (src/command.rs:19-21). */
  lemma TwoCommandLines(a: string, b: string, rest: string)
    requires IsSegment(a) && IsSegment(b) && IsCommandLine(a) && IsCommandLine(b)
    ensures Parse(a + "\n" + b + "\n" + rest) == None
  {
    TwoSegments(a, b, rest);
    var ks := Kinds(SplitLines(a + "\n" + b + "\n" + rest));
    assert ks[0] == CommandLineKind && ks[1] == CommandLineKind;
    TwoOpeners(ks);
  }

  lemma TwoSegments(a: string, b: string, rest: string)
    requires IsSegment(a) && IsSegment(b)
    ensures SplitLines(a + "\n" + b + "\n" + rest) == [a, b] + SplitLines(rest)
  {
    assert a + "\n" + b + "\n" + rest == a + "\n" + (b + "\n" + rest);
    SplitLinesCons(a, b + "\n" + rest);
    SplitLinesCons(b, rest);
  }

  lemma TwoOpeners(ks: seq<LineKind>)
    requires |ks| >= 3 && ks[0] == CommandLineKind && ks[1] == CommandLineKind
    ensures NextMatch(ks, 0) == Some(Match(0, 1))
    ensures NextMatch(ks, 1).Some?
  {
    assert BodyEnd(ks, 1) == 1;
    assert Opens(ks, 1);
  }

  /** A last line that no line break follows never opens an occurrence, so
      a command line followed by it is the one command, with no entries. */
  lemma UnterminatedLastLine(a: string, b: string)
    requires IsSegment(a) && IsCommandLine(a) && '\n' !in b && KindOf(b) != BodyLineKind
    ensures Parse(a + "\n" + b)
         == Some(Command(ParseCommandLine(a).value.name,
                         SplitWhitespace(ParseCommandLine(a).value.shorts), map[]))
  {
    SplitLinesCons(a, b);
    assert SplitLines(b) == [b];
    var segs := SplitLines(a + "\n" + b);
    var ks := Kinds(segs);
    assert ks[0] == CommandLineKind && ks[1] != BodyLineKind;
    LastOpener(ks);
    ParseOne(a + "\n" + b, Match(0, 1));
    assert segs[1..1] == [];
  }

  lemma LastOpener(ks: seq<LineKind>)
    requires |ks| == 2 && ks[0] == CommandLineKind && ks[1] != BodyLineKind
    ensures NextMatch(ks, 0) == Some(Match(0, 1))
    ensures NextMatch(ks, 1) == None
  {
    assert BodyEnd(ks, 1) == 1;
  }

  /** A line that is not a command line, before the message, changes nothing:
      the scan skips it, so blank lines before the command line are
      tolerated (src/command.rs:14). */
  lemma PrefixLineIgnored(b: string, rest: string)
    requires IsSegment(b) && !IsCommandLine(b)
    ensures Parse(b + "\n" + rest) == Parse(rest)
  {
    SplitLinesCons(b, rest);
    ScanSkips(b, SplitLines(rest));
  }

  lemma ScanSkips(b: string, segs: seq<string>)
    requires !IsCommandLine(b)
    ensures Scan([b] + segs) == Scan(segs)
  {
    KindsCons(b, segs);
    KindsSkip(KindOf(b), Kinds(segs), b, segs);
  }

  /** The scan over kinds ignores a first segment that is not a command line. */
  lemma KindsSkip(x: LineKind, ks: seq<LineKind>, b: string, segs: seq<string>)
    requires x != CommandLineKind && KindsFit(ks, segs) && KindsFit([x] + ks, [b] + segs)
    ensures ScanKinds([x] + ks, [b] + segs) == ScanKinds(ks, segs)
  {
    if NextMatch(ks, 0).Some? {
      var m := NextMatch(ks, 0).value;
      NextMatchSkipAt(x, ks, m);
      KindsSkipAt(x, ks, b, segs, m);
    } else {
      NextMatchSkip(x, ks);
    }
  }

  lemma NextMatchSkipAt(x: LineKind, ks: seq<LineKind>, m: Match)
    requires x != CommandLineKind && NextMatch(ks, 0) == Some(m)
    ensures NextMatch([x] + ks, 0) == Some(Match(m.line + 1, m.bodyEnd + 1))
  {
    NextMatchSkip(x, ks);
  }

  lemma KindsSkipAt(x: LineKind, ks: seq<LineKind>, b: string, segs: seq<string>, m: Match)
    requires KindsFit(ks, segs) && KindsFit([x] + ks, [b] + segs)
    requires NextMatch(ks, 0) == Some(m)
    requires NextMatch([x] + ks, 0) == Some(Match(m.line + 1, m.bodyEnd + 1))
    ensures ScanKinds([x] + ks, [b] + segs) == ScanKinds(ks, segs)
  {
    var m1 := Match(m.line + 1, m.bodyEnd + 1);
    ScanKindsAt(ks, segs, m);
    ScanKindsAt([x] + ks, [b] + segs, m1);
    SecondShift(x, ks, m.bodyEnd);
    ExtractShift(b, segs, m);
  }

  /** ScanKinds once its first match is known. */
  lemma ScanKindsAt(ks: seq<LineKind>, segs: seq<string>, m: Match)
    requires KindsFit(ks, segs) && NextMatch(ks, 0) == Some(m)
    ensures m.line < m.bodyEnd <= |segs| && IsCommandLine(segs[m.line])
    ensures ScanKinds(ks, segs)
         == if NextMatch(ks, m.bodyEnd).Some? then None
            else Some(Extract(segs[m.line], segs[m.line + 1..m.bodyEnd]))
  {
  }

  lemma SecondShift(x: LineKind, ks: seq<LineKind>, i: nat)
    requires i <= |ks|
    ensures NextMatch([x] + ks, i + 1).Some? <==> NextMatch(ks, i).Some?
  {
    NextMatchShift(x, ks, i);
  }

  /** In particular, blank lines before the command line are skipped. */
  lemma BlankLineIgnored(b: string, rest: string)
    requires IsSegment(b) && AllWhite(b)
    ensures Parse(b + "\n" + rest) == Parse(rest)
  {
    BlankLineKind(b);
    PrefixLineIgnored(b, rest);
  }

  lemma KindsCons(l: string, segs: seq<string>)
    ensures Kinds([l] + segs) == [KindOf(l)] + Kinds(segs)
  {
    var xs := Kinds([l] + segs);
    var ys := [KindOf(l)] + Kinds(segs);
    forall i | 0 <= i < |xs|
      ensures xs[i] == ys[i]
    {
      if i > 0 {
        assert ([l] + segs)[i] == segs[i - 1];
      }
    }
  }

  /** A match in the scan, moved one segment down. */
  function ShiftMatch(r: Option<Match>): (s: Option<Match>)
    ensures s.Some? <==> r.Some?
    ensures s.Some? ==> s.value.line == r.value.line + 1 && s.value.bodyEnd == r.value.bodyEnd + 1
  {
    match r
    case None => None
    case Some(m) => Some(Match(m.line + 1, m.bodyEnd + 1))
  }

  lemma {:induction false} BodyEndShift(x: LineKind, ks: seq<LineKind>, i: nat)
    requires i <= |ks|
    ensures BodyEnd([x] + ks, i + 1) == BodyEnd(ks, i) + 1
    decreases |ks| - i
  {
    var xs := [x] + ks;
    if i < |ks| {
      assert xs[i + 1] == ks[i];
      if ks[i] == BodyLineKind {
        BodyEndShift(x, ks, i + 1);
      }
    }
  }

  lemma {:induction false} NextMatchShift(x: LineKind, ks: seq<LineKind>, i: nat)
    requires i <= |ks|
    ensures NextMatch([x] + ks, i + 1) == ShiftMatch(NextMatch(ks, i))
    decreases |ks| - i
  {
    if i == |ks| {
      assert NextMatch([x] + ks, i + 1) == None;
    } else if Opens(ks, i) {
      OpensShift(x, ks, i);
    } else {
      PassShift(x, ks, i);
      NextMatchShift(x, ks, i + 1);
    }
  }

  lemma OpensShift(x: LineKind, ks: seq<LineKind>, i: nat)
    requires Opens(ks, i)
    ensures NextMatch([x] + ks, i + 1) == ShiftMatch(NextMatch(ks, i))
  {
    var xs := [x] + ks;
    assert xs[i + 1] == ks[i];
    BodyEndShift(x, ks, i + 1);
    assert NextMatch(xs, i + 1) == Some(Match(i + 1, BodyEnd(xs, i + 2)));
  }

  lemma PassShift(x: LineKind, ks: seq<LineKind>, i: nat)
    requires i < |ks| && !Opens(ks, i)
    ensures NextMatch([x] + ks, i + 1) == NextMatch([x] + ks, i + 2)
    ensures NextMatch(ks, i) == NextMatch(ks, i + 1)
  {
    var xs := [x] + ks;
    assert xs[i + 1] == ks[i];
    assert !Opens(xs, i + 1);
  }

  lemma NextMatchSkip(x: LineKind, ks: seq<LineKind>)
    requires x != CommandLineKind
    ensures NextMatch([x] + ks, 0) == ShiftMatch(NextMatch(ks, 0))
  {
    assert !Opens([x] + ks, 0);
    NextMatchShift(x, ks, 0);
  }

  lemma ExtractShift(b: string, segs: seq<string>, m: Match)
    requires m.line < m.bodyEnd <= |segs| && IsCommandLine(segs[m.line])
    ensures IsCommandLine(([b] + segs)[m.line + 1])
    ensures Extract(([b] + segs)[m.line + 1], ([b] + segs)[m.line + 2..m.bodyEnd + 1])
         == Extract(segs[m.line], segs[m.line + 1..m.bodyEnd])
  {
    var xs := [b] + segs;
    assert xs[m.line + 1] == segs[m.line];
    SliceShift(b, segs, m.line + 1, m.bodyEnd);
    ExtractSame(xs[m.line + 1], xs[m.line + 2..m.bodyEnd + 1], segs[m.line], segs[m.line + 1..m.bodyEnd]);
  }

  lemma ExtractSame(l1: string, b1: seq<string>, l2: string, b2: seq<string>)
    requires IsCommandLine(l1) && l1 == l2 && b1 == b2
    ensures Extract(l1, b1) == Extract(l2, b2)
  {
  }

  lemma SliceShift(b: string, segs: seq<string>, lo: nat, hi: nat)
    requires lo <= hi <= |segs|
    ensures ([b] + segs)[lo + 1..hi + 1] == segs[lo..hi]
  {
    var t := ([b] + segs)[lo + 1..hi + 1];
    assert forall i :: 0 <= i < |t| ==> t[i] == segs[lo..hi][i];
  }

  // ---------------------------------------------------------------------
  // The command line

  /** Any amount of leading whitespace, '/', a name, and a rest that holds no
      line break and does not continue the name, then at most one '\r':
      the line reads back as that name and rest. With the shape ParseCommandLine
      promises for what it accepts, this pins the command line down. */
  lemma ParseCommandLineOf(w: string, name: string, shorts: string, cr: string)
    requires AllWhite(w) && ValidName(name)
    requires forall i :: 0 <= i < |shorts| ==> NotCrLf(shorts[i])
    requires shorts == [] || !IsNameChar(shorts[0])
    requires cr == [] || cr == "\r"
    ensures ParseCommandLine(w + "/" + name + shorts + cr) == Some(CommandLine(name, shorts))
  {
    var t := CommandTextCut(w, name, shorts, cr);
    var k, e := 1 + |name|, 1 + |name| + |shorts|;
    TrimStartPadded(w, t);
    CommandTextSlices(t, name, shorts, cr);
    CommandTextRuns(t, k, e);
    assert e == |t| || (e + 1 == |t| && t[e] == '\r') by {
      assert t[e..] == cr;
      if cr != [] { assert t[e] == t[e..][0]; }
    }
    ParseCommandLineAt(w + t, t, k, e);
  }

  /** The whitespace-free text of a command line, as ParseCommandLineOf
      reads it. */
  lemma CommandTextCut(w: string, name: string, shorts: string, cr: string) returns (t: string)
    requires ValidName(name)
    ensures t == "/" + name + shorts + cr && w + "/" + name + shorts + cr == w + t
    ensures |t| == 1 + |name| + |shorts| + |cr| && t[0] == '/' && NotWhite(t[0])
    ensures IsAsciiLetter(t[1])
  {
    t := "/" + name + shorts + cr;
    assert t[1] == name[0];
    assert !IsWhite('/');
  }

  /** ParseCommandLine once its two runs are known. */
  lemma ParseCommandLineAt(c: string, t: string, k: nat, e: nat)
    requires TrimStart(c) == t && |t| >= 2 && t[0] == '/' && IsAsciiLetter(t[1])
    requires RunEnd(t, 2, IsNameChar) == k && RunEnd(t, k, NotCrLf) == e
    requires e == |t| || (e + 1 == |t| && t[e] == '\r')
    ensures ParseCommandLine(c) == Some(CommandLine(t[1..k], t[k..e]))
  {
  }

  /** Where ParseCommandLine's two runs end on the text of a command line. */
  lemma CommandTextRuns(t: string, k: nat, e: nat)
    requires 1 < k <= e <= |t|
    requires ValidName(t[1..k])
    requires forall i :: 0 <= i < e - k ==> NotCrLf(t[k..e][i])
    requires t[k..e] == [] || !IsNameChar(t[k..e][0])
    requires t[e..] == [] || t[e..] == "\r"
    ensures RunEnd(t, 2, IsNameChar) == k
    ensures RunEnd(t, k, NotCrLf) == e
  {
    forall j | 2 <= j < k
      ensures IsNameChar(t[j])
    {
      assert t[j] == t[1..k][j - 1];
    }
    if k < e {
      assert t[k] == t[k..e][0];
    } else if k < |t| {
      assert t[k] == t[e..][0];
    }
    RunEndIs(t, 2, IsNameChar, k);
    forall j | k <= j < e
      ensures NotCrLf(t[j])
    {
      assert t[j] == t[k..e][j - k];
    }
    if e < |t| {
      assert t[e] == t[e..][0];
    }
    RunEndIs(t, k, NotCrLf, e);
  }

  lemma CommandTextSlices(t: string, name: string, shorts: string, cr: string)
    requires t == "/" + name + shorts + cr
    ensures t[1..1 + |name|] == name && t[1 + |name|..1 + |name| + |shorts|] == shorts
    ensures t[1 + |name| + |shorts|..] == cr
  {
    var k := 1 + |name|;
    var e := k + |shorts|;
    forall j | 0 <= j < |name|
      ensures t[1..k][j] == name[j]
    {
      assert t[1 + j] == name[j];
    }
    forall j | 0 <= j < |shorts|
      ensures t[k..e][j] == shorts[j]
    {
      assert t[k + j] == shorts[j];
    }
    forall j | 0 <= j < |cr|
      ensures t[e..][j] == cr[j]
    {
      assert t[e + j] == cr[j];
    }
  }

  // ---------------------------------------------------------------------
  // Body lines

  /** `[ \t]*-[ \t]+.*` matched with its '-' at index `p`. */
  ghost predicate BodyLineAt(l: string, p: nat)
  {
    p + 1 < |l| && (forall j :: 0 <= j < p ==> IsSpaceOrTab(l[j])) && l[p] == '-' && IsSpaceOrTab(l[p + 1])
  }

  /** IsBodyLine, which looks only after the leading run of spaces and tabs,
      accepts exactly the lines the pattern's body part matches. */
  lemma BodyLineShape(l: string)
    ensures IsBodyLine(l) <==> exists p :: BodyLineAt(l, p)
  {
    assert IsBodyLine(l) ==> BodyLineAt(l, RunEnd(l, 0, IsSpaceOrTab));
    forall p | BodyLineAt(l, p)
      ensures IsBodyLine(l)
    {
      RunEndIs(l, 0, IsSpaceOrTab, p);
    }
  }

  // ---------------------------------------------------------------------
  // Key/value lines

  /** Whitespace around a body line, the '\r' of a "\r\n" ending among it,
      does not change what the line stores (src/command.rs:38). */
  lemma KvLinePadded(a: string, l: string, b: string)
    requires AllWhite(a) && AllWhite(b)
    ensures KvLine(a + l + b) == KvLine(l)
  {
    TrimIgnoresPadding(a, l, b);
  }

  /** `trim_start_matches('-')` stops at the first character that is not '-'. */
  lemma TrimStartDashesOne(x: string)
    requires x == [] || x[0] != '-'
    ensures TrimStartDashes("-" + x) == x
  {
    assert ("-" + x)[1..] == x;
  }

  /** `splitn(2, ':')` on a text whose first ':' follows `p`: no entry when
      the key part is blank, else the trimmed key part and the trimmed rest. */
  lemma SplitEntryAt(p: string, rest: string)
    requires ':' !in p
    ensures SplitEntry(p + ":" + rest)
         == if AllWhite(p) then None else Some(Entry(Trim(p), Trim(rest)))
  {
    ColonCut(p, rest);
  }

  /** A key, any whitespace, ':' and any rest give that key and the trimmed
      rest. */
  lemma SplitEntryOf(k: string, w: string, rest: string)
    requires ValidKey(k) && ':' !in k && AllWhite(w)
    ensures SplitEntry(k + w + ":" + rest) == Some(Entry(k, Trim(rest)))
  {
    PaddedKey(k, w);
    SplitEntryAt(k + w, rest);
  }

  /** A key with whitespace after it: no ':', not blank, and it trims to the key. */
  lemma PaddedKey(k: string, w: string)
    requires ValidKey(k) && ':' !in k && AllWhite(w)
    ensures ':' !in k + w && !AllWhite(k + w) && Trim(k + w) == k
  {
    assert ':' !in k + w by {
      assert forall j :: |k| <= j < |k| + |w| ==> (k + w)[j] == w[j - |k|];
      assert !IsWhite(':');
    }
    assert (k + w)[0] == k[0];
    assert k + w == "" + k + w;
    TrimIgnoresPadding("", k, w);
    TrimFixed(k);
  }

  /** Where `k + ":" + rest` is cut by its first ':'. */
  lemma ColonCut(k: string, rest: string)
    requires ':' !in k
    ensures ':' in k + ":" + rest && IndexOf(k + ":" + rest, ':') == |k|
    ensures (k + ":" + rest)[..|k|] == k && (k + ":" + rest)[|k| + 1..] == rest
  {
    var u := k + ":" + rest;
    assert forall j :: 0 <= j < |k| ==> u[j] == k[j];
    assert u[|k|] == ':';
    IndexOfIs(u, ':', |k|);
    assert u[..|k|] == k;
    assert u[|k| + 1..] == rest;
  }

  /** A body line in any of the layouts src/command.rs:42 names, such as
      `- k: v` and `-   k :  v`: whitespace around it, '-', whitespace, the
      key, whitespace, ':' and the value. It stores the key and the trimmed
      value. */
  lemma KvLineOf(a: string, w1: string, k: string, w2: string, rest: string, b: string)
    requires AllWhite(a) && AllWhite(b) && AllWhite(w1) && w1 != [] && AllWhite(w2)
    requires ValidKey(k) && ':' !in k
    ensures KvLine(a + ("-" + w1 + k + w2 + ":" + rest) + b) == Some(Entry(k, Trim(rest)))
  {
    var l := "-" + w1 + k + w2 + ":" + rest;
    var v := TrimEnd(rest);
    var x, u := KeyLineCut(w1, k, w2, rest, v);
    DashTrim(x, rest);
    DashStrip(w1, u);
    KvLineFrom(l, x + v, u);
    SplitEntryOf(k, w2, v);
    TrimEndTrim(rest);
    KvLinePadded(a, l, b);
  }

  /** `-`, `w1`, the key, `w2`, ':' and the rest, as the pieces KvLineOf
      follows through the trims. */
  lemma KeyLineCut(w1: string, k: string, w2: string, rest: string, v: string) returns (x: string, u: string)
    requires k != []
    ensures x == w1 + k + w2 + ":" && u == k + w2 + ":" + v
    ensures "-" + w1 + k + w2 + ":" + rest == "-" + x + rest
    ensures x != [] && x[|x| - 1] == ':' && u != [] && u[0] == k[0]
    ensures x + v == w1 + u
  {
    x, u := w1 + k + w2 + ":", k + w2 + ":" + v;
  }

  /** KvLine takes a line that trims to a '-' and more through its steps:
      strip the dashes, then the whitespace, then split. */
  lemma KvLineFrom(l: string, x: string, u: string)
    requires Trim(l) == "-" + x
    requires TrimStart(TrimStartDashes("-" + x)) == u
    ensures KvLine(l) == SplitEntry(u)
  {
  }

  /** Trimming a line that starts with '-' trims only its end. */
  lemma DashTrim(x: string, rest: string)
    requires x != [] && NotWhite(x[|x| - 1])
    ensures Trim("-" + x + rest) == "-" + (x + TrimEnd(rest))
  {
    var p := "-" + x;
    assert p[0] == '-' && p[|p| - 1] == x[|x| - 1];
    TrimKeepsHead(p, rest);
    ConcatAssoc("-", x, TrimEnd(rest));
  }

  /** One '-', whitespace, then `u`: stripping the dash and the whitespace
      leaves `u`. */
  lemma DashStrip(w: string, u: string)
    requires AllWhite(w) && u != [] && NotWhite(u[0]) && (w == [] ==> u[0] != '-')
    ensures TrimStart(TrimStartDashes("-" + (w + u))) == u
  {
    var x := w + u;
    if w == [] {
      assert x == u;
    } else {
      assert x[0] == w[0];
      assert !IsWhite('-');
    }
    TrimStartDashesOne(x);
    TrimStartPadded(w, u);
  }

  /** A body line without ':' stores nothing (src/command.rs:53). */
  lemma KvLineNoColon(l: string)
    requires ':' !in l
    ensures KvLine(l) == None
  {
    if Trim(l) != [] {
      NoColonSteps(l);
      KvLineSteps(l, TrimStart(TrimStartDashes(Trim(l))));
    }
  }

  /** No step of KvLine before the split adds a ':'. */
  lemma NoColonSteps(l: string)
    requires ':' !in l
    ensures ':' !in TrimStart(TrimStartDashes(Trim(l)))
  {
    var t := Trim(l);
    TrimAvoids(l, ':');
    assert ':' !in t;
    var d := TrimStartDashes(t);
    SuffixAvoids(t, d, ':');
    TrimStartSuffix(d);
    SuffixAvoids(d, TrimStart(d), ':');
  }

  /** A suffix of a text without `c` holds no `c` either. */
  lemma SuffixAvoids(s: string, r: string, c: char)
    requires c !in s && |r| <= |s| && r == s[|s| - |r|..]
    ensures c !in r
  {
    assert forall j :: 0 <= j < |r| ==> r[j] == s[|s| - |r| + j];
  }

  /** KvLine on a line that does not trim to nothing: strip the dashes, then
      the whitespace, then split. */
  lemma KvLineSteps(l: string, u: string)
    requires Trim(l) != [] && u == TrimStart(TrimStartDashes(Trim(l)))
    ensures KvLine(l) == SplitEntry(u)
  {
  }

  /** A body line whose key is blank stores nothing (src/command.rs:49). */
  lemma KvLineBlankKey(a: string, w: string, rest: string, b: string)
    requires AllWhite(a) && AllWhite(w) && AllWhite(b)
    ensures KvLine(a + ("-" + w + ":" + rest) + b) == None
  {
    var l := "-" + w + ":" + rest;
    var v := TrimEnd(rest);
    var x, u := BlankKeyCut(w, rest, v);
    DashTrim(x, rest);
    DashStrip(w, u);
    KvLineFrom(l, x + v, u);
    SplitEntryAt([], v);
    KvLinePadded(a, l, b);
  }

  lemma BlankKeyCut(w: string, rest: string, v: string) returns (x: string, u: string)
    ensures x == w + ":" && u == [] + ":" + v
    ensures "-" + w + ":" + rest == "-" + x + rest
    ensures x != [] && x[|x| - 1] == ':' && u != [] && u[0] == ':'
    ensures x + v == w + u
  {
    x, u := w + ":", ":" + v;
  }

  // ---------------------------------------------------------------------
  // The map the body builds

  /** What each body line contributes: an entry, or nothing. */
  function LineEntries(lines: seq<string>): (os: seq<Option<Entry>>)
    ensures |os| == |lines|
    ensures forall i :: 0 <= i < |lines| ==> os[i] == KvLine(lines[i])
  {
    seq(|lines|, i requires 0 <= i < |lines| => KvLine(lines[i]))
  }

  /** Inserting the entries of `os` in order into an empty map. */
  function InsertAll(os: seq<Option<Entry>>): map<string, string>
  {
    if os == [] then map[] else Put(InsertAll(os[..|os| - 1]), os[|os| - 1])
  }

  /** The body's map is its lines' entries inserted in order. */
  lemma {:induction false} KvOfInsertAll(lines: seq<string>)
    ensures KvOf(lines) == InsertAll(LineEntries(lines))
  {
    if lines != [] {
      var n := |lines| - 1;
      assert LineEntries(lines)[..n] == LineEntries(lines[..n]);
      KvOfInsertAll(lines[..n]);
    }
  }

  /** Entry `i` of `os` is stored under key `k`. */
  ghost predicate Stores(os: seq<Option<Entry>>, i: nat, k: string)
  {
    i < |os| && os[i].Some? && os[i].value.key == k
  }

  /** The map holds a key exactly when some entry is stored under it. */
  lemma {:induction false} InsertAllKeys(os: seq<Option<Entry>>, k: string)
    ensures k in InsertAll(os) <==> exists i :: Stores(os, i, k)
  {
    if os != [] {
      var n := |os| - 1;
      var init := os[..n];
      InsertAllKeys(init, k);
      forall j | 0 <= j < n
        ensures Stores(os, j, k) == Stores(init, j, k)
      {
      }
      if k in InsertAll(init) {
        var j :| Stores(init, j, k);
        assert Stores(os, j, k);
      }
      if !Stores(os, n, k) {
        forall j | Stores(os, j, k)
          ensures k in InsertAll(init)
        {
          assert Stores(init, j, k);
        }
      }
    }
  }

  /** Under each key the map holds the value of the last entry stored under
      it: a later `kv.insert` overwrites an earlier one. */
  lemma {:induction false} InsertAllLastWins(os: seq<Option<Entry>>, i: nat, k: string)
    requires Stores(os, i, k)
    requires forall j :: i < j < |os| ==> !Stores(os, j, k)
    ensures k in InsertAll(os) && InsertAll(os)[k] == os[i].value.value
  {
    var n := |os| - 1;
    if i < n {
      var init := os[..n];
      assert Stores(init, i, k);
      forall j | i < j < |init|
        ensures !Stores(init, j, k)
      {
        assert init[j] == os[j] && !Stores(os, j, k);
      }
      InsertAllLastWins(init, i, k);
      assert !Stores(os, n, k);
    }
  }

  /** A key is in the body's map exactly when some body line stores an
      entry under it. */
  lemma KvOfKeys(lines: seq<string>, k: string)
    ensures k in KvOf(lines) <==> exists j :: Stores(LineEntries(lines), j, k)
  {
    KvOfInsertAll(lines);
    InsertAllKeys(LineEntries(lines), k);
  }

  /** A key maps to the value of the last body line that stores it. */
  lemma {:induction false} KvOfLookup(lines: seq<string>, i: nat, k: string)
    requires Stores(LineEntries(lines), i, k)
    requires forall j :: i < j < |lines| ==> !Stores(LineEntries(lines), j, k)
    ensures k in KvOf(lines) && KvOf(lines)[k] == KvLine(lines[i]).value.value
  {
    KvOfInsertAll(lines);
    InsertAllLastWins(LineEntries(lines), i, k);
  }

  // ---------------------------------------------------------------------
  // A message in the documented format reads back

  /** How one line of a message is laid out (src/command.rs:12): the
      whitespace before its first mark, and `cr` for its ending, "" for
      "\n" and "\r" for "\r\n". */
  datatype Layout = Layout(indent: string, cr: string)

  predicate EndingOk(lay: Layout)
  {
    lay.cr == [] || lay.cr == "\r"
  }

  /** A command line may have any whitespace before its '/'. */
  predicate CommandLayoutOk(lay: Layout)
  {
    AllWhite(lay.indent) && IsSegment(lay.indent) && EndingOk(lay)
  }

  /** A body line may have spaces and tabs before its '-'. */
  predicate BodyLayoutOk(lay: Layout)
  {
    AllSpaceOrTab(lay.indent) && EndingOk(lay)
  }

  /** One entry of the body, with the layout of the line that writes it. */
  datatype BodyItem = BodyItem(lay: Layout, entry: Entry)

  /** The command line that writes `/name` and its arguments. */
  function CommandText(lay: Layout, name: string, args: seq<string>): string
  {
    lay.indent + "/" + name + JoinArgs(args) + lay.cr
  }

  /** The body line that writes one entry. */
  function EntryLine(lay: Layout, e: Entry): string
  {
    lay.indent + "- " + e.key + ": " + e.value + lay.cr
  }

  function EntryLines(body: seq<BodyItem>): (ls: seq<string>)
    ensures |ls| == |body|
    ensures forall i :: 0 <= i < |body| ==> ls[i] == EntryLine(body[i].lay, body[i].entry)
  {
    seq(|body|, i requires 0 <= i < |body| => EntryLine(body[i].lay, body[i].entry))
  }

  /** Every entry of the body, as a line that stores it. */
  function Stored(body: seq<BodyItem>): (os: seq<Option<Entry>>)
    ensures |os| == |body|
    ensures forall i :: 0 <= i < |body| ==> os[i] == Some(body[i].entry)
  {
    seq(|body|, i requires 0 <= i < |body| => Some(body[i].entry))
  }

  /** An entry the format can carry: a trimmed key without ':' or a line
      break, and a trimmed value without a line break. */
  predicate Writable(e: Entry)
  {
    && ValidKey(e.key) && ':' !in e.key && IsSegment(e.key)
    && IsTrimmed(e.value) && IsSegment(e.value)
  }

  /** A body item the format can carry on a line of its own. */
  predicate WritableItem(it: BodyItem)
  {
    BodyLayoutOk(it.lay) && Writable(it.entry)
  }

  /** The lines of a message that writes a command: the command line, then
      one `- key: value` line per entry, each ended by a line break. */
  function RenderLines(lay: Layout, name: string, args: seq<string>, body: seq<BodyItem>): seq<string>
  {
    [CommandText(lay, name, args)] + EntryLines(body) + [""]
  }

  function Render(lay: Layout, name: string, args: seq<string>, body: seq<BodyItem>): string
  {
    JoinLines(RenderLines(lay, name, args, body))
  }

  /** Writing a command out, each line indented or not and ended by "\n"
      or "\r\n" on its own, and parsing it gives the command back: its
      name, its arguments, and the map its entries build in order, later
      keys winning. */
  lemma RenderParse(lay: Layout, name: string, args: seq<string>, body: seq<BodyItem>)
    requires CommandLayoutOk(lay) && ValidName(name) && AllWords(args)
    requires forall i :: 0 <= i < |body| ==> WritableItem(body[i])
    ensures Parse(Render(lay, name, args, body)) == Some(Command(name, args, InsertAll(Stored(body))))
  {
    RenderScan(lay, name, args, body);
    ParseOne(Render(lay, name, args, body), Match(0, |body| + 1));
    RenderExtract(lay, name, args, body);
  }

  /** With exactly one match, Parse builds the command from it. */
  lemma ParseOne(input: string, m: Match)
    requires NextMatch(Kinds(SplitLines(input)), 0) == Some(m)
    requires NextMatch(Kinds(SplitLines(input)), m.bodyEnd) == None
    ensures m.line < m.bodyEnd <= |SplitLines(input)| && IsCommandLine(SplitLines(input)[m.line])
    ensures Parse(input)
         == Some(Extract(SplitLines(input)[m.line], SplitLines(input)[m.line + 1..m.bodyEnd]))
  {
  }

  /** The fields built from the rendered lines are the ones written. */
  lemma RenderExtract(lay: Layout, name: string, args: seq<string>, body: seq<BodyItem>)
    requires CommandLayoutOk(lay) && ValidName(name) && AllWords(args)
    requires forall i :: 0 <= i < |body| ==> WritableItem(body[i])
    ensures IsCommandLine(RenderLines(lay, name, args, body)[0])
    ensures Extract(RenderLines(lay, name, args, body)[0], RenderLines(lay, name, args, body)[1..|body| + 1])
         == Command(name, args, InsertAll(Stored(body)))
  {
    var segs := RenderLines(lay, name, args, body);
    CommandTextLine(lay, name, args);
    assert segs[0] == CommandText(lay, name, args);
    assert segs[1..|body| + 1] == EntryLines(body);
    SplitJoinArgs(args);
    KvOfEntryLines(body);
  }

  /** The rendered message splits back into its lines, and the scan finds
      one match: the command line with every entry line as its body. */
  lemma RenderScan(lay: Layout, name: string, args: seq<string>, body: seq<BodyItem>)
    requires CommandLayoutOk(lay) && ValidName(name) && AllWords(args)
    requires forall i :: 0 <= i < |body| ==> WritableItem(body[i])
    ensures SplitLines(Render(lay, name, args, body)) == RenderLines(lay, name, args, body)
    ensures NextMatch(Kinds(RenderLines(lay, name, args, body)), 0) == Some(Match(0, |body| + 1))
    ensures NextMatch(Kinds(RenderLines(lay, name, args, body)), |body| + 1) == None
  {
    var cmd := CommandText(lay, name, args);
    var lines := EntryLines(body);
    var segs := RenderLines(lay, name, args, body);
    var n := |body|;
    CommandTextLine(lay, name, args);
    forall i | 0 <= i < n
      ensures IsSegment(lines[i]) && KindOf(lines[i]) == BodyLineKind
    {
      EntryLineKind(body[i].lay, body[i].entry);
    }
    RenderSegments(segs, cmd, lines);
    SplitJoinLines(segs);
    var ks := Kinds(segs);
    assert ks[0] == CommandLineKind;
    forall i | 1 <= i <= n
      ensures ks[i] == BodyLineKind
    {
      assert segs[i] == lines[i - 1];
    }
    assert ks[n + 1] == OtherLineKind by {
      assert TrimStart("") == "";
    }
    ScanRendered(ks, n);
  }

  /** A command line, a run of body lines and a last segment that is neither:
      one match, whose body is the whole run. */
  lemma ScanRendered(ks: seq<LineKind>, n: nat)
    requires |ks| == n + 2 && ks[0] == CommandLineKind && ks[n + 1] == OtherLineKind
    requires forall i :: 1 <= i <= n ==> ks[i] == BodyLineKind
    ensures NextMatch(ks, 0) == Some(Match(0, n + 1))
    ensures NextMatch(ks, n + 1) == None
  {
    assert BodyEnd(ks, 1) == n + 1;
  }

  /** The segments of the rendered message are what their positions say. */
  lemma RenderSegments(segs: seq<string>, cmd: string, body: seq<string>)
    requires segs == [cmd] + body + [""]
    requires IsSegment(cmd) && forall i :: 0 <= i < |body| ==> IsSegment(body[i])
    ensures |segs| == |body| + 2 && segs[0] == cmd && segs[|body| + 1] == ""
    ensures forall i :: 1 <= i <= |body| ==> segs[i] == body[i - 1]
    ensures forall i :: 0 <= i < |segs| ==> IsSegment(segs[i])
  {
    forall i | 1 <= i <= |body|
      ensures segs[i] == body[i - 1]
    {
    }
  }

  /** The written command line is a command line and reads back as `name`
      and the joined arguments. */
  lemma CommandTextLine(lay: Layout, name: string, args: seq<string>)
    requires CommandLayoutOk(lay) && ValidName(name) && AllWords(args)
    ensures IsSegment(CommandText(lay, name, args))
    ensures KindOf(CommandText(lay, name, args)) == CommandLineKind
    ensures ParseCommandLine(CommandText(lay, name, args)) == Some(CommandLine(name, JoinArgs(args)))
  {
    var shorts := JoinArgs(args);
    JoinArgsNoBreak(args);
    CommandTextParse(lay, name, args);
    CommandTextSegment(name, shorts);
    CommandTextIsSegment(lay, name, shorts);
  }

  lemma CommandTextParse(lay: Layout, name: string, args: seq<string>)
    requires CommandLayoutOk(lay) && ValidName(name) && AllWords(args)
    ensures ParseCommandLine(CommandText(lay, name, args)) == Some(CommandLine(name, JoinArgs(args)))
  {
    JoinArgsNoBreak(args);
    JoinArgsStart(args);
    ParseCommandLineOf(lay.indent, name, JoinArgs(args), lay.cr);
  }

  lemma CommandTextIsSegment(lay: Layout, name: string, shorts: string)
    requires CommandLayoutOk(lay) && IsSegment("/" + name + shorts)
    ensures IsSegment(lay.indent + "/" + name + shorts + lay.cr)
  {
    var mid := "/" + name + shorts;
    SegmentConcat(lay.indent, mid);
    assert IsSegment(lay.cr);
    SegmentConcat(lay.indent + mid, lay.cr);
    assert lay.indent + mid + lay.cr == lay.indent + "/" + name + shorts + lay.cr;
  }

  lemma CommandTextSegment(name: string, shorts: string)
    requires ValidName(name)
    requires forall i :: 0 <= i < |shorts| ==> NotCrLf(shorts[i])
    ensures IsSegment("/" + name + shorts)
  {
    var cmd := "/" + name + shorts;
    forall j | 0 <= j < |cmd|
      ensures cmd[j] != '\n'
    {
      if j == 0 {
      } else if j <= |name| {
        assert cmd[j] == name[j - 1];
      } else {
        assert cmd[j] == shorts[j - 1 - |name|];
      }
    }
  }

  /** The joined arguments hold no line break. */
  lemma {:induction false} JoinArgsNoBreak(toks: seq<string>)
    requires AllWords(toks)
    ensures forall i :: 0 <= i < |JoinArgs(toks)| ==> NotCrLf(JoinArgs(toks)[i])
  {
    if toks != [] {
      AllWordsTail(toks);
      JoinArgsNoBreak(toks[1..]);
      var w, rest := toks[0], JoinArgs(toks[1..]);
      assert JoinArgs(toks) == " " + w + rest;
      forall i | 0 <= i < |JoinArgs(toks)|
        ensures NotCrLf(JoinArgs(toks)[i])
      {
        if 1 <= i < 1 + |w| {
          assert JoinArgs(toks)[i] == w[i - 1];
        } else if 1 + |w| <= i {
          assert JoinArgs(toks)[i] == rest[i - 1 - |w|];
        }
      }
    }
  }

  /** An entry's line is a body line and stores that entry. */
  lemma EntryLineKind(lay: Layout, e: Entry)
    requires BodyLayoutOk(lay) && Writable(e)
    ensures IsSegment(EntryLine(lay, e))
    ensures KindOf(EntryLine(lay, e)) == BodyLineKind
    ensures KvLine(EntryLine(lay, e)) == Some(e)
  {
    EntryLineSegment(lay, e);
    var r := EntryLineCut(lay, e);
    EntryLineBody(lay.indent, r);
    SpaceOrTabWhite(lay.indent);
    KvLineOf(lay.indent, " ", e.key, "", " " + e.value, lay.cr);
    TrimPadded(" ", e.value, "");
  }

  /** An entry's line as the pieces EntryLineKind reads it by. */
  lemma EntryLineCut(lay: Layout, e: Entry) returns (r: string)
    requires EndingOk(lay)
    ensures EntryLine(lay, e) == lay.indent + "- " + r
    ensures EntryLine(lay, e)
         == lay.indent + ("-" + " " + e.key + "" + ":" + (" " + e.value)) + lay.cr
    ensures " " + e.value + "" == " " + e.value
    ensures AllWhite(lay.cr) && AllWhite(" ") && AllWhite("")
  {
    r := e.key + ": " + e.value + lay.cr;
    assert IsWhite(' ') && IsWhite('\r');
  }

  lemma EntryLineSegment(lay: Layout, e: Entry)
    requires BodyLayoutOk(lay) && IsSegment(e.key) && IsSegment(e.value)
    ensures IsSegment(EntryLine(lay, e))
  {
    var w := lay.indent;
    assert IsSegment(w) by {
      assert forall j :: 0 <= j < |w| ==> IsSpaceOrTab(w[j]);
    }
    assert IsSegment("- ") && IsSegment(": ") && IsSegment(lay.cr);
    SegmentConcat(w, "- ");
    SegmentConcat(w + "- ", e.key);
    SegmentConcat(w + "- " + e.key, ": ");
    SegmentConcat(w + "- " + e.key + ": ", e.value);
    SegmentConcat(w + "- " + e.key + ": " + e.value, lay.cr);
  }

  /** A line of spaces and tabs, then "- ", is a body line. */
  lemma EntryLineBody(w: string, r: string)
    requires AllSpaceOrTab(w)
    ensures KindOf(w + "- " + r) == BodyLineKind
  {
    var l := w + "- " + r;
    SpaceOrTabWhite(w);
    assert l == w + ("- " + r);
    TrimStartPadded(w, "- " + r);
    assert forall i :: 0 <= i < |w| ==> l[i] == w[i];
    assert l[|w|] == '-' && l[|w| + 1] == ' ';
    RunEndIs(l, 0, IsSpaceOrTab, |w|);
  }

  /** The body lines of the entries build the map the entries do. */
  lemma KvOfEntryLines(body: seq<BodyItem>)
    requires forall i :: 0 <= i < |body| ==> WritableItem(body[i])
    ensures KvOf(EntryLines(body)) == InsertAll(Stored(body))
  {
    var os := LineEntries(EntryLines(body));
    forall i | 0 <= i < |body|
      ensures os[i] == Some(body[i].entry)
    {
      EntryLineKind(body[i].lay, body[i].entry);
    }
    assert os == Stored(body);
    KvOfInsertAll(EntryLines(body));
  }

  // ---------------------------------------------------------------------
  // Line kinds

  /** A blank line is neither a command line nor a body line, so it ends the
      body (src/command.rs:14). */
  lemma BlankLineKind(l: string)
    requires AllWhite(l)
    ensures KindOf(l) == OtherLineKind
  {
    assert TrimStart(l) == [];
  }

  /** A dash that no space or tab follows does not make a body line, so
      lines such as `-k: v` and `--k: v` end the body (src/command.rs:14,
      src/command.rs:42). */
  lemma DashWithoutBlankEndsBody(w: string, rest: string)
    requires AllSpaceOrTab(w)
    requires rest == [] || !IsSpaceOrTab(rest[0])
    ensures !IsBodyLine(w + "-" + rest)
  {
    var l := w + "-" + rest;
    assert forall i :: 0 <= i < |w| ==> l[i] == w[i];
    assert l[|w|] == '-';
    RunEndIs(l, 0, IsSpaceOrTab, |w|);
    if |w| + 1 < |l| {
      assert l[|w| + 1] == rest[0];
    }
  }

  // ---------------------------------------------------------------------
  // Examples

  lemma CommandLineOf(name: string)
    requires ValidName(name)
    ensures IsSegment("/" + name) && IsCommandLine("/" + name)
    ensures ParseCommandLine("/" + name) == Some(CommandLine(name, ""))
  {
    assert "" + "/" + name + "" + "" == "/" + name;
    ParseCommandLineOf("", name, "", "");
    assert forall i :: 1 <= i < 1 + |name| ==> ("/" + name)[i] == name[i - 1];
  }

  /** Plain text holds no command. */
  lemma ExampleNoCommand()
    ensures Parse("hello world") == None
  {
    NoLineBreakNoCommand("hello world");
  }

  /** A command line that no line break follows is not one. */
  lemma ExampleNoLineBreak()
    ensures Parse("/go") == None
  {
    NoLineBreakNoCommand("/go");
  }

  /** `/a\n/b\n`, for any two names: two commands give nothing. */
  lemma ExampleTwoCommands(a: string, b: string)
    requires ValidName(a) && ValidName(b)
    ensures Parse("/" + a + "\n" + "/" + b + "\n") == None
  {
    CommandLineOf(a);
    CommandLineOf(b);
    assert "/" + a + "\n" + "/" + b + "\n" == ("/" + a) + "\n" + ("/" + b) + "\n" + "";
    TwoCommandLines("/" + a, "/" + b, "");
  }

  /** `/a\n/b`, for any two names: the second command line has no line
      break after it, so only the first counts. */
  lemma ExampleSecondUnterminated(a: string, b: string)
    requires ValidName(a) && ValidName(b)
    ensures Parse("/" + a + "\n" + "/" + b) == Some(Command(a, [], map[]))
  {
    CommandLineOf(a);
    CommandLineOf(b);
    assert "/" + a + "\n" + "/" + b == ("/" + a) + "\n" + ("/" + b);
    assert '\n' !in "/" + b by {
      assert forall i :: 1 <= i < 1 + |b| ==> ("/" + b)[i] == b[i - 1];
    }
    UnterminatedLastLine("/" + a, "/" + b);
    assert SplitWhitespace("") == [];
  }

  /** An indented command line ended by "\n", then a body line ended by
      "\r\n" (src/command.rs:12). */
  lemma ExampleMixedEndings()
    ensures Parse("  /go a b\n- x: 1\r\n") == Some(Command("go", ["a", "b"], map["x" := "1"]))
  {
    var lay, it := Layout("  ", ""), BodyItem(Layout("", "\r"), Entry("x", "1"));
    MixedEndingsWritable(lay, it);
    MixedEndingsRender(lay, it);
    MixedEndingsMap(it);
    RenderParse(lay, "go", ["a", "b"], [it]);
  }

  lemma MixedEndingsWritable(lay: Layout, it: BodyItem)
    requires lay == Layout("  ", "") && it == BodyItem(Layout("", "\r"), Entry("x", "1"))
    ensures CommandLayoutOk(lay) && ValidName("go") && AllWords(["a", "b"]) && WritableItem(it)
  {
    assert IsWhite(' ') && NotWhite('a') && NotWhite('b');
    MixedEndingsEntry(it);
  }

  lemma MixedEndingsEntry(it: BodyItem)
    requires it == BodyItem(Layout("", "\r"), Entry("x", "1"))
    ensures WritableItem(it)
  {
    assert NotWhite('x') && NotWhite('1');
  }

  lemma MixedEndingsRender(lay: Layout, it: BodyItem)
    requires lay == Layout("  ", "") && it == BodyItem(Layout("", "\r"), Entry("x", "1"))
    ensures Render(lay, "go", ["a", "b"], [it]) == "  /go a b\n- x: 1\r\n"
  {
    var cmd, line := CommandText(lay, "go", ["a", "b"]), EntryLine(it.lay, it.entry);
    MixedEndingsLines(lay, it);
    assert EntryLines([it]) == [line];
    assert RenderLines(lay, "go", ["a", "b"], [it]) == [cmd, line, ""];
    JoinTwoLines(cmd, line);
  }

  lemma MixedEndingsLines(lay: Layout, it: BodyItem)
    requires lay == Layout("  ", "") && it == BodyItem(Layout("", "\r"), Entry("x", "1"))
    ensures CommandText(lay, "go", ["a", "b"]) + "\n" + EntryLine(it.lay, it.entry) + "\n"
         == "  /go a b\n- x: 1\r\n"
  {
    assert JoinArgs(["a", "b"]) == " a b" by {
      assert JoinArgs(["b"]) == " b";
    }
    assert CommandText(lay, "go", ["a", "b"]) == "  /go a b";
    assert EntryLine(it.lay, it.entry) == "- x: 1\r";
  }

  lemma MixedEndingsMap(it: BodyItem)
    requires it.entry == Entry("x", "1")
    ensures InsertAll(Stored([it])) == map["x" := "1"]
  {
    assert Stored([it]) == [Some(Entry("x", "1"))];
    assert Stored([it])[..0] == [];
  }

  /** Two lines, each ended by a line break. */
  lemma JoinTwoLines(a: string, b: string)
    ensures JoinLines([a, b, ""]) == a + "\n" + b + "\n"
  {
    var ls := [a, b, ""];
    assert ls[1..] == [b, ""] && ls[1..][1..] == [""];
    assert JoinLines(ls[1..]) == b + "\n";
    assert JoinLines(ls) == a + "\n" + (b + "\n");
  }

  /** A key with an empty value is stored. */
  lemma ExampleEmptyValue()
    ensures KvLine("- k:") == Some(Entry("k", ""))
  {
    assert "- k:" == "" + ("-" + " " + "k" + "" + ":" + "") + "";
    KvLineOf("", " ", "k", "", "", "");
  }

  /** The layout the comment at src/command.rs:42 names, `-   k :  v`,
      stores `k` and `v`, for any key and value. */
  lemma ExampleCommentForm(k: string, v: string)
    requires ValidKey(k) && ':' !in k && IsTrimmed(v)
    ensures KvLine("-   " + k + " :  " + v) == Some(Entry(k, v))
  {
    var l := CommentFormCut(k, v);
    KvLineOf("", "   ", k, " ", "  " + v, "");
    TrimPadded("  ", v, "");
  }

  lemma CommentFormCut(k: string, v: string) returns (l: string)
    ensures l == "-   " + k + " :  " + v
    ensures l == "" + ("-" + "   " + k + " " + ":" + ("  " + v)) + ""
    ensures "  " + v + "" == "  " + v
    ensures AllWhite("   ") && AllWhite(" ") && AllWhite("  ") && AllWhite("")
  {
    l := "-   " + k + " :  " + v;
    assert IsWhite(' ');
  }

  /** A body line without ':' stores nothing. */
  lemma ExampleNoValue()
    ensures KvLine("- novalue") == None
  {
    KvLineNoColon("- novalue");
  }

  /** A body line whose key is blank stores nothing. */
  lemma ExampleBlankKey()
    ensures KvLine("- : v") == None
  {
    assert "- : v" == "" + ("-" + " " + ":" + " v") + "";
    KvLineBlankKey("", " ", " v", "");
  }

  /** Neither `-k: v` nor `--k: v` is a body line. */
  lemma ExampleDashWithoutSpace()
    ensures !IsBodyLine("-k: v") && !IsBodyLine("--k: v")
  {
    assert "-k: v" == "" + "-" + "k: v";
    DashWithoutBlankEndsBody("", "k: v");
    assert "--k: v" == "" + "-" + "-k: v";
    DashWithoutBlankEndsBody("", "-k: v");
  }
}
