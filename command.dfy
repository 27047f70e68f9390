// The chat-command extractor: `Command` and `parse_command` (src/command.rs).
//
// The pattern of the source,
//
//   (?m)^\s*/(?P<cmd>[A-Za-z][\w-]*)(?P<shorts>[^\r\n]*)\r?\n(?P<body>(?:[ \t]*-[ \t]+.*(?:\r?\n|$))*)
//
// is written out as a scanner over the '\n'-separated segments of the
// message: a command line is a segment that a '\n' follows, and its body is
// the maximal run of body lines right after it.
module CommandParser {
  import opened Wrappers
  import opened Text

  /** A parsed command (src/command.rs:4-9); `kv` is unordered, like a `HashMap`. */
  datatype Command = Command(name: string, shortArgs: seq<string>, kv: map<string, string>)

  /** What the pattern captures on a command line as `cmd` and `shorts`. */
  datatype CommandLine = CommandLine(name: string, shorts: string)

  /** One occurrence of the pattern, as segment indices: its command line and
      the first segment after its body. */
  datatype Match = Match(line: nat, bodyEnd: nat)

  /** A key/value pair read from one body line. */
  datatype Entry = Entry(key: string, value: string)

  /** `[A-Za-z][\w-]*` */
  predicate ValidName(n: string)
  {
    n != [] && IsAsciiLetter(n[0]) && forall i :: 1 <= i < |n| ==> IsNameChar(n[i])
  }

  /** A key as stored in `kv`: non-empty and already trimmed. */
  predicate ValidKey(k: string)
  {
    k != [] && IsTrimmed(k)
  }

  // ---------------------------------------------------------------------
  // Scanning

  // `\s*/(?P<cmd>[A-Za-z][\w-]*)(?P<shorts>[^\r\n]*)\r?` on one segment: the
  // whitespace before '/' is skipped, the name is the longest run of name
  // characters, and `shorts` runs to the '\r' of a "\r\n" or to the end.
  function ParseCommandLine(c: string): (r: Option<CommandLine>)
    ensures r.Some? ==> ValidName(r.value.name)
    ensures r.Some? ==> forall i :: 0 <= i < |r.value.shorts| ==> NotCrLf(r.value.shorts[i])
    ensures r.Some? ==> r.value.shorts == [] || !IsNameChar(r.value.shorts[0])
    ensures r.Some? ==> || TrimStart(c) == "/" + r.value.name + r.value.shorts
                        || TrimStart(c) == "/" + r.value.name + r.value.shorts + "\r"
  {
    var t := TrimStart(c);
    if |t| >= 2 && t[0] == '/' && IsAsciiLetter(t[1]) then
      var k := RunEnd(t, 2, IsNameChar);
      var e := RunEnd(t, k, NotCrLf);
      if e == |t| || (e + 1 == |t| && t[e] == '\r') then
        var name, shorts := t[1..k], t[k..e];
        CommandLineSplit(t, k, e);
        Some(CommandLine(name, shorts))
      else
        None
    else
      None
  }

  /** The facts ParseCommandLine needs about the pieces it cuts `t` into. */
  lemma CommandLineSplit(t: string, k: nat, e: nat)
    requires |t| >= 2 && t[0] == '/' && IsAsciiLetter(t[1])
    requires k == RunEnd(t, 2, IsNameChar) && e == RunEnd(t, k, NotCrLf)
    ensures t == "/" + t[1..k] + t[k..e] + t[e..]
    ensures ValidName(t[1..k])
    ensures forall i :: 0 <= i < e - k ==> NotCrLf(t[k..e][i])
    ensures t[k..e] == [] || !IsNameChar(t[k..e][0])
  {
    var name, shorts := t[1..k], t[k..e];
    forall i | 1 <= i < |name|
      ensures IsNameChar(name[i])
    {
      assert name[i] == t[i + 1];
    }
    forall i | 0 <= i < |shorts|
      ensures NotCrLf(shorts[i])
    {
      assert shorts[i] == t[k + i];
    }
    assert t[..1] == "/";
    SplitThree(t, 1, k, e);
  }

  predicate IsCommandLine(c: string)
  {
    ParseCommandLine(c).Some?
  }

  /** `[ \t]*-[ \t]+.*` on one segment. A body line holds a '-', so it never
      trims to nothing. */
  predicate IsBodyLine(l: string): (b: bool)
    ensures b ==> Trim(l) != []
  {
    var p := RunEnd(l, 0, IsSpaceOrTab);
    p + 1 < |l| && l[p] == '-' && IsSpaceOrTab(l[p + 1])
  }

  /** What a segment can be for the pattern. */
  datatype LineKind = CommandLineKind | BodyLineKind | OtherLineKind

  function KindOf(l: string): LineKind
  {
    if IsCommandLine(l) then CommandLineKind
    else if IsBodyLine(l) then BodyLineKind
    else OtherLineKind
  }

  function Kinds(segs: seq<string>): (ks: seq<LineKind>)
    ensures |ks| == |segs|
    ensures forall i :: 0 <= i < |segs| ==> ks[i] == KindOf(segs[i])
  {
    seq(|segs|, i requires 0 <= i < |segs| => KindOf(segs[i]))
  }

  /** Segment `i` is a command line and a line break follows it. */
  predicate Opens(ks: seq<LineKind>, i: nat)
  {
    i + 1 < |ks| && ks[i] == CommandLineKind
  }

  /** The end of the maximal run of body lines that starts at segment `i`. */
  function BodyEnd(ks: seq<LineKind>, i: nat): (e: nat)
    requires i <= |ks|
    ensures i <= e <= |ks|
    ensures forall j :: i <= j < e ==> ks[j] == BodyLineKind
    ensures e < |ks| ==> ks[e] != BodyLineKind
    decreases |ks| - i
  {
    if i < |ks| && ks[i] == BodyLineKind then BodyEnd(ks, i + 1) else i
  }

  /** The first occurrence of the pattern at or after segment `from`, as the
      regex iterator's `next()` finds it: the first command line that a line
      break follows, and its body. */
  function NextMatch(ks: seq<LineKind>, from: nat): (r: Option<Match>)
    requires from <= |ks|
    ensures r.None? <==> forall j :: from <= j < |ks| ==> !Opens(ks, j)
    ensures r.Some? ==> && from <= r.value.line
                        && Opens(ks, r.value.line)
                        && (forall j :: from <= j < r.value.line ==> !Opens(ks, j))
                        && r.value.bodyEnd == BodyEnd(ks, r.value.line + 1)
    decreases |ks| - from
  {
    if from == |ks| then None
    else if Opens(ks, from) then Some(Match(from, BodyEnd(ks, from + 1)))
    else NextMatch(ks, from + 1)
  }

  /** How many matches the regex iterator yields from segment `from` on:
      each `next()` resumes the scan after the body of the match before. */
  function CountMatches(ks: seq<LineKind>, from: nat): (n: nat)
    requires from <= |ks|
    ensures n == 0 <==> forall j :: from <= j < |ks| ==> !Opens(ks, j)
    ensures n <= |ks| - from
    decreases |ks| - from
  {
    match NextMatch(ks, from)
    case None => 0
    case Some(m) => 1 + CountMatches(ks, m.bodyEnd)
  }

  // ---------------------------------------------------------------------
  // Field extraction

  /** `trim_start_matches('-')`: the rest of `s` after its leading run of '-'. */
  function TrimStartDashes(s: string): (r: string)
    ensures |r| <= |s|
    ensures r == s[|s| - |r|..]
    ensures forall i :: 0 <= i < |s| - |r| ==> s[i] == '-'
    ensures r == [] || r[0] != '-'
    decreases |s|
  {
    if s != [] && s[0] == '-' then
      var r := TrimStartDashes(s[1..]);
      assert forall i :: 1 <= i < |s| ==> s[1..][i - 1] == s[i];
      assert s[1..][|s| - 1 - |r|..] == s[|s| - |r|..];
      r
    else
      s
  }

  /** The `splitn(2, ':')` step of one body line: key and value are the
      trimmed text before and after the first ':'; no ':' or an empty key
      drops the line. */
  function SplitEntry(u: string): (r: Option<Entry>)
    ensures r.Some? ==> ValidKey(r.value.key) && ':' !in r.value.key
    ensures r.Some? ==> IsTrimmed(r.value.value)
    ensures r.None? <==> ':' !in u || AllWhite(u[..IndexOf(u, ':')])
  {
    if ':' in u then
      var i := IndexOf(u, ':');
      var k := Trim(u[..i]);
      if k == [] then None
      else
        KeyAvoidsColon(u, i);
        Some(Entry(k, Trim(u[i + 1..])))
    else
      None
  }

  /** The key SplitEntry cuts before the first ':' holds no ':'. */
  lemma KeyAvoidsColon(u: string, i: nat)
    requires i < |u| && forall j :: 0 <= j < i ==> u[j] != ':'
    ensures ':' !in Trim(u[..i])
  {
    var key := u[..i];
    assert forall j :: 0 <= j < |key| ==> key[j] == u[j];
    TrimAvoids(key, ':');
  }

  /** One body line (src/command.rs:38-54): trim it, strip its leading '-' run
      and the whitespace after that, then split it at its first ':'. */
  function KvLine(line: string): (r: Option<Entry>)
    ensures r.Some? ==> ValidKey(r.value.key) && ':' !in r.value.key
    ensures r.Some? ==> IsTrimmed(r.value.value)
  {
    var t := Trim(line);
    if t == [] then None else SplitEntry(TrimStart(TrimStartDashes(t)))
  }

  /** `kv.insert` of an entry, if there is one: its key now maps to its
      value, and every other key keeps what it had. */
  function Put(kv: map<string, string>, o: Option<Entry>): (r: map<string, string>)
    ensures match o
              case None => r == kv
              case Some(e) => && r.Keys == kv.Keys + {e.key} && r[e.key] == e.value
                              && forall k :: k in kv && k != e.key ==> r[k] == kv[k]
  {
    match o
    case Some(e) => kv[e.key := e.value]
    case None => kv
  }

  /** The `kv.insert` step of one body line (src/command.rs:46-53). */
  function Insert(kv: map<string, string>, line: string): (r: map<string, string>)
    ensures match KvLine(line)
              case None => r == kv
              case Some(e) => && r.Keys == kv.Keys + {e.key} && r[e.key] == e.value
                              && forall k :: k in kv && k != e.key ==> r[k] == kv[k]
  {
    Put(kv, KvLine(line))
  }

  /** The map the body lines build, each accepted line overwriting what an
      earlier one stored under the same key. */
  function KvOf(lines: seq<string>): (kv: map<string, string>)
    ensures forall k :: k in kv ==> ValidKey(k)
  {
    if lines == [] then map[] else Insert(KvOf(lines[..|lines| - 1]), lines[|lines| - 1])
  }

  lemma KvOfSnoc(lines: seq<string>, i: nat)
    requires i < |lines|
    ensures KvOf(lines[..i + 1]) == Insert(KvOf(lines[..i]), lines[i])
  {
    assert lines[..i + 1][..i] == lines[..i];
  }

  /** The command built from one occurrence (src/command.rs:23-62). */
  function Extract(line: string, body: seq<string>): (c: Command)
    requires IsCommandLine(line)
    ensures ValidName(c.name)
    ensures AllWords(c.shortArgs)
    ensures forall k :: k in c.kv ==> ValidKey(k)
  {
    var cl := ParseCommandLine(line).value;
    Command(cl.name, SplitWhitespace(cl.shorts), KvOf(body))
  }

  /** Segment kinds that fit the segments: a command-line kind marks a
      command line. */
  predicate KindsFit(ks: seq<LineKind>, segs: seq<string>)
  {
    && |ks| == |segs|
    && forall i :: 0 <= i < |ks| && ks[i] == CommandLineKind ==> IsCommandLine(segs[i])
  }

  /** The scan of src/command.rs:17-21, given the kind of every segment: a
      command only when there is exactly one occurrence of the pattern. */
  function ScanKinds(ks: seq<LineKind>, segs: seq<string>): (r: Option<Command>)
    requires KindsFit(ks, segs)
    ensures r.Some? ==> ValidName(r.value.name)
    ensures r.Some? ==> AllWords(r.value.shortArgs)
    ensures r.Some? ==> forall k :: k in r.value.kv ==> ValidKey(k)
  {
    match NextMatch(ks, 0)
    case None => None
    case Some(m) =>
      if NextMatch(ks, m.bodyEnd).Some? then None
      else Some(Extract(segs[m.line], segs[m.line + 1..m.bodyEnd]))
  }

  /** The scan over the segments of a message. */
  function Scan(segs: seq<string>): (r: Option<Command>)
    ensures r.Some? ==> ValidName(r.value.name)
    ensures r.Some? ==> AllWords(r.value.shortArgs)
    ensures r.Some? ==> forall k :: k in r.value.kv ==> ValidKey(k)
  {
    ScanKinds(Kinds(segs), segs)
  }

  /** `parse_command` (src/command.rs:11-63). */
  function Parse(input: string): (r: Option<Command>)
    ensures r.Some? ==> ValidName(r.value.name)
    ensures r.Some? ==> AllWords(r.value.shortArgs)
    ensures r.Some? ==> forall k :: k in r.value.kv ==> ValidKey(k)
  {
    Scan(SplitLines(input))
  }

  // ---------------------------------------------------------------------
  // The source's imperative steps

  /** The `kv` loop of src/command.rs:35-56: a map filled line by line. */
  method BuildKv(lines: seq<string>) returns (kv: map<string, string>)
    ensures kv == KvOf(lines)
  {
    kv := map[];
    for i := 0 to |lines|
      invariant kv == KvOf(lines[..i])
    {
      KvOfSnoc(lines, i);
      match KvLine(lines[i]) {
        case Some(e) =>
          kv := kv[e.key := e.value];
        case None =>
      }
    }
    assert lines[..|lines|] == lines;
  }

  /** `parse_command` as the source runs it: take the iterator's first match,
      give up if `next()` yields a second, then build the fields. */
  method ParseCommand(input: string) returns (r: Option<Command>)
    ensures r == Parse(input)
  {
    var segs := SplitLines(input);
    var ks := Kinds(segs);
    var first := NextMatch(ks, 0);
    if first.None? {
      return None;
    }
    var m := first.value;
    var second := NextMatch(ks, m.bodyEnd);
    if second.Some? {
      return None;
    }
    var cl := ParseCommandLine(segs[m.line]).value;
    var shortArgs := SplitWhitespace(cl.shorts);
    var kv := BuildKv(segs[m.line + 1..m.bodyEnd]);
    r := Some(Command(cl.name, shortArgs, kv));
  }
}
