# A verified model of `parse_command`

This project models the chat-command extractor from `src/command.rs`.
The extractor is `parse_command` and the `Command` record it returns.

A chat message holds a command when one line has the form
`/name args...` and a line break ends it. An optional body of
`- key: value` lines may follow that line. The function returns:

- the command's name;
- the whitespace-separated words after the name (`short_args`);
- the map that the body lines build (`kv`).

If the message holds no such command, or more than one, it returns
nothing.

The model is written in Dafny in four files:

| file | module | contents |
|---|---|---|
| `wrappers.dfy` | `Wrappers` | `Option`, standing for Rust's `Option`. |
| `text.dfy` | `Text` | The `str` operations the parser uses: `trim`, `trim_start`, `split_whitespace`, and the first-`:` split. It also splits a message at its `'\n'` characters. Whitespace is the Unicode `White_Space` class, which is what `\s`, `char::is_whitespace`, `trim` and `split_whitespace` all use. |
| `command.dfy` | `CommandParser` | The `Command` datatype and the parser. |
| `properties.dfy` | `CommandProperties` | What the parser promises, stated as lemmas over the model. |

### How the model reads the pattern

The regular expression of `src/command.rs:14` is written out as a scanner
over the `'\n'`-separated segments of the message.

- **Command line.** A segment is a command line when it has this shape:
  1. leading whitespace;
  2. `/`;
  3. an ASCII letter, then the longest run of `[\w-]`;
  4. a rest with no `\r` or `\n`;
  5. at most one `\r`.

  It opens an occurrence only when a line break follows it, which means it
  is not the last segment.
- **Body.** The body of an occurrence is the maximal run of body lines
  after its command line. A body line is `[ \t]*-[ \t]+.*`.
- **Repeated search.** The next search resumes after the body. This is how
  `captures_iter` finds the next non-overlapping match.
- **Leading blank lines.** The pattern's `^\s*` can also span blank lines
  before the command line. In the scan that is the same as skipping
  segments that are not command lines.

The source code and the comment at `src/command.rs:42` disagree about
body lines.

- The comment says `-k: v` is accepted.
- The pattern at `src/command.rs:14` requires a space or a tab after the `-`.

So `-k: v` and `--k: v` end the body and add nothing. The model follows the
pattern. `CommandProperties.DashWithoutBlankEndsBody` and
`CommandProperties.ExampleDashWithoutSpace` state this.

### The two forms of the parser

The parser is given in two forms.

- **`CommandParser.Parse`** is a function. It goes through `Scan`,
  `ScanKinds`, `NextMatch`, `Extract` and `KvOf`. The lemmas are about
  this form.
- **`CommandParser.ParseCommand`** is a method that follows the source's
  steps. It steps the iterator twice and fills the `kv` map in a loop
  (`CommandParser.BuildKv`). Its contract ties it to `Parse`.

### Writing a command back

`CommandProperties.Render` writes a command in the format the pattern
documents. It writes the command line `/name args`, then one
`- key: value` line per entry, then a final line break. A `Layout` says how
one line is laid out, and each line has its own:

- the whitespace before the `/` of the command line, or the spaces and
  tabs before the `-` of a body line;
- whether the line ends in `"\n"` or `"\r\n"`.

`CommandProperties.RenderParse` states that parsing the written message
gives back the name, the arguments and the map that the entries build in
order.

## Model

| member | source | states |
|---|---|---|
| CommandParser.ParseCommandLine | src/command.rs:14 | An accepted line has this shape: leading whitespace, '/', then a name of the form `[A-Za-z][\w-]*`. Then comes a rest that holds no '\r' or '\n' and does not carry on the name. At most one '\r' may end the line. |
| CommandParser.IsBodyLine | src/command.rs:14 | The body part of the pattern, `[ \t]*-[ \t]+.*`, on one segment. A body line is never blank, so the skip of empty lines at src/command.rs:39-41 never applies to it. |
| CommandParser.BodyEnd | src/command.rs:14 | The body that starts at a segment is the maximal run of body lines: every line inside it is a body line, and the line after it is not. |
| CommandParser.NextMatch | src/command.rs:17-19 | The iterator finds no match exactly when no later segment is a command line with a line break after it. Otherwise the match is the first such segment, together with its maximal body. |
| CommandParser.CountMatches | src/command.rs:17-21 | The number of non-overlapping matches is zero exactly when no segment opens a match. It is never more than the number of segments. |
| CommandParser.TrimStartDashes | src/command.rs:43 | `trim_start_matches('-')` leaves a suffix of its input: it removes only '-' characters from the front, and what it leaves does not start with '-'. |
| CommandParser.SplitEntry | src/command.rs:44-53 | Gives no entry exactly when there is no ':', or when the text before the first ':' is all whitespace. Otherwise the key is non-empty, trimmed and free of ':', and the value is trimmed. |
| CommandParser.KvLine | src/command.rs:38-54 | An entry read from one body line has a non-empty trimmed key without ':' and a trimmed value. |
| CommandParser.Put | src/command.rs:50 | `kv.insert`: the key now maps to the value, and every other key keeps its value. With no entry the map is unchanged. |
| CommandParser.Insert | src/command.rs:46-53 | One body line's step: if the line stores an entry, its key now maps to its value and every other key keeps its value; otherwise the map is unchanged. |
| CommandParser.KvOf | src/command.rs:35-56 | Every key in the body's map is non-empty and trimmed. |
| CommandParser.Extract | src/command.rs:23-62 | The command built from one match has a valid name, arguments that are whitespace-free non-empty words, and valid keys. |
| CommandParser.ScanKinds | src/command.rs:17-21 | The scan over segment kinds yields only commands with a valid name, word arguments and valid keys. |
| CommandParser.Scan | src/command.rs:17-62 | The scan over the segments of a message has the same guarantees. |
| CommandParser.Parse | src/command.rs:11-63 | Any command returned has a name of the form `[A-Za-z][\w-]*`, non-empty whitespace-free arguments, and non-empty trimmed keys. |
| CommandParser.BuildKv | src/command.rs:35-56 | The loop that inserts into `kv` line by line builds exactly the map KvOf defines. |
| CommandParser.ParseCommand | src/command.rs:11-63 | Stepping the iterator twice and building the fields gives exactly what Parse gives, for every input. |
| CommandProperties.ParseExactlyOne | src/command.rs:17-21 | A message yields a command exactly when the pattern occurs in it once, counted by the iterator or by the segments that open an occurrence. Zero occurrences and two or more both yield nothing. |
| CommandProperties.CountIsOpeners | src/command.rs:17-21 | The iterator yields exactly as many matches as there are segments that are command lines with a line break after them, each counted once. |
| CommandProperties.ScanKindsOne | src/command.rs:17-21 | The scan yields a command exactly when exactly one segment is a command line with a line break after it. |
| CommandProperties.ScanKindsSome | src/command.rs:17-20 | The scan yields a command exactly when the iterator's first step finds a match and its second step finds none. |
| CommandProperties.OneOpener | src/command.rs:17-21 | A first match with no match after its body is the same as exactly one segment opening an occurrence. |
| CommandProperties.TwoCommandLinesAnywhere | src/command.rs:19-21 | Two command lines anywhere in a message, each followed by a line break, make it yield nothing, whatever lies between or around them. |
| CommandProperties.NoLineBreakNoCommand | src/command.rs:14 | A message without a '\n' yields no command: the line break after the command line is required. |
| CommandProperties.TwoCommandLines | src/command.rs:19-21 | Two command lines in a row, each ended by a line break, yield nothing, whatever follows. The first command is not picked. |
| CommandProperties.UnterminatedLastLine | src/command.rs:14-18 | A command line followed by a last line with no line break after it yields that one command with an empty map. This holds when the last line is not a body line, even if it looks like a command. |
| CommandProperties.PrefixLineIgnored | src/command.rs:14 | A line before the message that is not a command line does not change the result. |
| CommandProperties.BlankLineIgnored | src/command.rs:14 | Blank lines before the command line do not change the result, because `^\s*` tolerates them. |
| CommandProperties.NextMatchShift | src/command.rs:17-19 | Putting a segment in front moves every later match down by one segment. |
| CommandProperties.KindsSkip | src/command.rs:17-21 | The scan ignores a first segment that is not a command line. |
| CommandProperties.ParseCommandLineOf | src/command.rs:14 | Any whitespace, '/', a valid name, a rest without line breaks that does not carry on the name, and an optional '\r' read back as exactly that name and rest. This is the converse of ParseCommandLine's contract. |
| CommandProperties.BodyLineShape | src/command.rs:14 | IsBodyLine holds exactly when `[ \t]*-[ \t]+` matches at the start of the line, for some position of the '-'. |
| CommandProperties.BlankLineKind | src/command.rs:14 | A whitespace-only line is neither a command line nor a body line, so it ends the body. |
| CommandProperties.DashWithoutBlankEndsBody | src/command.rs:14 | A '-' that no space or tab follows, after leading spaces and tabs, does not make a body line. |
| CommandProperties.KvLinePadded | src/command.rs:38 | Whitespace around a body line, including the '\r' of a "\r\n" ending, does not change what the line stores. |
| CommandProperties.SplitEntryAt | src/command.rs:44-50 | Text without ':', then ':' and any rest, gives no entry when that text is all whitespace, and otherwise the trimmed text as key and the trimmed rest as value. |
| CommandProperties.SplitEntryOf | src/command.rs:44-50 | A non-empty trimmed key without ':', then any whitespace, ':' and any rest, gives that key and the trimmed rest. |
| CommandProperties.KvLineOf | src/command.rs:38-50 | A line of the form whitespace, '-', at least one whitespace character, a key, whitespace, ':', any rest, whitespace stores that key with the trimmed rest. The key must be non-empty, trimmed and free of ':'. This covers `- k: v` and `-   k :  v`. |
| CommandProperties.KvLineNoColon | src/command.rs:44-53 | A body line without ':' stores nothing. |
| CommandProperties.KvLineBlankKey | src/command.rs:47-50 | A body line whose text between the dash and the first ':' is all whitespace stores nothing. |
| CommandProperties.KvOfInsertAll | src/command.rs:35-56 | The body's map is the entries of its lines inserted in order into an empty map. |
| CommandProperties.InsertAllKeys | src/command.rs:49-50 | A key is in the map exactly when some entry is stored under it. |
| CommandProperties.InsertAllLastWins | src/command.rs:50 | Under each key, the map holds the value of the last entry stored under that key. |
| CommandProperties.KvOfKeys | src/command.rs:35-56 | A key is in `kv` exactly when some body line stores an entry under it. |
| CommandProperties.KvOfLookup | src/command.rs:35-56 | When line i stores an entry under a key and no later line does, `kv` holds that key with line i's value: the last line wins. |
| CommandProperties.RenderParse | src/command.rs:11-63 | A message written as `/name args` plus one `- key: value` line per entry parses back to that name and those arguments. The command line may be indented by any whitespace and each body line by its own spaces and tabs. Each line ends in "\n" or "\r\n" independently of the others. Its map is the one the entries build in order, later keys winning. |
| CommandProperties.ExampleNoCommand | src/command.rs:17-18 | `hello world` yields no command. |
| CommandProperties.ExampleNoLineBreak | src/command.rs:14 | `/go`, with no line break after it, yields no command. |
| CommandProperties.ExampleTwoCommands | src/command.rs:19-21 | `/a\n/b\n` yields no command, for any two valid names. |
| CommandProperties.ExampleSecondUnterminated | src/command.rs:14-21 | `/a\n/b` yields the command `a` with no arguments and no entries, for any two valid names. |
| CommandProperties.ExampleEmptyValue | src/command.rs:44-50 | `- k:` stores the key `k` with the empty value. |
| CommandProperties.ExampleMixedEndings | src/command.rs:12-14 | `"  /go a b\n- x: 1\r\n"`, with an indented command line ended by "\n" and a body line ended by "\r\n", yields `go` with arguments `a`, `b` and the map `x ↦ 1`. |
| CommandProperties.ExampleCommentForm | src/command.rs:42-50 | `-   k :  v` stores the key `k` with the value `v`. |
| CommandProperties.ExampleNoValue | src/command.rs:53 | `- novalue` stores nothing. |
| CommandProperties.ExampleBlankKey | src/command.rs:49 | `- : v` stores nothing. |
| CommandProperties.ExampleDashWithoutSpace | src/command.rs:14 | Neither `-k: v` nor `--k: v` is a body line. |
| Text.TrimStart | src/command.rs:43 | `trim_start` removes a whitespace prefix only. What it leaves is empty or starts with a non-whitespace character. |
| Text.Trim | src/command.rs:38 | `trim` leaves the empty string exactly when its input is all whitespace. What it leaves never begins or ends with whitespace. |
| Text.TrimFixed | src/command.rs:47-48 | Trimming leaves a text unchanged exactly when the text is already trimmed. |
| Text.TrimIdempotent | src/command.rs:38 | Trimming twice is trimming once. |
| Text.TrimIgnoresPadding | src/command.rs:38 | Whitespace added around a text does not change what trimming it leaves. |
| Text.TrimAbsorbsCr | src/command.rs:36-38 | Trimming removes the '\r' that `lines()` would strip from a "\r\n" ending. |
| Text.IndexOf | src/command.rs:44 | The position where `splitn(2, ':')` cuts holds ':', and no earlier character is ':'. |
| Text.SplitLines | src/command.rs:14 | The segments of a message hold no '\n', and there is at least one. |
| Text.JoinSplitLines | src/command.rs:14 | Joining the segments with '\n' gives the message back. |
| Text.SplitJoinLines | src/command.rs:14 | Segments without '\n', joined with '\n', split back into the same segments. |
| Text.SplitWhitespace | src/command.rs:25-33 | `split_whitespace` yields non-empty words without whitespace. It yields nothing exactly when its input is all whitespace. |
| Text.SplitWhitespaceStep | src/command.rs:29 | Whitespace, one word, then a rest that is empty or starts with whitespace, splits into that word followed by the split of the rest. |
| Text.SplitWhitespaceOfInterleave | src/command.rs:29 | Words separated by whitespace split into exactly those words, in order. |
| Text.InterleaveOfSplitWhitespace | src/command.rs:29 | Every text is its words, in order, interleaved with whitespace gaps. Nothing is lost or added. |
| Text.SplitJoinArgs | src/command.rs:25-33 | Words joined with single spaces split back into the same words. |

## Left out

- **`src/toby.rs`** is not part of this model. It is the bot transport that
  receives messages and calls the parser. That is asynchronous network code
  over a foreign SDK.
- **`examples/simple_usage.rs`** is not part of this model. It is an entry
  point with no parsing logic.
- **The general regular-expression engine.** Compiling the pattern, and the
  `unwrap` of `Regex::new`, are not modelled. Only this one pattern is
  modelled, as a line scanner.
- ValidName: `\w` in the name is taken to be ASCII word characters
  (IsWordChar). The Rust `regex` crate's `\w` is Unicode by default, so a
  name that goes on with a non-ASCII letter or digit is cut shorter in the
  model than in the source. The cut-off part then starts `short_args`.
  For `/café x` the model gives the name `caf` and the arguments `é` and
  `x`. The source gives the name `café` and the argument `x`.
- Parse: `kv` is a Dafny `map`. The iteration order of the `HashMap` is not
  modelled, and nothing observable depends on it.
- **Not modelled because nothing observable depends on them.** The derived
  `Debug` and `Clone` of `Command`, and the allocation of owned `String`s.
- **`lines()` on the body.**
  - It strips the `'\r'` of a `"\r\n"` ending. The model does not strip it
    separately, because `trim` removes it anyway (Text.TrimAbsorbsCr).
  - The empty-line skip of `src/command.rs:39-41` is never taken for a
    body line, because every body line holds a '-' (CommandParser.IsBodyLine).
    KvLine still has that branch, so it is defined on every text.
