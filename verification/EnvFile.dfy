/** Environment files: the parser (deployment/render_realm.py:14-23), the writer of the
    private one (deployment/prepare_private_env.py:69-76) and the tag editor
    (deployment/ops/set_image_tag.py:18-32). Reading with universal newlines first changes
    nothing here, since every line break it rewrites is a line boundary anyway. */
module EnvFile {
  import opened Wrappers
  import opened PythonText

  type Bindings = map<string, string>

  datatype EnvError = InvalidFile | UnsafeValue | BadSha | NotOneTag

  // ----- splitlines

  predicate OneLine(s: string) {
    forall i :: 0 <= i < |s| ==> !IsBoundary(s[i])
  }

  // Where the first line ends.
  function LineEnd(s: string): (n: nat)
    ensures n <= |s|
    ensures forall i :: 0 <= i < n ==> !IsBoundary(s[i])
    ensures n < |s| ==> IsBoundary(s[n])
  {
    if s == "" || IsBoundary(s[0]) then 0 else 1 + LineEnd(s[1..])
  }

  // CR LF is one boundary; a boundary at the end begins no further line.
  function SplitLines(s: string): (lines: seq<string>)
    decreases |s|
  {
    if s == "" then []
    else
      var n := LineEnd(s);
      if n == |s| then [s]
      else
        var next := if s[n] == '\r' && n + 1 < |s| && s[n + 1] == '\n' then n + 2 else n + 1;
        [s[..n]] + SplitLines(s[next..])
  }

  predicate AllOneLine(lines: seq<string>) {
    forall i :: 0 <= i < |lines| ==> OneLine(lines[i])
  }

  lemma {:induction false} SplitLinesSound(s: string)
    ensures AllOneLine(SplitLines(s))
    decreases |s|
  {
    if s != "" && LineEnd(s) < |s| {
      var n := LineEnd(s);
      var next := if s[n] == '\r' && n + 1 < |s| && s[n + 1] == '\n' then n + 2 else n + 1;
      SplitLinesSound(s[next..]);
    }
  }

  // What ends a line before the rest: CR LF together, or any other boundary alone.
  ghost predicate IsBreak(end: string, rest: string) {
    end == "\r\n" || (|end| == 1 && IsBoundary(end[0]) && !(end == "\r" && rest != "" && rest[0] == '\n'))
  }

  lemma LineEndAt(line: string, end: string, rest: string)
    requires OneLine(line) && end != "" && IsBoundary(end[0])
    ensures LineEnd(line + (end + rest)) == |line|
  {
    var s := line + (end + rest);
    var n := LineEnd(s);
    assert forall i :: 0 <= i < |line| ==> s[i] == line[i];
    assert s[|line|] == end[0];
  }

  lemma SplitWhole(line: string)
    requires OneLine(line)
    ensures SplitLines("") == [] && (line != "" ==> SplitLines(line) == [line])
  {
    assert LineEnd(line) == |line|;
  }

  /** A text is split at its line breaks: no text has no lines, a text without a break is one line,
      and a break takes itself and the line before it off. */
  lemma SplitAtBreak(line: string, end: string, rest: string)
    requires OneLine(line)
    ensures SplitLines("") == [] && (line != "" ==> SplitLines(line) == [line])
    ensures IsBreak(end, rest) ==> SplitLines(line + (end + rest)) == [line] + SplitLines(rest)
  {
    SplitWhole(line);
    if IsBreak(end, rest) {
      TakeBreak(line, end, rest);
    }
  }

  lemma SplitStep(s: string, n: nat, next: nat)
    requires n == LineEnd(s) < |s|
    requires next == if s[n] == '\r' && n + 1 < |s| && s[n + 1] == '\n' then n + 2 else n + 1
    ensures SplitLines(s) == [s[..n]] + SplitLines(s[next..])
  {
  }

  lemma BreakWidth(end: string, rest: string)
    requires IsBreak(end, rest)
    ensures var s := end + rest;
            s != "" && IsBoundary(s[0]) && s[|end|..] == rest
            && |end| == (if s[0] == '\r' && 1 < |s| && s[1] == '\n' then 2 else 1)
  {
  }

  lemma TakeBreak(line: string, end: string, rest: string)
    requires OneLine(line) && IsBreak(end, rest)
    ensures SplitLines(line + (end + rest)) == [line] + SplitLines(rest)
  {
    var tail, n := end + rest, |line|;
    var s := line + tail;
    BreakWidth(end, rest);
    LineEndAt(line, end, rest);
    assert s[n] == tail[0] && (n + 1 < |s| ==> s[n + 1] == tail[1]);
    SplitStep(s, n, n + |end|);
    assert s[..n] == line && s[n + |end|..] == rest;
  }

  lemma SplitFirst(line: string, rest: string)
    requires OneLine(line)
    ensures SplitLines(line + "\n" + rest) == [line] + SplitLines(rest)
  {
    assert line + "\n" + rest == line + ("\n" + rest);
    SplitAtBreak(line, "\n", rest);
  }

  function Unlines(lines: seq<string>): string {
    if lines == [] then "" else lines[0] + "\n" + Unlines(lines[1..])
  }

  lemma {:induction false} SplitUnlines(lines: seq<string>)
    requires AllOneLine(lines)
    ensures SplitLines(Unlines(lines)) == lines
  {
    if lines != [] {
      assert AllOneLine(lines[1..]);
      SplitUnlines(lines[1..]);
      SplitFirst(lines[0], Unlines(lines[1..]));
      assert [lines[0]] + lines[1..] == lines;
    }
  }

  // ----- one line

  function IndexOf(s: string, c: char): (n: nat)
    ensures n <= |s|
    ensures n < |s| ==> s[n] == c
    ensures forall i :: 0 <= i < n ==> s[i] != c
  {
    if s == "" || s[0] == c then 0 else 1 + IndexOf(s[1..], c)
  }

  // str.strip(c)
  function StripChar(s: string, c: char): string {
    StripCharRight(StripCharLeft(s, c), c)
  }

  function StripCharLeft(s: string, c: char): string {
    if s != "" && s[0] == c then StripCharLeft(s[1..], c) else s
  }

  function StripCharRight(s: string, c: char): string {
    if s != "" && s[|s| - 1] == c then StripCharRight(s[..|s| - 1], c) else s
  }

  function Unquote(value: string): string {
    StripChar(StripChar(Strip(value), '"'), '\'')
  }

  datatype Line = Ignored | Binding(key: string, value: string) | Malformed

  function ParseLine(raw: string): Line {
    var line := Strip(raw);
    if line == "" || line[0] == '#' then Ignored
    else
      var n := IndexOf(line, '=');
      if n == |line| then Malformed else Binding(line[..n], Unquote(line[n + 1..]))
  }

  lemma {:induction false} StripCharLeftMeans(s: string, c: char) returns (i: nat)
    ensures i <= |s| && StripCharLeft(s, c) == s[i..]
    ensures (forall k :: 0 <= k < i ==> s[k] == c) && (i < |s| ==> s[i] != c)
  {
    if s != "" && s[0] == c {
      var n := StripCharLeftMeans(s[1..], c);
      i := n + 1;
      assert forall k :: 1 <= k < i ==> s[k] == s[1..][k - 1];
    } else {
      i := 0;
    }
  }

  lemma {:induction false} StripCharRightMeans(s: string, c: char) returns (j: nat)
    ensures j <= |s| && StripCharRight(s, c) == s[..j]
    ensures (forall k :: j <= k < |s| ==> s[k] == c) && (j > 0 ==> s[j - 1] != c)
  {
    if s != "" && s[|s| - 1] == c {
      j := StripCharRightMeans(s[..|s| - 1], c);
    } else {
      j := |s|;
    }
  }

  // `inner` is `s` without the characters c at its ends.
  ghost predicate Peeled(s: string, c: char, inner: string) {
    exists i: nat, j: nat :: PeeledAt(s, c, inner, i, j)
  }

  ghost predicate PeeledAt(s: string, c: char, inner: string, i: nat, j: nat) {
    && i <= j <= |s| && inner == s[i..j]
    && (forall k :: 0 <= k < i || j <= k < |s| ==> s[k] == c)
    && (i < j ==> s[i] != c && s[j - 1] != c)
  }

  lemma StripCharPeels(s: string, c: char)
    ensures Peeled(s, c, StripChar(s, c))
  {
    var i := StripCharLeftMeans(s, c);
    var left := StripCharLeft(s, c);
    var n := StripCharRightMeans(left, c);
    assert forall k :: 0 <= k < |left| ==> left[k] == s[i + k];
    forall k | i + n <= k < |s| ensures s[k] == c {
      assert s[k] == left[k - i];
    }
    assert PeeledAt(s, c, StripChar(s, c), i, i + n);
  }

  // A line's binding: the key up to the first equals sign, then the value without blanks around
  // it, without the double quotes at its ends, and without the single quotes inside those.
  ghost predicate Binds(line: string, key: string, value: string) {
    && |key| < |line| && key == line[..|key|] && line[|key|] == '=' && '=' !in key
    && exists unquoted :: Peeled(Strip(line[|key| + 1..]), '"', unquoted) && Peeled(unquoted, '\'', value)
  }

  /** What a line says: nothing when it is blank or its first character is a number sign; without
      an equals sign it is malformed; and any other line binds its key to its unquoted value. */
  lemma LineMeans(raw: string)
    ensures ParseLine(raw) == Ignored <==> Strip(raw) == "" || Strip(raw)[0] == '#'
    ensures ParseLine(raw) == Malformed <==> Strip(raw) != "" && Strip(raw)[0] != '#' && '=' !in Strip(raw)
    ensures ParseLine(raw).Binding? ==> Binds(Strip(raw), ParseLine(raw).key, ParseLine(raw).value)
  {
    var line := Strip(raw);
    var n := IndexOf(line, '=');
    if n < |line| {
      var text := Strip(line[n + 1..]);
      StripCharPeels(text, '"');
      StripCharPeels(StripChar(text, '"'), '\'');
    }
  }

  // ----- parse_env

  function Bind(bindings: Bindings, line: Line): Result<Bindings, EnvError> {
    match line
    case Ignored => Ok(bindings)
    case Malformed => Err(InvalidFile)
    case Binding(key, value) => Ok(bindings[key := value])
  }

  function Then(parsed: Result<Bindings, EnvError>, line: Line): Result<Bindings, EnvError> {
    if parsed.Ok? then Bind(parsed.value, line) else parsed
  }

  function ParseLines(lines: seq<string>): Result<Bindings, EnvError> {
    if lines == [] then Ok(map[]) else Then(ParseLines(lines[..|lines| - 1]), ParseLine(lines[|lines| - 1]))
  }

  function ParseEnv(text: string): Result<Bindings, EnvError> {
    ParseLines(SplitLines(text))
  }

  lemma {:induction false} OneBadLine(lines: seq<string>, i: nat)
    requires i < |lines| && ParseLine(lines[i]).Malformed?
    ensures ParseLines(lines) == Err(InvalidFile)
  {
    if i < |lines| - 1 {
      OneBadLine(lines[..|lines| - 1], i);
    } else {
      ErrorIsInvalid(lines[..|lines| - 1]);
    }
  }

  lemma {:induction false} ErrorIsInvalid(lines: seq<string>)
    ensures ParseLines(lines).Err? ==> ParseLines(lines).error == InvalidFile
  {
    if lines != [] {
      ErrorIsInvalid(lines[..|lines| - 1]);
    }
  }

  // What the lines say, one by one.
  ghost predicate Says(lines: seq<string>, parsed: seq<Line>) {
    |parsed| == |lines| && forall i :: 0 <= i < |lines| ==> parsed[i] == ParseLine(lines[i])
  }

  // The last line that binds the key binds it to this value.
  ghost predicate BoundLast(parsed: seq<Line>, key: string, value: string) {
    exists i :: 0 <= i < |parsed| && BindsLast(parsed, key, value, i)
  }

  ghost predicate BindsLast(parsed: seq<Line>, key: string, value: string, i: nat)
    requires i < |parsed|
  {
    && parsed[i] == Binding(key, value)
    && forall k :: i < k < |parsed| && parsed[k].Binding? ==> parsed[k].key != key
  }

  lemma BoundSnoc(front: seq<Line>, last: Line, key: string, value: string)
    ensures BoundLast(front + [last], key, value)
       <==> if last.Binding? && last.key == key then last.value == value else BoundLast(front, key, value)
  {
    var parsed := front + [last];
    assert parsed[|front|] == last && forall k :: 0 <= k < |front| ==> front[k] == parsed[k];
    if BoundLast(parsed, key, value) {
      var i :| 0 <= i < |parsed| && BindsLast(parsed, key, value, i);
      assert i < |front| ==> BindsLast(front, key, value, i);
    }
    if last == Binding(key, value) {
      assert BindsLast(parsed, key, value, |front|);
    } else if BoundLast(front, key, value) && !(last.Binding? && last.key == key) {
      var i :| 0 <= i < |front| && BindsLast(front, key, value, i);
      assert BindsLast(parsed, key, value, i);
    }
  }

  // The bindings hold each key with its last value, and no other key.
  ghost predicate HoldsLast(bindings: Bindings, parsed: seq<Line>) {
    forall key, value {:trigger BoundLast(parsed, key, value)} ::
      key in bindings && bindings[key] == value <==> BoundLast(parsed, key, value)
  }

  lemma BindHolds(bindings: Bindings, front: seq<Line>, last: Line, next: Bindings)
    requires HoldsLast(bindings, front) && Bind(bindings, last) == Ok(next)
    ensures HoldsLast(next, front + [last])
  {
    forall key, value
      ensures key in next && next[key] == value <==> BoundLast(front + [last], key, value)
    {
      BoundSnoc(front, last, key, value);
      assert key in bindings && bindings[key] == value <==> BoundLast(front, key, value);
    }
  }

  lemma ParseLast(lines: seq<string>, parsed: seq<Line>)
    requires lines != [] && Says(lines, parsed)
    ensures ParseLines(lines) == Then(ParseLines(lines[..|lines| - 1]), parsed[|parsed| - 1])
    ensures Says(lines[..|lines| - 1], parsed[..|parsed| - 1])
  {
  }

  /** A file is invalid exactly when one of its lines is malformed; a valid one holds the keys its
      lines bind, each with the value of the last line that binds it. */
  lemma {:induction false} LinesMean(lines: seq<string>, parsed: seq<Line>)
    requires Says(lines, parsed)
    ensures ParseLines(lines) == Err(InvalidFile) <==> Malformed in parsed
    ensures ParseLines(lines).Err? ==> ParseLines(lines) == Err(InvalidFile)
    ensures ParseLines(lines).Ok? ==> HoldsLast(ParseLines(lines).value, parsed)
  {
    if lines != [] {
      var front, last := parsed[..|parsed| - 1], parsed[|parsed| - 1];
      ParseLast(lines, parsed);
      LinesMean(lines[..|lines| - 1], front);
      assert parsed == front + [last];
      if ParseLines(lines).Ok? {
        BindHolds(ParseLines(lines[..|lines| - 1]).value, front, last, ParseLines(lines).value);
      }
    }
  }

  method ParseEnvFile(text: string) returns (parsed: Result<Bindings, EnvError>)
    ensures parsed == ParseEnv(text)
  {
    var values: Bindings := map[];
    var lines := SplitLines(text);
    for i := 0 to |lines|
      invariant ParseLines(lines[..i]) == Ok(values)
    {
      assert lines[..i + 1][..i] == lines[..i];
      var line := Strip(lines[i]);
      if line != "" && line[0] != '#' {
        var n := IndexOf(line, '=');
        if n == |line| {
          OneBadLine(lines, i);
          return Err(InvalidFile);
        }
        values := values[line[..n] := Unquote(line[n + 1..])];
      }
    }
    assert lines[..|lines|] == lines;
    return Ok(values);
  }

  // ----- the writer

  datatype Pair = Pair(key: string, value: string)

  function LineOf(p: Pair): string {
    p.key + "='" + p.value + "'"
  }

  function LinesOf(pairs: seq<Pair>): seq<string> {
    if pairs == [] then [] else LinesOf(pairs[..|pairs| - 1]) + [LineOf(pairs[|pairs| - 1])]
  }

  predicate Serializable(value: string) {
    '\n' !in value && '\'' !in value
  }

  predicate AllSerializable(pairs: seq<Pair>) {
    forall i :: 0 <= i < |pairs| ==> Serializable(pairs[i].value)
  }

  function AsMap(pairs: seq<Pair>): Bindings {
    if pairs == [] then map[]
    else AsMap(pairs[..|pairs| - 1])[pairs[|pairs| - 1].key := pairs[|pairs| - 1].value]
  }

  lemma {:induction false} UnlinesSnoc(lines: seq<string>, line: string)
    ensures Unlines(lines + [line]) == Unlines(lines) + line + "\n"
  {
    if lines == [] {
      assert [] + [line] == [line];
      assert Unlines([line]) == line + "\n" + Unlines([]);
    } else {
      assert (lines + [line])[1..] == lines[1..] + [line];
      UnlinesSnoc(lines[1..], line);
    }
  }

  /** The written text is one line for each pair: the key, and the value in single quotes. */
  lemma WrittenGrows(pairs: seq<Pair>, p: Pair)
    ensures Unlines(LinesOf([])) == ""
    ensures Unlines(LinesOf(pairs + [p])) == Unlines(LinesOf(pairs)) + (p.key + "='" + p.value + "'\n")
  {
    assert (pairs + [p])[..|pairs|] == pairs;
    UnlinesSnoc(LinesOf(pairs), LineOf(p));
    assert LineOf(p) + "\n" == p.key + "='" + p.value + "'\n";
  }

  method WritePrivateEnv(pairs: seq<Pair>) returns (written: Result<string, EnvError>)
    ensures written == if AllSerializable(pairs) then Ok(Unlines(LinesOf(pairs))) else Err(UnsafeValue)
    ensures written.Err? <==> exists i :: 0 <= i < |pairs| && ('\n' in pairs[i].value || '\'' in pairs[i].value)
  {
    if exists i :: 0 <= i < |pairs| && ('\n' in pairs[i].value || '\'' in pairs[i].value) {
      return Err(UnsafeValue);
    }
    var output := "";
    for i := 0 to |pairs|
      invariant output == Unlines(LinesOf(pairs[..i]))
    {
      assert pairs[..i + 1][..i] == pairs[..i];
      UnlinesSnoc(LinesOf(pairs[..i]), LineOf(pairs[i]));
      output := output + LineOf(pairs[i]) + "\n";
    }
    assert pairs[..|pairs|] == pairs;
    return Ok(output);
  }

  // ----- what parsing yields, and what it gives back

  // A key that starts a line of its own and is not taken for a comment.
  predicate KeyOk(key: string) {
    OneLine(key) && '=' !in key && (key == "" || (!IsSpace(key[0]) && key[0] != '#'))
  }

  lemma StripOneLine(s: string)
    requires OneLine(s)
    ensures OneLine(Strip(s))
  {
    StripLeftSound(s);
    StripRightSound(StripLeft(s));
  }

  lemma {:induction false} StripCharLeftOneLine(s: string, c: char)
    requires OneLine(s)
    ensures OneLine(StripCharLeft(s, c))
  {
    if s != "" && s[0] == c {
      StripCharLeftOneLine(s[1..], c);
    }
  }

  lemma {:induction false} StripCharRightOneLine(s: string, c: char)
    requires OneLine(s)
    ensures OneLine(StripCharRight(s, c))
  {
    if s != "" && s[|s| - 1] == c {
      StripCharRightOneLine(s[..|s| - 1], c);
    }
  }

  lemma UnquoteOneLine(s: string)
    requires OneLine(s)
    ensures OneLine(Unquote(s))
  {
    StripOneLine(s);
    StripCharLeftOneLine(Strip(s), '"');
    StripCharRightOneLine(StripCharLeft(Strip(s), '"'), '"');
    var unquoted := StripChar(Strip(s), '"');
    StripCharLeftOneLine(unquoted, '\'');
    StripCharRightOneLine(StripCharLeft(unquoted, '\''), '\'');
  }

  lemma ParseLineClean(raw: string)
    requires OneLine(raw)
    ensures ParseLine(raw).Binding? ==> KeyOk(ParseLine(raw).key) && OneLine(ParseLine(raw).value)
  {
    var line := Strip(raw);
    StripOneLine(raw);
    StripIsTrimmed(raw);
    if ParseLine(raw).Binding? {
      UnquoteOneLine(line[IndexOf(line, '=') + 1..]);
    }
  }

  ghost predicate Clean(bindings: Bindings) {
    forall key :: key in bindings ==> KeyOk(key) && OneLine(bindings[key])
  }

  lemma {:induction false} ParsedLinesClean(lines: seq<string>)
    requires AllOneLine(lines)
    ensures ParseLines(lines).Ok? ==> Clean(ParseLines(lines).value)
  {
    if lines != [] {
      ParsedLinesClean(lines[..|lines| - 1]);
      ParseLineClean(lines[|lines| - 1]);
    }
  }

  /** Whatever is parsed has keys that could be written again and no line break in a value:
      so the values copied from an existing file never break the new one. */
  lemma ParsedIsClean(text: string)
    ensures ParseEnv(text).Ok? ==> Clean(ParseEnv(text).value)
  {
    SplitLinesSound(text);
    ParsedLinesClean(SplitLines(text));
  }

  lemma StripSingleQuotes(value: string)
    requires '\'' !in value
    ensures StripChar("'" + value + "'", '\'') == value
  {
    var s := "'" + value + "'";
    assert s[1..] == value + "'";
    if value == "" {
      assert s[1..] == "'" && s[1..][1..] == "";
      assert StripCharLeft(s, '\'') == StripCharLeft(s[1..], '\'') == StripCharLeft("", '\'') == "";
    } else {
      var open := value + "'";
      assert open[0] == value[0] && open[..|value|] == value;
      assert StripCharLeft(s, '\'') == StripCharLeft(open, '\'') == open;
      assert StripCharRight(open, '\'') == StripCharRight(value, '\'') == value;
    }
  }

  lemma UnquoteQuoted(value: string)
    requires '\'' !in value
    ensures Unquote("'" + value + "'") == value
  {
    var s := "'" + value + "'";
    assert s[0] == '\'' && s[|s| - 1] == '\'';
    StripIdentity(s);
    assert StripChar(s, '"') == s;
    StripSingleQuotes(value);
  }

  lemma FirstEquals(key: string, rest: string)
    requires '=' !in key
    ensures IndexOf(key + "=" + rest, '=') == |key|
  {
    var s := key + "=" + rest;
    var n := IndexOf(s, '=');
    assert s[|key|] == '=';
    assert forall i :: 0 <= i < |key| ==> s[i] == key[i];
    assert forall i :: 0 <= i < |key| ==> key[i] != '=';
  }

  lemma ParseWritten(p: Pair)
    requires KeyOk(p.key) && Serializable(p.value)
    ensures ParseLine(LineOf(p)) == Binding(p.key, p.value)
  {
    var line := LineOf(p);
    var rest := "'" + p.value + "'";
    assert line == p.key + "=" + rest;
    assert line[|line| - 1] == '\'';
    assert line[0] == if p.key == "" then '=' else p.key[0];
    StripIdentity(line);
    FirstEquals(p.key, rest);
    assert line[..|p.key|] == p.key && line[|p.key| + 1..] == rest;
    UnquoteQuoted(p.value);
  }

  predicate PairOk(p: Pair) {
    KeyOk(p.key) && OneLine(p.value)
  }

  predicate AllPairsOk(pairs: seq<Pair>) {
    forall i :: 0 <= i < |pairs| ==> PairOk(pairs[i])
  }

  ghost predicate DistinctKeys(pairs: seq<Pair>) {
    forall i, j :: 0 <= i < j < |pairs| ==> pairs[i].key != pairs[j].key
  }

  lemma LineOfOneLine(p: Pair)
    requires PairOk(p)
    ensures OneLine(LineOf(p))
  {
    assert OneLine("='") && OneLine("'");
  }

  lemma {:induction false} LinesOfPairs(pairs: seq<Pair>)
    ensures |LinesOf(pairs)| == |pairs|
    ensures forall i :: 0 <= i < |pairs| ==> LinesOf(pairs)[i] == LineOf(pairs[i])
  {
    if pairs != [] {
      LinesOfPairs(pairs[..|pairs| - 1]);
    }
  }

  lemma WrittenOneLine(pairs: seq<Pair>)
    requires AllPairsOk(pairs)
    ensures AllOneLine(LinesOf(pairs))
  {
    LinesOfPairs(pairs);
    forall i | 0 <= i < |pairs| ensures OneLine(LinesOf(pairs)[i]) {
      LineOfOneLine(pairs[i]);
    }
  }

  lemma {:induction false} WrittenParsed(pairs: seq<Pair>)
    requires AllPairsOk(pairs) && AllSerializable(pairs)
    ensures ParseLines(LinesOf(pairs)) == Ok(AsMap(pairs))
  {
    if pairs != [] {
      var front, last := pairs[..|pairs| - 1], pairs[|pairs| - 1];
      WrittenParsed(front);
      ParseWritten(last);
      ParseSnoc(LinesOf(front), LineOf(last));
    }
  }

  lemma ParseSnoc(lines: seq<string>, line: string)
    ensures ParseLines(lines + [line]) == Then(ParseLines(lines), ParseLine(line))
  {
    assert (lines + [line])[..|lines|] == lines;
  }

  lemma {:induction false} MapHolds(pairs: seq<Pair>, i: nat)
    requires i < |pairs| && DistinctKeys(pairs)
    ensures pairs[i].key in AsMap(pairs) && AsMap(pairs)[pairs[i].key] == pairs[i].value
  {
    if i < |pairs| - 1 {
      MapHolds(pairs[..|pairs| - 1], i);
    }
  }

  /** The writer accepts any value without a quote and a line feed; the parser gives the
      written map back if and only if every key can stand at the start of a line and no key
      or value holds any of the other line boundaries either. */
  lemma RoundTrip(pairs: seq<Pair>)
    requires AllSerializable(pairs) && DistinctKeys(pairs)
    ensures ParseEnv(Unlines(LinesOf(pairs))) == Ok(AsMap(pairs)) <==> AllPairsOk(pairs)
  {
    var text := Unlines(LinesOf(pairs));
    if AllPairsOk(pairs) {
      WrittenOneLine(pairs);
      WrittenParsed(pairs);
      SplitUnlines(LinesOf(pairs));
    } else {
      ParsedIsClean(text);
      var i :| 0 <= i < |pairs| && !PairOk(pairs[i]);
      MapHolds(pairs, i);
    }
  }

  /** A carriage return passes the writer's check and does not come back. */
  lemma CarriageReturnIsLost(key: string)
    ensures var pairs := [Pair(key, "a\rb")];
            AllSerializable(pairs) && ParseEnv(Unlines(LinesOf(pairs))) != Ok(AsMap(pairs))
  {
    var pairs := [Pair(key, "a\rb")];
    assert pairs[0].value[1] == '\r';
    assert !PairOk(pairs[0]);
    RoundTrip(pairs);
  }

  // ----- set_image_tag

  const TAG := "IMAGE_TAG"

  predicate IsSha(s: string) {
    |s| == 40 && forall i :: 0 <= i < |s| ==> s[i] in "0123456789abcdef"
  }

  // line.startswith("IMAGE_TAG=")
  predicate TagLine(line: string) {
    TAG + "=" <= line
  }

  function TagText(sha: string): string {
    LineOf(Pair(TAG, sha))
  }

  function TagIndices(lines: seq<string>): (indices: seq<nat>)
    ensures forall k :: 0 <= k < |indices| ==> indices[k] < |lines| && TagLine(lines[indices[k]])
    ensures forall i :: 0 <= i < |lines| && TagLine(lines[i]) ==> i in indices
  {
    if lines == [] then []
    else
      var n := |lines| - 1;
      TagIndices(lines[..n]) + (if TagLine(lines[n]) then [n] else [])
  }

  function SetTag(text: string, sha: string): Result<string, EnvError> {
    var lines := SplitLines(text);
    var matches := TagIndices(lines);
    if !IsSha(sha) then Err(BadSha)
    else if |matches| != 1 then Err(NotOneTag)
    else Ok(Unlines(lines[matches[0] := TagText(sha)]))
  }

  lemma {:induction false} JoinIsUnlines(lines: seq<string>)
    requires lines != []
    ensures Join(lines, "\n") + "\n" == Unlines(lines)
  {
    JoinParts(lines, "\n");
    if |lines| == 1 {
      assert lines[0] + "" + "\n" == lines[0] + "\n" + "";
    } else {
      JoinIsUnlines(lines[1..]);
      assert lines[0] + ("\n" + Join(lines[1..], "\n")) + "\n" == lines[0] + "\n" + (Join(lines[1..], "\n") + "\n");
    }
  }

  // Rewrites the one matching element of the list of lines in place.
  method SetImageTag(text: string, sha: string) returns (edited: Result<string, EnvError>)
    ensures edited == SetTag(text, sha)
  {
    if !IsSha(sha) {
      return Err(BadSha);
    }
    var split := SplitLines(text);
    var lines := new string[|split|](i requires 0 <= i < |split| => split[i]);
    assert lines[..] == split;
    var matches: seq<nat> := [];
    for index := 0 to lines.Length
      invariant lines[..] == split
      invariant matches == TagIndices(split[..index])
    {
      assert split[..index + 1][..index] == split[..index];
      if TagLine(lines[index]) {
        matches := matches + [index];
      }
    }
    assert split[..|split|] == split;
    if |matches| != 1 {
      return Err(NotOneTag);
    }
    lines[matches[0]] := TagText(sha);
    assert lines[..] == split[matches[0] := TagText(sha)];
    JoinIsUnlines(lines[..]);
    return Ok(Join(lines[..], "\n") + "\n");
  }

  // ----- what the edit means to the parser

  lemma TagIsKey()
    ensures KeyOk(TAG)
  {
  }

  lemma ParseTagLine(line: string)
    requires TagLine(line)
    ensures ParseLine(line).Binding? && ParseLine(line).key == TAG
  {
    var stripped := Strip(line);
    assert line[0] == 'I' && line[9] == '=';
    assert StripLeft(line) == line;
    StripRightSound(line);
    assert |stripped| > 9 && stripped[9] == '=';
    assert stripped[..9] == line[..9] == TAG;
    assert stripped == TAG + "=" + stripped[10..];
    FirstEquals(TAG, stripped[10..]);
  }

  lemma TagTextIsTagLine(sha: string)
    ensures TagLine(TagText(sha))
  {
    assert TagText(sha) == (TAG + "=") + ("'" + sha + "'");
  }

  lemma ParseTagText(sha: string)
    requires IsSha(sha)
    ensures TagLine(TagText(sha)) && OneLine(TagText(sha)) && ParseLine(TagText(sha)) == Binding(TAG, sha)
  {
    ShaIsSafe(sha);
    TagIsKey();
    TagTextIsTagLine(sha);
    ParseWritten(Pair(TAG, sha));
    LineOfOneLine(Pair(TAG, sha));
  }

  lemma ShaIsSafe(sha: string)
    requires IsSha(sha)
    ensures OneLine(sha) && Serializable(sha)
  {
    assert forall c :: c in "0123456789abcdef" ==> !IsBoundary(c) && c != '\'' && c != '\n';
  }

  // Later lines bind over earlier ones.
  function Over(a: Result<Bindings, EnvError>, b: Result<Bindings, EnvError>): Result<Bindings, EnvError> {
    if a.Ok? && b.Ok? then Ok(a.value + b.value) else Err(InvalidFile)
  }

  lemma OverThen(a: Result<Bindings, EnvError>, b: Result<Bindings, EnvError>, line: Line)
    ensures Then(Over(a, b), line) == Over(a, Then(b, line))
  {
    if a.Ok? && b.Ok? && line.Binding? {
      assert (a.value + b.value)[line.key := line.value] == a.value + b.value[line.key := line.value];
    }
  }

  lemma OverNothing(a: Result<Bindings, EnvError>)
    requires a.Err? ==> a.error == InvalidFile
    ensures Over(a, Ok(map[])) == a
  {
    if a.Ok? {
      assert a.value + map[] == a.value;
    }
  }

  lemma {:induction false} ParseAppend(a: seq<string>, b: seq<string>)
    ensures ParseLines(a + b) == Over(ParseLines(a), ParseLines(b))
  {
    if b == [] {
      assert a + b == a;
      ErrorIsInvalid(a);
      OverNothing(ParseLines(a));
    } else {
      var front, last := b[..|b| - 1], b[|b| - 1];
      ParseAppend(a, front);
      assert a + b == (a + front) + [last];
      ParseSnoc(a + front, last);
      OverThen(ParseLines(a), ParseLines(front), ParseLine(last));
    }
  }

  // A binding between what stands before it and what stands after it.
  lemma ParseAround(front: seq<string>, line: string, rest: seq<string>, key: string, value: string)
    requires ParseLine(line) == Binding(key, value)
    ensures ParseLines(front + [line] + rest) == Around(ParseLines(front), key, value, ParseLines(rest))
  {
    ParseAppend(front + [line], rest);
    ParseSnoc(front, line);
  }

  function Around(before: Result<Bindings, EnvError>, key: string, value: string, after: Result<Bindings, EnvError>)
    : Result<Bindings, EnvError>
  {
    if before.Ok? && after.Ok? then Ok(before.value[key := value] + after.value) else Err(InvalidFile)
  }

  // Two values for one key between the same bindings before and after it.
  lemma OnlyThatKey(before: Bindings, after: Bindings, key: string, was: string, value: string)
    ensures var b, a := before[key := was] + after, before[key := value] + after;
            && key in a && a - {key} == b - {key}
            && (a == b[key := value] <==> (key in after ==> after[key] == value))
  {
    var b, a := before[key := was] + after, before[key := value] + after;
    assert a[key] == if key in after then after[key] else value;
    assert forall k :: k != key ==> (k in a <==> k in b) && (k in a ==> a[k] == b[k]);
    assert b[key := value][key] == value;
    if key in after ==> after[key] == value {
      assert a == b[key := value];
    }
  }

  // What the lines after the tag line bind, if the file is valid.
  function LaterBindings(text: string): Bindings {
    var lines := SplitLines(text);
    var matches := TagIndices(lines);
    if |matches| != 1 then map[]
    else
      match ParseLines(lines[matches[0] + 1..])
      case Ok(bindings) => bindings
      case Err(_) => map[]
  }

  lemma EditedLines(text: string, sha: string)
    requires SetTag(text, sha).Ok?
    ensures var lines, m := SplitLines(text), TagIndices(SplitLines(text))[0];
            SplitLines(SetTag(text, sha).value) == lines[m := TagText(sha)]
  {
    var lines, m := SplitLines(text), TagIndices(SplitLines(text))[0];
    SplitLinesSound(text);
    ParseTagText(sha);
    SplitUnlines(lines[m := TagText(sha)]);
  }

  lemma AroundIndex(lines: seq<string>, m: nat, line: string)
    requires m < |lines|
    ensures lines[m := line] == lines[..m] + [line] + lines[m + 1..]
    ensures lines == lines[..m] + [lines[m]] + lines[m + 1..]
  {
  }

  // The bindings before and after the tag line, and what it bound.
  lemma EditedBindings(text: string, sha: string) returns (before: Result<Bindings, EnvError>, was: string)
    requires SetTag(text, sha).Ok?
    ensures var later := ParseLines(SplitLines(text)[TagIndices(SplitLines(text))[0] + 1..]);
            && ParseEnv(text) == Around(before, TAG, was, later)
            && ParseEnv(SetTag(text, sha).value) == Around(before, TAG, sha, later)
  {
    var lines, m := SplitLines(text), TagIndices(SplitLines(text))[0];
    EditedLines(text, sha);
    ParseTagLine(lines[m]);
    ParseTagText(sha);
    before, was := ParseLines(lines[..m]), ParseLine(lines[m]).value;
    AroundIndex(lines, m, TagText(sha));
    ParseAround(lines[..m], lines[m], lines[m + 1..], TAG, was);
    ParseAround(lines[..m], TagText(sha), lines[m + 1..], TAG, sha);
  }

  /** Editing the tag keeps a file valid or invalid as it was, and leaves every other binding
      alone; and it sets the tag if and only if no later, indented line binds it again to
      something else. */
  lemma TagIsSet(text: string, sha: string)
    requires SetTag(text, sha).Ok?
    ensures var was, now := ParseEnv(text), ParseEnv(SetTag(text, sha).value);
            && (now.Ok? <==> was.Ok?)
            && (now.Ok? ==> TAG in now.value && now.value - {TAG} == was.value - {TAG})
            && (now.Ok? ==>
                  (now.value == was.value[TAG := sha]
                   <==> (TAG in LaterBindings(text) ==> LaterBindings(text)[TAG] == sha)))
  {
    var before, was := EditedBindings(text, sha);
    var later := ParseLines(SplitLines(text)[TagIndices(SplitLines(text))[0] + 1..]);
    if before.Ok? && later.Ok? {
      OnlyThatKey(before.value, later.value, TAG, was, sha);
    }
  }

  // Only lines whose first word is the key bind it.
  lemma {:induction false} BoundByALine(lines: seq<string>, key: string)
    requires ParseLines(lines).Ok? && key in ParseLines(lines).value
    ensures exists i :: 0 <= i < |lines| && ParseLine(lines[i]).Binding? && ParseLine(lines[i]).key == key
  {
    if lines != [] {
      var last := ParseLine(lines[|lines| - 1]);
      if !(last.Binding? && last.key == key) {
        BoundByALine(lines[..|lines| - 1], key);
      }
    }
  }

  lemma BindingIsTagLine(raw: string)
    requires ParseLine(raw).Binding? && ParseLine(raw).key == TAG
    ensures TagLine(Strip(raw))
  {
    var line := Strip(raw);
    var n := IndexOf(line, '=');
    assert line[..n + 1] == line[..n] + "=" == TAG + "=";
  }

  lemma OnlyTagLine(lines: seq<string>, m: nat, i: nat)
    requires TagIndices(lines) == [m] && i < |lines| && i != m
    ensures !TagLine(lines[i])
  {
    assert i !in TagIndices(lines);
  }

  lemma Unbound(rest: seq<string>)
    requires forall i :: 0 <= i < |rest| ==> !TagLine(Strip(rest[i]))
    ensures ParseLines(rest).Ok? ==> TAG !in ParseLines(rest).value
  {
    if ParseLines(rest).Ok? && TAG in ParseLines(rest).value {
      BoundByALine(rest, TAG);
      var i :| 0 <= i < |rest| && ParseLine(rest[i]).Binding? && ParseLine(rest[i]).key == TAG;
      BindingIsTagLine(rest[i]);
    }
  }

  /** If no indented line of the file starts with IMAGE_TAG=, the edit changes exactly the
      tag and every other binding is as it was. */
  lemma NoIndentedTag(text: string, sha: string)
    requires SetTag(text, sha).Ok? && ParseEnv(text).Ok?
    requires forall i :: 0 <= i < |SplitLines(text)| && TagLine(Strip(SplitLines(text)[i])) ==> TagLine(SplitLines(text)[i])
    ensures ParseEnv(SetTag(text, sha).value) == Ok(ParseEnv(text).value[TAG := sha])
  {
    TagIsSet(text, sha);
    var lines, matches := SplitLines(text), TagIndices(SplitLines(text));
    var rest := lines[matches[0] + 1..];
    forall i | 0 <= i < |rest| ensures !TagLine(Strip(rest[i])) {
      OnlyTagLine(lines, matches[0], matches[0] + 1 + i);
    }
    Unbound(rest);
  }

  lemma {:induction false} SameIndices(lines: seq<string>, m: nat, line: string)
    requires m < |lines| && TagLine(lines[m]) && TagLine(line)
    ensures TagIndices(lines[m := line]) == TagIndices(lines)
  {
    var n := |lines| - 1;
    if m < n {
      assert lines[m := line][..n] == lines[..n][m := line];
      SameIndices(lines[..n], m, line);
    } else {
      assert lines[m := line][..n] == lines[..n];
    }
  }

  /** The last edit wins: a file can be edited again, and the second tag replaces the first
      without a trace of it. */
  lemma LastEditWins(text: string, first: string, second: string)
    requires SetTag(text, first).Ok? && IsSha(second)
    ensures SetTag(SetTag(text, first).value, second) == SetTag(text, second)
  {
    var lines, m := SplitLines(text), TagIndices(SplitLines(text))[0];
    EditedLines(text, first);
    ParseTagText(first);
    SameIndices(lines, m, TagText(first));
    assert lines[m := TagText(first)][m := TagText(second)] == lines[m := TagText(second)];
  }

  // The one line of the file that starts with IMAGE_TAG=.
  ghost predicate OneTagLine(lines: seq<string>, i: nat) {
    && i < |lines| && "IMAGE_TAG=" <= lines[i]
    && forall k :: 0 <= k < |lines| && "IMAGE_TAG=" <= lines[k] ==> k == i
  }

  ghost function TagLines(lines: seq<string>): set<nat> {
    set i: nat | i < |lines| && TagLine(lines[i])
  }

  lemma {:induction false} TagIndicesCount(lines: seq<string>)
    ensures |TagIndices(lines)| == |TagLines(lines)|
  {
    if lines != [] {
      var n := |lines| - 1;
      TagIndicesCount(lines[..n]);
      assert TagLines(lines) == TagLines(lines[..n]) + (if TagLine(lines[n]) then {n} else {});
    }
  }

  lemma OneIndex(lines: seq<string>, i: nat)
    ensures OneTagLine(lines, i) <==> TagIndices(lines) == [i]
  {
    TagIndicesCount(lines);
    assert TAG + "=" == "IMAGE_TAG=";
    if OneTagLine(lines, i) {
      assert TagLines(lines) == {i};
      assert i in TagIndices(lines);
    }
    if TagIndices(lines) == [i] {
      assert TagIndices(lines)[0] == i;
    }
  }

  /** The edit in full: it needs a lowercase SHA of 40 digits and exactly one line that starts with
      IMAGE_TAG=, and then the file has the same lines but for that one, each ended by a line feed. */
  lemma EditIs(text: string, sha: string, i: nat)
    ensures !(|sha| == 40 && forall k :: 0 <= k < 40 ==> '0' <= sha[k] <= '9' || 'a' <= sha[k] <= 'f') <==>
              SetTag(text, sha) == Err(BadSha)
    ensures SetTag(text, sha).Ok? ==> exists k :: OneTagLine(SplitLines(text), k)
    ensures SetTag(text, sha) != Err(BadSha) && OneTagLine(SplitLines(text), i) ==>
              SetTag(text, sha) == Ok(Unlines(SplitLines(text)[i := "IMAGE_TAG='" + sha + "'"]))
    ensures SetTag(text, sha).Err? ==> SetTag(text, sha).error in {BadSha, NotOneTag}
  {
    ShaDigits(sha);
    OneIndex(SplitLines(text), i);
    assert TagText(sha) == "IMAGE_TAG='" + sha + "'" by {
      assert TAG + "='" == "IMAGE_TAG='";
    }
    if SetTag(text, sha).Ok? {
      OneIndex(SplitLines(text), TagIndices(SplitLines(text))[0]);
    }
  }

  lemma ShaDigits(sha: string)
    ensures IsSha(sha) <==> |sha| == 40 && forall k :: 0 <= k < 40 ==> '0' <= sha[k] <= '9' || 'a' <= sha[k] <= 'f'
  {
    forall c: char ensures c in "0123456789abcdef" <==> '0' <= c <= '9' || 'a' <= c <= 'f' {
      HexDigit(c);
    }
  }

  lemma HexDigit(c: char)
    ensures c in "0123456789abcdef" <==> '0' <= c <= '9' || 'a' <= c <= 'f'
  {
    assert "0123456789abcdef" == ['0', '1', '2', '3', '4', '5', '6', '7', '8', '9', 'a', 'b', 'c', 'd', 'e', 'f'];
  }

  // ----- the three scripts together

  lemma TagLineOf(p: Pair)
    requires '=' !in p.key
    ensures TagLine(LineOf(p)) <==> p.key == TAG
  {
    var line, rest := LineOf(p), "'" + p.value + "'";
    assert line == p.key + "=" + rest;
    FirstEquals(p.key, rest);
    if TagLine(line) {
      assert line == TAG + "=" + line[10..];
      FirstEquals(TAG, line[10..]);
      assert line[..9] == TAG && line[..|p.key|] == p.key;
    }
  }

  lemma LineOfTrimmed(p: Pair)
    requires PairOk(p)
    ensures Strip(LineOf(p)) == LineOf(p)
  {
    var line := LineOf(p);
    assert line[|line| - 1] == '\'';
    assert line[0] == if p.key == "" then '=' else p.key[0];
    StripIdentity(line);
  }

  lemma {:induction false} TagIndicesOfPairs(pairs: seq<Pair>)
    requires AllPairsOk(pairs) && DistinctKeys(pairs)
    ensures var indices := TagIndices(LinesOf(pairs));
            |indices| <= 1 && (|indices| == 1 <==> TAG in AsMap(pairs))
  {
    if pairs != [] {
      var front, last := pairs[..|pairs| - 1], pairs[|pairs| - 1];
      TagIndicesOfPairs(front);
      LinesOfPairs(pairs);
      assert LinesOf(pairs)[..|front|] == LinesOf(front);
      assert PairOk(last);
      TagLineOf(last);
      if last.key == TAG {
        KeyNotBefore(front, TAG);
      }
    }
  }

  lemma {:induction false} KeyNotBefore(pairs: seq<Pair>, key: string)
    requires forall i :: 0 <= i < |pairs| ==> pairs[i].key != key
    ensures key !in AsMap(pairs)
  {
    if pairs != [] {
      KeyNotBefore(pairs[..|pairs| - 1], key);
    }
  }

  /** A private environment written with a tag can always have it set, and parses afterwards
      to the written map with exactly the tag replaced. */
  lemma WrittenTagCanBeSet(pairs: seq<Pair>, sha: string)
    requires AllPairsOk(pairs) && AllSerializable(pairs) && DistinctKeys(pairs) && IsSha(sha)
    ensures SetTag(Unlines(LinesOf(pairs)), sha).Ok? <==> TAG in AsMap(pairs)
    ensures TAG in AsMap(pairs) ==>
              ParseEnv(SetTag(Unlines(LinesOf(pairs)), sha).value) == Ok(AsMap(pairs)[TAG := sha])
  {
    var text := Unlines(LinesOf(pairs));
    WrittenOneLine(pairs);
    SplitUnlines(LinesOf(pairs));
    TagIndicesOfPairs(pairs);
    if TAG in AsMap(pairs) {
      RoundTrip(pairs);
      LinesOfPairs(pairs);
      forall i | 0 <= i < |SplitLines(text)| ensures Strip(SplitLines(text)[i]) == SplitLines(text)[i] {
        LineOfTrimmed(pairs[i]);
      }
      NoIndentedTag(text, sha);
    }
  }
}
