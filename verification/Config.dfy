/**
  The configuration file: reading it in chunks, splitting it into lines, parsing `key=value`, and
  printing the settings back.
 */
module Config {

  // ----- text

  /** isspace in the classic locale. */
  predicate IsSpace(c: char) {
    c == ' ' || c == '\t' || c == '\n' || c == '\r' || c == '\U{0B}' || c == '\U{0C}'
  }

  function TrimLeft(s: string): string {
    if s != "" && IsSpace(s[0]) then TrimLeft(s[1..]) else s
  }

  function TrimRight(s: string): string {
    if s != "" && IsSpace(s[|s| - 1]) then TrimRight(s[..|s| - 1]) else s
  }

  /** `boost::algorithm::trim` */
  function Trim(s: string): string { TrimRight(TrimLeft(s)) }

  /** `find_first_of(c)`, with |s| for npos. */
  function FirstIndex(s: string, c: char): (i: nat)
    ensures i <= |s|
    ensures i < |s| ==> s[i] == c
    ensures forall k :: 0 <= k < i ==> s[k] != c
    ensures i == |s| <==> c !in s
  {
    if s == "" then 0
    else if s[0] == c then 0
    else
      assert s == [s[0]] + s[1..];
      1 + FirstIndex(s[1..], c)
  }

  /** The tokens of `char_separator("\n")`: the pieces between line ends, without the empty ones. */
  function Lines(text: string): seq<string>
    decreases |text|
  {
    if text == "" then []
    else
      var i := FirstIndex(text, '\n');
      AddLine(text[..i], if i == |text| then [] else Lines(text[i + 1..]))
  }

  function AddLine(line: string, rest: seq<string>): seq<string> {
    if line == "" then rest else [line] + rest
  }

  const CHUNK := 512

  function UpToNul(s: string): string { s[..FirstIndex(s, '\0')] }

  /** The file as `load_config` reads it: of each chunk, what comes before a NUL. */
  function ReadFile(file: string): string
    decreases |file|
  {
    if file == "" then ""
    else if |file| <= CHUNK then UpToNul(file)
    else UpToNul(file[..CHUNK]) + ReadFile(file[CHUNK..])
  }

  // ----- parsing

  type Props = map<string, string>

  /** What one line does; a line without '=' makes the std::string constructor throw. */
  datatype Parsed = Skip | Setting(key: string, value: string) | Throws

  function ParseLine(token: string): Parsed {
    var line := Trim(token);
    if line != "" && line[0] == '#' then Skip
    else
      var split := FirstIndex(line, '=');
      if split == |line| then Throws
      else if split == 0 then Skip
      else Setting(Trim(line[..split]), Trim(line[split + 1..]))
  }

  /** The settings after some lines; an exception keeps what was stored before it. */
  datatype Outcome = Loaded(props: Props) | Thrown(props: Props)

  function Load(lines: seq<string>, props: Props): Outcome {
    if lines == [] then Loaded(props)
    else match ParseLine(lines[0])
      case Skip => Load(lines[1..], props)
      case Setting(key, value) => Load(lines[1..], props[key := value])
      case Throws => Thrown(props)
  }

  function LoadFile(file: string, props: Props): Outcome {
    Load(Lines(ReadFile(file)), props)
  }

  // ----- printing

  type Entry = (string, string)

  function PrintEntry(e: Entry): string { e.0 + "=" + e.1 }

  function Print(entries: seq<Entry>): string {
    if entries == [] then "" else PrintEntry(entries[0]) + "\n" + Print(entries[1..])
  }

  /** An order in which the iteration over the map may meet its entries. */
  ghost predicate IsListing(entries: seq<Entry>, props: Props) {
    && (forall i, j :: 0 <= i < j < |entries| ==> entries[i].0 != entries[j].0)
    && (forall e :: e in entries ==> e.0 in props && props[e.0] == e.1)
    && (forall k :: k in props ==> (k, props[k]) in entries)
  }

  // ----- the settings that survive

  predicate Trimmed(s: string) {
    s == "" || (!IsSpace(s[0]) && !IsSpace(s[|s| - 1]))
  }

  predicate CleanEntry(e: Entry) {
    && e.0 != "" && Trimmed(e.0) && e.0[0] != '#' && '=' !in e.0 && '\n' !in e.0 && '\0' !in e.0
    && Trimmed(e.1) && '\n' !in e.1 && '\0' !in e.1
  }

  lemma {:induction false} TrimLeftFacts(s: string)
    ensures TrimLeft(s) == "" || !IsSpace(TrimLeft(s)[0])
    ensures forall c :: c in TrimLeft(s) ==> c in s
    ensures s == "" || !IsSpace(s[0]) ==> TrimLeft(s) == s
    ensures TrimLeft(s) != "" ==> TrimLeft(s)[|TrimLeft(s)| - 1] == s[|s| - 1]
  {
    if s != "" && IsSpace(s[0]) {
      TrimLeftFacts(s[1..]);
      assert s == [s[0]] + s[1..];
    }
  }

  lemma {:induction false} TrimRightFacts(s: string)
    ensures TrimRight(s) == "" || !IsSpace(TrimRight(s)[|TrimRight(s)| - 1])
    ensures forall c :: c in TrimRight(s) ==> c in s
    ensures s == "" || !IsSpace(s[|s| - 1]) ==> TrimRight(s) == s
    ensures s != "" && !IsSpace(s[0]) ==> TrimRight(s) != ""
    ensures TrimRight(s) != "" ==> TrimRight(s)[0] == s[0]
  {
    if s != "" && IsSpace(s[|s| - 1]) {
      TrimRightFacts(s[..|s| - 1]);
      assert s == s[..|s| - 1] + [s[|s| - 1]];
    }
  }

  lemma TrimFacts(s: string)
    ensures Trimmed(Trim(s))
    ensures forall c :: c in Trim(s) ==> c in s
    ensures Trimmed(s) ==> Trim(s) == s
    ensures s != "" && !IsSpace(s[0]) ==> Trim(s) != "" && Trim(s)[0] == s[0]
  {
    TrimLeftFacts(s);
    TrimRightFacts(TrimLeft(s));
  }

  // ----- what trimming keeps

  predicate Blank(s: string) {
    forall i :: 0 <= i < |s| ==> IsSpace(s[i])
  }

  /** Codes 9 to 13 and 32. */
  lemma SpacesExactly(c: char)
    ensures IsSpace(c) <==> c == ' ' || 9 <= c as int <= 13
  {
  }

  lemma {:induction false} TrimLeftBlank(a: string, s: string)
    requires Blank(a)
    ensures TrimLeft(a + s) == TrimLeft(s)
  {
    if a == "" {
      assert a + s == s;
    } else {
      assert (a + s)[1..] == a[1..] + s;
      TrimLeftBlank(a[1..], s);
    }
  }

  lemma {:induction false} TrimRightBlank(s: string, b: string)
    requires Blank(b)
    ensures TrimRight(s + b) == TrimRight(s)
  {
    if b == "" {
      assert s + b == s;
    } else {
      assert (s + b)[..|s + b| - 1] == s + b[..|b| - 1];
      TrimRightBlank(s, b[..|b| - 1]);
    }
  }

  /** Exactly the white space around a string is dropped. */
  lemma TrimPadded(a: string, s: string, b: string)
    requires Blank(a) && Blank(b) && Trimmed(s)
    ensures Trim(a + s + b) == s
  {
    assert a + s + b == a + (s + b);
    TrimLeftBlank(a, s + b);
    TrimRightFacts(s);
    hide TrimRight;
    if s == "" {
      assert s + b == b && b + "" == b;
      TrimLeftBlank(b, "");
      TrimLeftFacts("");
      TrimRightFacts("");
    } else {
      assert (s + b)[0] == s[0];
      TrimLeftFacts(s + b);
      TrimRightBlank(s, b);
    }
  }

  /** Any line `key = value`, with white space anywhere around the two; the value may hold more '='. */
  lemma ParsePadded(a: string, key: string, b: string, c: string, value: string, d: string)
    requires Blank(a) && Blank(b) && Blank(c) && Blank(d)
    requires Trimmed(key) && key != "" && key[0] != '#' && '=' !in key && Trimmed(value)
    ensures ParseLine(a + key + b + "=" + c + value + d) == Setting(key, value)
  {
    hide Trim, FirstIndex;
    var after := if value == "" then "" else c + value;
    PaddedLine(a, key, b, c, value, d);
    FirstEquals(key, b, after);
    PaddedParts(key, b, c, value);
    assert (key + b + "=" + after)[0] == key[0];
  }

  lemma PaddedLine(a: string, key: string, b: string, c: string, value: string, d: string)
    requires Blank(a) && Blank(c) && Blank(d)
    requires Trimmed(key) && key != "" && Trimmed(value)
    ensures var after := if value == "" then "" else c + value;
      Trim(a + key + b + "=" + c + value + d) == key + b + "=" + after
  {
    hide Trim;
    var after := if value == "" then "" else c + value;
    var line := key + b + "=" + after;
    var e := if value == "" then c + d else d;
    assert a + key + b + "=" + c + value + d == a + line + e;
    assert line[0] == key[0];
    assert line[|line| - 1] == if value == "" then '=' else value[|value| - 1];
    TrimPadded(a, line, e);
  }

  lemma PaddedParts(key: string, b: string, c: string, value: string)
    requires Blank(b) && Blank(c) && Trimmed(key) && Trimmed(value)
    ensures Trim(key + b) == key && Trim(if value == "" then "" else c + value) == value
  {
    hide Trim;
    TrimPadded("", key, b);
    assert "" + key + b == key + b;
    if value == "" {
      TrimPadded("", "", "");
      assert "" + "" + "" == "";
    } else {
      TrimPadded(c, value, "");
      assert c + value + "" == c + value;
    }
  }

  lemma FirstEquals(key: string, b: string, after: string)
    requires '=' !in key && Blank(b)
    ensures var line := key + b + "=" + after;
      FirstIndex(line, '=') == |key + b| && line[..|key + b|] == key + b && line[|key + b| + 1..] == after
  {
    var line := key + b + "=" + after;
    assert forall k :: 0 <= k < |key| ==> line[k] == key[k];
    assert forall k :: |key| <= k < |key + b| ==> line[k] == b[k - |key|];
    FirstIndexIs(line, '=', |key + b|);
  }

  /** Comments, and lines that begin with '=', set nothing. */
  lemma ParseSkipped(a: string, rest: string)
    requires Blank(a)
    ensures ParseLine(a + "#" + rest) == Skip && ParseLine(a + "=" + rest) == Skip
  {
    TrimmedHead(a, '#', rest);
    TrimmedHead(a, '=', rest);
    hide Trim;
  }

  lemma TrimmedHead(a: string, c: char, rest: string)
    requires Blank(a) && !IsSpace(c)
    ensures Trim(a + [c] + rest) != "" && Trim(a + [c] + rest)[0] == c
  {
    var s := [c] + rest;
    assert a + [c] + rest == a + s;
    TrimLeftBlank(a, s);
    TrimLeftFacts(s);
    TrimRightFacts(s);
  }

  /** Whatever a line sets is clean. */
  lemma ParsedIsClean(token: string)
    requires '\n' !in token && '\0' !in token
    ensures ParseLine(token).Setting? ==> CleanEntry((ParseLine(token).key, ParseLine(token).value))
  {
    var line := Trim(token);
    TrimFacts(token);
    if ParseLine(token).Setting? {
      var split := FirstIndex(line, '=');
      TrimFacts(line[..split]);
      TrimFacts(line[split + 1..]);
      hide Trim;
      assert forall c :: c in line[..split] ==> c in line && c != '=';
      assert forall c :: c in line[split + 1..] ==> c in line;
    }
  }

  /** A printed clean entry is parsed back. */
  lemma ParsePrinted(e: Entry)
    requires CleanEntry(e)
    ensures ParseLine(PrintEntry(e)) == Setting(e.0, e.1)
  {
    var line := PrintEntry(e);
    assert line[|e.0|] == '=' && line[|line| - 1] == if e.1 == "" then '=' else e.1[|e.1| - 1];
    assert Trimmed(line);
    TrimFacts(line);
    TrimFacts(e.0);
    TrimFacts(e.1);
    hide Trim;
    assert line[0] == e.0[0];
    assert forall k :: 0 <= k < |e.0| ==> line[k] == e.0[k] != '=';
    assert FirstIndex(line, '=') == |e.0|;
    assert line[..|e.0|] == e.0 && line[|e.0| + 1..] == e.1;
  }

  // ----- lines and chunks

  predicate IsLine(l: string) {
    l != "" && '\n' !in l && '\0' !in l
  }

  lemma {:induction false} LinesFacts(text: string)
    requires '\0' !in text
    ensures forall l :: l in Lines(text) ==> IsLine(l)
    decreases |text|
  {
    hide FirstIndex;
    if text != "" {
      var i := FirstIndex(text, '\n');
      assert i > 0 ==> IsLine(text[..i]);
      if i < |text| {
        LinesFacts(text[i + 1..]);
      }
    }
  }

  lemma FirstIndexIs(s: string, c: char, i: nat)
    requires i < |s| && s[i] == c && forall k :: 0 <= k < i ==> s[k] != c
    ensures FirstIndex(s, c) == i
  {
  }

  /** The first line of a text. */
  lemma LinesStep(line: string, rest: string)
    requires line != "" && '\n' !in line
    ensures Lines(line + "\n" + rest) == [line] + Lines(rest)
  {
    var text := line + "\n" + rest;
    assert forall k :: 0 <= k < |line| ==> text[k] == line[k] != '\n';
    FirstIndexIs(text, '\n', |line|);
    assert text[..|line|] == line && text[|line| + 1..] == rest;
  }

  /** The lines of a text, from the first line end on; empty ones do not count, and the last one needs
      no line end. */
  lemma LinesExactly(line: string, rest: string)
    requires '\n' !in line
    ensures Lines(line) == if line == "" then [] else [line]
    ensures Lines(line + "\n" + rest) == (if line == "" then [] else [line]) + Lines(rest)
  {
    if line == "" {
      var text := "\n" + rest;
      assert line + "\n" + rest == text && text[1..] == rest;
      FirstIndexIs(text, '\n', 0);
      assert [] + Lines(rest) == Lines(rest);
    } else {
      LinesStep(line, rest);
      assert line[..|line|] == line;
    }
  }

  /** Of a chunk, what comes before its first NUL is kept, and nothing else. */
  lemma ReadFileExactly(chunk: string, more: string, rest: string)
    requires '\0' !in chunk
    ensures |chunk| <= 512 && (rest != "" ==> |chunk| == 512) ==>
      ReadFile(chunk + rest) == chunk + ReadFile(rest)
    ensures |chunk| + 1 + |more| <= 512 && (rest != "" ==> |chunk| + 1 + |more| == 512) ==>
      ReadFile(chunk + "\0" + more + rest) == chunk + ReadFile(rest)
  {
    EmptyFile();
    UpToNulFacts(chunk);
    var cut := chunk + "\0" + more;
    assert UpToNul(cut) == chunk by {
      FirstIndexIs(cut, '\0', |chunk|);
      assert cut[..|chunk|] == chunk;
    }
    hide ReadFile, UpToNul;
    if |chunk| <= CHUNK && (rest != "" ==> |chunk| == CHUNK) && chunk != "" {
      ReadPart(chunk, rest);
    }
    if chunk == "" {
      assert chunk + rest == rest && chunk + ReadFile(rest) == ReadFile(rest);
    }
    if |cut| <= CHUNK && (rest != "" ==> |cut| == CHUNK) {
      ReadPart(cut, rest);
    }
  }

  lemma ReadPart(chunk: string, rest: string)
    requires chunk != "" && |chunk| <= CHUNK && (rest != "" ==> |chunk| == CHUNK)
    ensures ReadFile(chunk + rest) == UpToNul(chunk) + ReadFile(rest)
  {
    ReadChunk(chunk + rest, |chunk|);
    assert (chunk + rest)[..|chunk|] == chunk && (chunk + rest)[|chunk|..] == rest;
  }

  lemma {:induction false} ReadFileFacts(file: string)
    ensures '\0' !in ReadFile(file)
    ensures '\0' !in file ==> ReadFile(file) == file
    decreases |file|
  {
    if |file| > CHUNK {
      ReadFileFacts(file[CHUNK..]);
      UpToNulFacts(file[..CHUNK]);
      assert file == file[..CHUNK] + file[CHUNK..];
    } else {
      UpToNulFacts(file);
    }
  }

  lemma UpToNulFacts(s: string)
    ensures '\0' !in UpToNul(s)
    ensures '\0' !in s ==> UpToNul(s) == s
  {
  }

  // ----- the round trip

  lemma {:induction false} PrintHasNoNul(entries: seq<Entry>)
    requires forall e :: e in entries ==> CleanEntry(e)
    ensures '\0' !in Print(entries)
  {
    if entries != [] {
      assert forall e :: e in entries[1..] ==> e in entries;
      PrintHasNoNul(entries[1..]);
      assert entries[0] in entries;
    }
  }

  /** The map with the entries added, the last one winning. */
  function Overlay(props: Props, entries: seq<Entry>): Props
    decreases |entries|
  {
    if entries == [] then props else Overlay(props[entries[0].0 := entries[0].1], entries[1..])
  }

  lemma {:induction false} LoadPrinted(entries: seq<Entry>, props: Props)
    requires forall e :: e in entries ==> CleanEntry(e)
    ensures Load(Lines(Print(entries)), props) == Loaded(Overlay(props, entries))
    decreases |entries|
  {
    if entries != [] {
      var e := entries[0];
      assert e in entries;
      assert forall f :: f in entries[1..] ==> f in entries;
      var line := PrintEntry(e);
      assert '\n' !in line && line != "";
      LinesStep(line, Print(entries[1..]));
      ParsePrinted(e);
      LoadPrinted(entries[1..], props[e.0 := e.1]);
      hide PrintEntry, ParseLine, Lines;
      assert ([line] + Lines(Print(entries[1..])))[1..] == Lines(Print(entries[1..]));
    }
  }

  lemma {:induction false} OverlayFacts(props: Props, entries: seq<Entry>)
    requires forall i, j :: 0 <= i < j < |entries| ==> entries[i].0 != entries[j].0
    ensures forall e :: e in entries ==> e.0 in Overlay(props, entries) && Overlay(props, entries)[e.0] == e.1
    ensures forall k :: k in Overlay(props, entries) ==> k in props || exists e :: e in entries && e.0 == k
    ensures forall k :: k in props && (forall e :: e in entries ==> e.0 != k) ==>
      k in Overlay(props, entries) && Overlay(props, entries)[k] == props[k]
    decreases |entries|
  {
    if entries != [] {
      var p := props[entries[0].0 := entries[0].1];
      var rest := entries[1..];
      assert forall i :: 0 <= i < |rest| ==> rest[i] == entries[i + 1];
      OverlayFacts(p, rest);
      assert forall e :: e in entries <==> e == entries[0] || e in rest;
    }
  }

  lemma OverlayOfListing(entries: seq<Entry>, props: Props)
    requires IsListing(entries, props)
    ensures Overlay(map[], entries) == props
  {
    OverlayFacts(map[], entries);
    var o := Overlay(map[], entries);
    hide Overlay;
    assert forall k :: k in props ==> (k, props[k]) in entries;
    assert o.Keys == props.Keys;
  }

  ghost predicate CleanProps(props: Props) {
    forall k :: k in props ==> CleanEntry((k, props[k]))
  }

  lemma {:induction false} LoadIsClean(lines: seq<string>, props: Props)
    requires forall l :: l in lines ==> IsLine(l)
    requires CleanProps(props)
    ensures CleanProps(Load(lines, props).props)
    decreases |lines|
  {
    if lines != [] {
      assert lines[0] in lines;
      assert forall l :: l in lines[1..] ==> l in lines;
      ParsedIsClean(lines[0]);
      hide ParseLine;
      match ParseLine(lines[0])
      case Skip => LoadIsClean(lines[1..], props);
      case Setting(key, value) => LoadIsClean(lines[1..], props[key := value]);
      case Throws =>
    }
  }

  /** Everything that any file puts into an empty map is clean, even when reading it throws. */
  lemma LoadedIsClean(file: string)
    ensures CleanProps(LoadFile(file, map[]).props)
  {
    ReadFileFacts(file);
    LinesFacts(ReadFile(file));
    LoadIsClean(Lines(ReadFile(file)), map[]);
  }

  /** For every map and every order of printing it: loading what was printed into an empty map gives
      the map back exactly if all its settings are clean. */
  lemma RoundTrip(props: Props, entries: seq<Entry>)
    requires IsListing(entries, props)
    ensures LoadFile(Print(entries), map[]) == Loaded(props) <==> CleanProps(props)
  {
    if CleanProps(props) {
      assert forall e :: e in entries ==> CleanEntry(e);
      PrintHasNoNul(entries);
      ReadFileFacts(Print(entries));
      LoadPrinted(entries, map[]);
      OverlayOfListing(entries, props);
    }
    if LoadFile(Print(entries), map[]) == Loaded(props) {
      LoadedIsClean(Print(entries));
    }
  }

  /** So saving after a successful load changes nothing that a later load sees. */
  lemma SaveAfterLoad(file: string, entries: seq<Entry>)
    requires LoadFile(file, map[]).Loaded? && IsListing(entries, LoadFile(file, map[]).props)
    ensures LoadFile(Print(entries), map[]) == LoadFile(file, map[])
  {
    LoadedIsClean(file);
    RoundTrip(LoadFile(file, map[]).props, entries);
  }

  // ----- loading, line by line

  /** A file whose first line is given: that line is parsed, and the rest is loaded after it. */
  lemma LoadsLineByLine(line: string, rest: string, props: Props)
    requires '\n' !in line && '\0' !in line && '\0' !in rest
    ensures LoadFile("", props) == Loaded(props)
    ensures LoadFile(line + "\n" + rest, props)
      == if line == "" then LoadFile(rest, props)
         else match ParseLine(line)
           case Skip => LoadFile(rest, props)
           case Setting(key, value) => LoadFile(rest, props[key := value])
           case Throws => Thrown(props)
  {
    hide Load, ParseLine, ReadFile, Lines;
    EmptyFile();
    NoLines(props);
    WithoutNul(line, rest);
    ReadFileFacts(line + "\n" + rest);
    ReadFileFacts(rest);
    LinesExactly(line, rest);
    LoadHead(line, Lines(rest), props);
    assert [] + Lines(rest) == Lines(rest);
  }

  lemma NoLines(props: Props)
    ensures Lines("") == [] && Load([], props) == Loaded(props)
  {
  }

  lemma WithoutNul(line: string, rest: string)
    requires '\0' !in line && '\0' !in rest
    ensures '\0' !in line + "\n" + rest
  {
  }

  lemma LoadHead(line: string, rest: seq<string>, props: Props)
    ensures Load([line] + rest, props) == match ParseLine(line)
      case Skip => Load(rest, props)
      case Setting(key, value) => Load(rest, props[key := value])
      case Throws => Thrown(props)
  {
    assert ([line] + rest)[1..] == rest;
    hide ParseLine;
  }

  /** So a setting in any layout is stored, and a later one for its key wins. */
  lemma LoadsSetting(a: string, key: string, b: string, c: string, value: string, d: string, rest: string, props: Props)
    requires Blank(a) && Blank(b) && Blank(c) && Blank(d)
    requires CleanEntry((key, value)) && '\0' !in rest
    requires var line := a + key + b + "=" + c + value + d; '\n' !in line
    ensures LoadFile(a + key + b + "=" + c + value + d + "\n" + rest, props) == LoadFile(rest, props[key := value])
  {
    var line := a + key + b + "=" + c + value + d;
    ParsePadded(a, key, b, c, value, d);
    NulIsNoSpace(a, b);
    NulIsNoSpace(c, d);
    hide ParseLine, LoadFile;
    LoadsLineByLine(line, rest, props);
  }

  lemma NulIsNoSpace(a: string, b: string)
    requires Blank(a) && Blank(b)
    ensures '\0' !in a && '\0' !in b
  {
  }

  // ----- when loading throws

  /** A line that can be loaded: a comment, or one with a '='. */
  predicate Accepted(token: string) {
    var line := Trim(token);
    (line != "" && line[0] == '#') || '=' in line
  }

  lemma ThrowsExactly(token: string)
    ensures ParseLine(token).Throws? <==> !Accepted(token)
  {
    hide Trim;
  }

  lemma {:induction false} LoadsExactly(lines: seq<string>, props: Props)
    ensures Load(lines, props).Loaded? <==> forall l :: l in lines ==> Accepted(l)
    decreases |lines|
  {
    if lines != [] {
      ThrowsExactly(lines[0]);
      hide ParseLine, Accepted;
      assert lines == [lines[0]] + lines[1..];
      match ParseLine(lines[0])
      case Skip => LoadsExactly(lines[1..], props);
      case Setting(key, value) => LoadsExactly(lines[1..], props[key := value]);
      case Throws => assert lines[0] in lines;
    }
  }

  /** A file is loaded exactly if every line that its tokenizer keeps is a comment or has a '='; what
      the map held before does not matter. */
  lemma LoadsFileExactly(file: string, props: Props)
    ensures LoadFile(file, props).Loaded? <==> forall l :: l in Lines(ReadFile(file)) ==> Accepted(l)
  {
    LoadsExactly(Lines(ReadFile(file)), props);
  }

  /** In particular no file with a line of white space only, which the tokenizer keeps, is loaded. */
  lemma BlankLinesThrow(file: string, props: Props, blank: string)
    requires blank in Lines(ReadFile(file)) && forall c :: c in blank ==> IsSpace(c)
    ensures LoadFile(file, props).Thrown?
  {
    var line := Trim(blank);
    assert line == "" || line[0] in line;
    LoadsFileExactly(file, props);
    TrimFacts(blank);
  }

  /** There are such files, so white space does make loading throw. */
  lemma BlankLineThrows(props: Props)
    ensures LoadFile(" \n", props) == Thrown(props)
  {
    var file := " \n";
    assert file == " " + "\n" + "";
    ReadFileFacts(file);
    LinesStep(" ", "");
    assert Lines(file) == [" "];
    BlankLinesThrow(file, props, " ");
  }

  // ----- the source's operations

  class Configuration {
    var props: Props

    constructor ()
      ensures props == map[]
    {
      props := map[];
    }

    /** `load_config`; `thrown` stands for the exception, which leaves the result unset. */
    method LoadConfig(file: string) returns (thrown: bool, ok: bool)
      modifies this
      ensures LoadFile(file, old(props)) == if thrown then Thrown(props) else Loaded(props)
      ensures !thrown ==> (ok <==> |props| > 0)
    {
      hide Load, Lines, ReadFile, Trim, FirstIndex;
      var confString := ReadAll(file);
      var tokens := Lines(confString);
      thrown, ok := false, false;
      var i := 0;
      while i < |tokens|
        invariant 0 <= i <= |tokens|
        invariant Load(tokens[i..], props) == LoadFile(file, old(props))
      {
        assert tokens[i..] == [tokens[i]] + tokens[i + 1..];
        LoadHead(tokens[i], tokens[i + 1..], props);
        var line := Trim(tokens[i]);
        if line == "" || line[0] != '#' {
          var splitPos := FirstIndex(line, '=');
          if splitPos > 0 {
            if splitPos == |line| {
              thrown := true;
              return;
            }
            var param := Trim(line[..splitPos]);
            var value := Trim(line[splitPos + 1..]);
            props := props[param := value];
          } else if splitPos == |line| {
            thrown := true;
            return;
          }
        }
        i := i + 1;
      }
      assert tokens[i..] == [];
      NoLines(props);
      ok := |props| > 0;
    }

    /** The loop that reads the file in chunks and appends each as a C string. */
    method ReadAll(file: string) returns (confString: string)
      ensures confString == ReadFile(file)
    {
      hide ReadFile, UpToNul;
      EmptyFile();
      confString := "";
      var pos := 0;
      while pos < |file|
        invariant 0 <= pos <= |file|
        invariant confString + ReadFile(file[pos..]) == ReadFile(file)
      {
        var count := if |file| - pos <= CHUNK then |file| - pos else CHUNK;
        ReadAt(confString, file, pos, count);
        confString := confString + UpToNul(file[pos..pos + count]);
        pos := pos + count;
      }
      assert file[pos..] == "";
    }

    /** `save_config`: prints the entries in whatever order the map yields them. */
    method SaveConfig() returns (file: string)
      ensures exists entries :: IsListing(entries, props) && file == Print(entries)
    {
      file := "";
      ghost var entries: seq<Entry> := [];
      var rest := props.Keys;
      while rest != {}
        invariant rest <= props.Keys
        invariant forall i, j :: 0 <= i < j < |entries| ==> entries[i].0 != entries[j].0
        invariant forall e :: e in entries ==> e.0 in props && e.0 !in rest && props[e.0] == e.1
        invariant forall k :: k in props && k !in rest ==> (k, props[k]) in entries
        invariant file == Print(entries)
        decreases rest
      {
        var key :| key in rest;
        PrintSnoc(entries, (key, props[key]));
        file := file + (key + "=" + props[key] + "\n");
        entries := entries + [(key, props[key])];
        rest := rest - {key};
      }
    }
  }

  lemma EmptyFile()
    ensures ReadFile("") == ""
  {
  }

  lemma ReadChunk(file: string, count: nat)
    requires file != "" && count == if |file| <= CHUNK then |file| else CHUNK
    ensures ReadFile(file) == UpToNul(file[..count]) + ReadFile(file[count..])
  {
    if |file| <= CHUNK {
      assert file[..count] == file;
    }
  }

  lemma ReadAt(done: string, file: string, pos: nat, count: nat)
    requires pos < |file| && count == if |file| - pos <= CHUNK then |file| - pos else CHUNK
    ensures done + ReadFile(file[pos..]) == done + UpToNul(file[pos..pos + count]) + ReadFile(file[pos + count..])
  {
    ReadChunk(file[pos..], count);
    assert file[pos..][..count] == file[pos..pos + count] && file[pos..][count..] == file[pos + count..];
    hide ReadFile, UpToNul;
  }

  lemma {:induction false} PrintSnoc(entries: seq<Entry>, e: Entry)
    ensures Print(entries + [e]) == Print(entries) + (PrintEntry(e) + "\n")
  {
    hide PrintEntry;
    if entries == [] {
      assert [e][1..] == [];
    } else {
      PrintSnoc(entries[1..], e);
      assert (entries + [e])[1..] == entries[1..] + [e];
      var head, mid, last := PrintEntry(entries[0]) + "\n", Print(entries[1..]), PrintEntry(e) + "\n";
      assert head + (mid + last) == head + mid + last;
    }
  }
}
