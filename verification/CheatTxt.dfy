/** The cheat file: its parser, its printer, and the round trip through both. */
module CheatTxt {
  import opened Wrappers

  datatype Cheat = Cheat(name: string, isMaster: bool, opcodes: seq<string>)

  predicate IsBlank(c: char) {
    c == ' ' || c == '\t' || c == '\r' || c == '\n'
  }

  function TrimLeft(s: string): string {
    if s != "" && IsBlank(s[0]) then TrimLeft(s[1..]) else s
  }

  function TrimRight(s: string): string {
    if s != "" && IsBlank(s[|s| - 1]) then TrimRight(s[..|s| - 1]) else s
  }

  function Trim(s: string): string {
    TrimRight(TrimLeft(s))
  }

  /** Name and kind of a header line. */
  function ParseHeader(line: string): Option<Cheat> {
    if |line| >= 2 && line[0] == '[' && line[|line| - 1] == ']' then Some(Cheat(line[1..|line| - 1], false, []))
    else if |line| >= 2 && line[0] == '{' && line[|line| - 1] == '}' then Some(Cheat(line[1..|line| - 1], true, []))
    else None
  }

  /** The first line of a text and what follows it. */
  function LineEnd(text: string): (i: nat)
    ensures i <= |text| && (i < |text| ==> text[i] == '\n') && '\n' !in text[..i]
  {
    if text == "" || text[0] == '\n' then 0
    else
      var k := LineEnd(text[1..]);
      assert text[..k + 1] == [text[0]] + text[1..][..k];
      k + 1
  }

  /** The lines `getline` yields: what a final newline ends is no further line. */
  function Lines(text: string): seq<string>
    decreases |text|
  {
    if text == "" then []
    else
      var i := LineEnd(text);
      [text[..i]] + (if i == |text| then [] else Lines(text[i + 1..]))
  }

  /** One line read: blank lines are skipped, a header starts a cheat, anything else belongs to the last one. */
  function Feed(cheats: seq<Cheat>, raw: string): seq<Cheat> {
    var line := Trim(raw);
    if line == "" then cheats
    else if ParseHeader(line).Some? then cheats + [ParseHeader(line).value]
    else if cheats == [] then cheats
    else
      var last := cheats[|cheats| - 1];
      cheats[..|cheats| - 1] + [last.(opcodes := last.opcodes + [line])]
  }

  function FeedAll(cheats: seq<Cheat>, lines: seq<string>): seq<Cheat>
    decreases |lines|
  {
    if lines == [] then cheats else FeedAll(Feed(cheats, lines[0]), lines[1..])
  }

  function Parse(text: string): seq<Cheat> {
    FeedAll([], Lines(text))
  }

  /** Reading a text line by line: the first line is fed, the rest is read on. */
  lemma ReadOn(cheats: seq<Cheat>, text: string)
    requires text != ""
    ensures
      var i := LineEnd(text);
      FeedAll(cheats, Lines(text)) == FeedAll(Feed(cheats, text[..i]), Lines(if i == |text| then "" else text[i + 1..]))
  {
    hide Feed, LineEnd;
    var i := LineEnd(text);
    var rest := if i == |text| then "" else text[i + 1..];
    assert Lines(text) == [text[..i]] + Lines(rest);
    assert Lines(text)[1..] == Lines(rest);
  }

  method ParseTxt(content: string) returns (cheats: seq<Cheat>)
    ensures cheats == Parse(content)
  {
    hide Trim, ParseHeader, Lines, FeedAll;
    cheats := [];
    var rest := content;
    var haveCurrent := false;
    while rest != ""
      invariant FeedAll(cheats, Lines(rest)) == Parse(content)
      invariant haveCurrent <==> cheats != []
      decreases |rest|
    {
      ReadOn(cheats, rest);
      var i := LineEnd(rest);
      var raw := rest[..i];
      rest := if i == |rest| then "" else rest[i + 1..];
      var line := Trim(raw);
      if line == "" {
        continue;
      }
      var header := ParseHeader(line);
      if header.Some? {
        cheats := cheats + [header.value];
        haveCurrent := true;
      } else if haveCurrent {
        var last := cheats[|cheats| - 1];
        cheats := cheats[..|cheats| - 1] + [last.(opcodes := last.opcodes + [line])];
      }
    }
    FeedNothing(cheats);
  }

  lemma FeedNothing(cheats: seq<Cheat>)
    ensures FeedAll(cheats, Lines("")) == cheats
  {
  }

  function HeaderLine(c: Cheat): string {
    if c.isMaster then "{" + c.name + "}" else "[" + c.name + "]"
  }

  /** A cheat as written: its header, its opcode lines and a blank line. */
  function CheatLines(c: Cheat): seq<string> {
    [HeaderLine(c)] + c.opcodes + [""]
  }

  function Unlines(lines: seq<string>): string {
    if lines == [] then "" else lines[0] + "\n" + Unlines(lines[1..])
  }

  predicate Included(c: Cheat, enabled: set<string>) {
    c.isMaster || c.name in enabled
  }

  /** The master and enabled cheats, in order. */
  function Selected(cheats: seq<Cheat>, enabled: set<string>): seq<Cheat> {
    if cheats == [] then []
    else (if Included(cheats[0], enabled) then [cheats[0]] else []) + Selected(cheats[1..], enabled)
  }

  function Serialize(cheats: seq<Cheat>): string {
    if cheats == [] then "" else Unlines(CheatLines(cheats[0])) + Serialize(cheats[1..])
  }

  method SerializeTxt(cheats: seq<Cheat>, enabled: set<string>) returns (out: string)
    ensures out == Serialize(Selected(cheats, enabled))
  {
    hide Unlines, CheatLines, Included, HeaderLine, Serialize, Selected;
    out := "";
    SelectedSnoc([], enabled);
    for i := 0 to |cheats|
      invariant out == Serialize(Selected(cheats[..i], enabled))
    {
      var c := cheats[i];
      SelectedSnoc(cheats[..i], enabled);
      assert cheats[..i + 1] == cheats[..i] + [c];
      if !Included(c, enabled) {
        assert Selected(cheats[..i], enabled) + [] == Selected(cheats[..i], enabled);
        continue;
      }
      SerializeSnoc(Selected(cheats[..i], enabled), c);
      var text := WriteCheat(c);
      out := out + text;
    }
    assert cheats[..|cheats|] == cheats;
  }

  method WriteCheat(c: Cheat) returns (out: string)
    ensures out == Unlines(CheatLines(c))
  {
    hide *;
    WrittenFirst(c);
    out := if c.isMaster then "{" + c.name + "}\n" else "[" + c.name + "]\n";
    for k := 0 to |c.opcodes|
      invariant out == WrittenSoFar(c, k)
    {
      WrittenNext(c, k);
      out := out + c.opcodes[k];
      out := out + "\n";
    }
    WrittenLast(c);
    out := out + "\n";
  }

  /** The header and the first `k` opcode lines. */
  function FirstLines(c: Cheat, k: nat): seq<string>
    requires k <= |c.opcodes|
  {
    [HeaderLine(c)] + c.opcodes[..k]
  }

  function WrittenSoFar(c: Cheat, k: nat): string
    requires k <= |c.opcodes|
  {
    Unlines(FirstLines(c, k))
  }

  lemma WrittenFirst(c: Cheat)
    ensures WrittenSoFar(c, 0) == if c.isMaster then "{" + c.name + "}\n" else "[" + c.name + "]\n"
  {
    hide Unlines, HeaderLine;
    assert FirstLines(c, 0) == [] + [HeaderLine(c)];
    UnlinesSnoc([], HeaderLine(c));
    HeaderText(c);
  }

  lemma WrittenNext(c: Cheat, k: nat)
    requires k < |c.opcodes|
    ensures WrittenSoFar(c, k + 1) == WrittenSoFar(c, k) + c.opcodes[k] + "\n"
  {
    hide Unlines, HeaderLine;
    assert c.opcodes[..k + 1] == c.opcodes[..k] + [c.opcodes[k]];
    assert FirstLines(c, k + 1) == FirstLines(c, k) + [c.opcodes[k]];
    UnlinesSnoc(FirstLines(c, k), c.opcodes[k]);
  }

  lemma WrittenLast(c: Cheat)
    ensures Unlines(CheatLines(c)) == WrittenSoFar(c, |c.opcodes|) + "\n"
  {
    hide Unlines, HeaderLine;
    var lines := FirstLines(c, |c.opcodes|);
    assert c.opcodes[..|c.opcodes|] == c.opcodes;
    assert CheatLines(c) == lines + [""];
    UnlinesSnoc(lines, "");
    AppendNothing(Unlines(lines));
  }

  lemma AppendNothing(s: string)
    ensures s + "" == s
  {
  }

  lemma HeaderText(c: Cheat)
    ensures (if c.isMaster then "{" + c.name + "}\n" else "[" + c.name + "]\n") == "" + HeaderLine(c) + "\n"
  {
  }

  lemma {:induction false} SelectedSnoc(cheats: seq<Cheat>, enabled: set<string>)
    ensures Serialize(Selected([], enabled)) == ""
    ensures forall c ::
      Selected(cheats + [c], enabled) == Selected(cheats, enabled) + if Included(c, enabled) then [c] else []
  {
    forall c
      ensures Selected(cheats + [c], enabled) == Selected(cheats, enabled) + if Included(c, enabled) then [c] else []
    {
      if cheats == [] {
        assert (cheats + [c])[1..] == [];
      } else {
        SelectedSnoc(cheats[1..], enabled);
        assert (cheats + [c])[1..] == cheats[1..] + [c];
      }
    }
  }

  lemma {:induction false} SerializeSnoc(cheats: seq<Cheat>, c: Cheat)
    ensures Serialize(cheats + [c]) == Serialize(cheats) + Unlines(CheatLines(c))
  {
    hide Unlines, CheatLines;
    if cheats == [] {
      assert (cheats + [c])[1..] == [];
    } else {
      SerializeSnoc(cheats[1..], c);
      assert (cheats + [c])[1..] == cheats[1..] + [c];
    }
  }

  lemma {:induction false} UnlinesSnoc(lines: seq<string>, line: string)
    ensures Unlines([]) == ""
    ensures Unlines(lines + [line]) == Unlines(lines) + line + "\n"
  {
    if lines == [] {
      assert (lines + [line])[1..] == [];
    } else {
      UnlinesSnoc(lines[1..], line);
      assert (lines + [line])[1..] == lines[1..] + [line];
    }
  }

  // ----- what the parser produces

  predicate GoodOpcode(line: string) {
    line != "" && Trim(line) == line && ParseHeader(line) == None && '\n' !in line
  }

  predicate Good(c: Cheat) {
    '\n' !in c.name && forall k :: 0 <= k < |c.opcodes| ==> GoodOpcode(c.opcodes[k])
  }

  predicate AllGood(cheats: seq<Cheat>) {
    forall k :: 0 <= k < |cheats| ==> Good(cheats[k])
  }

  lemma {:induction false} TrimSlice(s: string) returns (i: nat, j: nat)
    ensures i <= j <= |s| && Trim(s) == s[i..j]
    ensures i < j ==> !IsBlank(s[i]) && !IsBlank(s[j - 1])
  {
    i := LeftEnd(s);
    var k := RightEnd(s[i..]);
    j := i + k;
    assert s[i..][..k] == s[i..j];
  }

  lemma {:induction false} LeftEnd(s: string) returns (i: nat)
    ensures i <= |s| && TrimLeft(s) == s[i..] && (i < |s| ==> !IsBlank(s[i]))
  {
    i := 0;
    if s != "" && IsBlank(s[0]) {
      i := LeftEnd(s[1..]);
      assert s[1..][i..] == s[i + 1..];
      i := i + 1;
    }
  }

  lemma {:induction false} RightEnd(s: string) returns (j: nat)
    ensures j <= |s| && TrimRight(s) == s[..j] && (j > 0 ==> !IsBlank(s[j - 1]))
    ensures s != "" && !IsBlank(s[0]) ==> j > 0
    decreases |s|
  {
    j := |s|;
    if s != "" && IsBlank(s[|s| - 1]) {
      j := RightEnd(s[..|s| - 1]);
      assert s[..|s| - 1][..j] == s[..j];
    }
  }

  lemma TrimTwice(s: string)
    ensures Trim(Trim(s)) == Trim(s)
  {
    var i, j := TrimSlice(s);
    Untouched(Trim(s));
  }

  lemma Untouched(s: string)
    requires s == "" || (!IsBlank(s[0]) && !IsBlank(s[|s| - 1]))
    ensures Trim(s) == s
  {
  }

  lemma GoodLine(raw: string)
    requires '\n' !in raw
    ensures Trim(Trim(raw)) == Trim(raw) && '\n' !in Trim(raw)
  {
    TrimTwice(raw);
    var i, j := TrimSlice(raw);
  }

  lemma FeedGood(cheats: seq<Cheat>, raw: string)
    requires AllGood(cheats) && '\n' !in raw
    ensures AllGood(Feed(cheats, raw))
  {
    hide Trim;
    GoodLine(raw);
    var line := Trim(raw);
    if line != "" && ParseHeader(line) == None && cheats != [] {
      assert Good(cheats[|cheats| - 1]);
    }
  }

  lemma {:induction false} FeedAllGood(cheats: seq<Cheat>, lines: seq<string>)
    requires AllGood(cheats) && forall k :: 0 <= k < |lines| ==> '\n' !in lines[k]
    ensures AllGood(FeedAll(cheats, lines))
    decreases |lines|
  {
    if lines != [] {
      FeedGood(cheats, lines[0]);
      FeedAllGood(Feed(cheats, lines[0]), lines[1..]);
    }
  }

  lemma {:induction false} LinesHaveNoBreaks(text: string)
    ensures forall k :: 0 <= k < |Lines(text)| ==> '\n' !in Lines(text)[k]
    decreases |text|
  {
    if text != "" {
      var i := LineEnd(text);
      if i < |text| {
        LinesHaveNoBreaks(text[i + 1..]);
      }
    }
  }

  lemma ParseGood(text: string)
    ensures AllGood(Parse(text))
  {
    LinesHaveNoBreaks(text);
    FeedAllGood([], Lines(text));
  }

  // ----- the round trip

  lemma FeedHeader(cheats: seq<Cheat>, c: Cheat)
    ensures Feed(cheats, HeaderLine(c)) == cheats + [c.(opcodes := [])]
  {
    var h := HeaderLine(c);
    assert h[|h| - 1] == if c.isMaster then '}' else ']';
    assert h[1..|h| - 1] == c.name;
    Untouched(h);
  }

  lemma {:induction false} FeedOpcodes(cheats: seq<Cheat>, c: Cheat, k: nat)
    requires Good(c) && k <= |c.opcodes|
    ensures FeedAll(cheats + [c.(opcodes := c.opcodes[..k])], c.opcodes[k..]) == cheats + [c]
    decreases |c.opcodes| - k
  {
    hide Trim, ParseHeader;
    if k == |c.opcodes| {
      assert c.opcodes[..k] == c.opcodes && c.opcodes[k..] == [];
    } else {
      var now := cheats + [c.(opcodes := c.opcodes[..k])];
      assert GoodOpcode(c.opcodes[k]);
      assert c.opcodes[..k + 1] == c.opcodes[..k] + [c.opcodes[k]];
      assert now[..|now| - 1] == cheats;
      assert Feed(now, c.opcodes[k]) == cheats + [c.(opcodes := c.opcodes[..k + 1])];
      assert c.opcodes[k..][1..] == c.opcodes[k + 1..];
      FeedOpcodes(cheats, c, k + 1);
    }
  }

  lemma {:induction false} FeedAllAppend(cheats: seq<Cheat>, a: seq<string>, b: seq<string>)
    ensures FeedAll(cheats, a + b) == FeedAll(FeedAll(cheats, a), b)
    decreases |a|
  {
    hide Feed;
    if a == [] {
      assert a + b == b;
    } else {
      FeedAllAppend(Feed(cheats, a[0]), a[1..], b);
      assert (a + b)[1..] == a[1..] + b;
    }
  }

  /** Reading one written cheat adds exactly that cheat. */
  lemma FeedCheat(cheats: seq<Cheat>, c: Cheat)
    requires Good(c)
    ensures FeedAll(cheats, CheatLines(c)) == cheats + [c]
  {
    hide Feed;
    FeedAllAppend(cheats, [HeaderLine(c)], c.opcodes + [""]);
    assert CheatLines(c) == [HeaderLine(c)] + (c.opcodes + [""]);
    FeedOne(cheats, HeaderLine(c));
    FeedHeader(cheats, c);
    FeedAllAppend(cheats + [c.(opcodes := [])], c.opcodes, [""]);
    FeedOpcodes(cheats, c, 0);
    assert c.opcodes[..0] == [] && c.opcodes[0..] == c.opcodes;
    FeedOne(cheats + [c], "");
    FeedBlank(cheats + [c]);
  }

  lemma FeedOne(cheats: seq<Cheat>, line: string)
    ensures FeedAll(cheats, [line]) == Feed(cheats, line)
  {
    assert [line][1..] == [];
  }

  lemma FeedBlank(cheats: seq<Cheat>)
    ensures Feed(cheats, "") == cheats
  {
  }

  /** Lines written one after the other are read back. */
  lemma {:induction false} LinesOfUnlines(lines: seq<string>, rest: string)
    requires forall k :: 0 <= k < |lines| ==> '\n' !in lines[k]
    ensures Lines(Unlines(lines) + rest) == lines + Lines(rest)
  {
    hide Lines, LineEnd;
    if lines == [] {
      assert Unlines(lines) + rest == rest;
    } else {
      var line, text := lines[0], Unlines(lines) + rest;
      var later := Unlines(lines[1..]) + rest;
      assert text == line + "\n" + later;
      LineEndAt(line, later);
      assert text[..|line|] == line && text[|line| + 1..] == later;
      LinesOfUnlines(lines[1..], rest);
      LinesStep(text);
      assert lines == [line] + lines[1..];
    }
  }

  /** A break that ends the text starts no further line. */
  lemma LinesStep(text: string)
    requires text != "" && LineEnd(text) < |text|
    ensures Lines(text) == [text[..LineEnd(text)]] + Lines(text[LineEnd(text) + 1..])
  {
    hide LineEnd;
  }

  lemma {:induction false} LineEndAt(line: string, later: string)
    requires '\n' !in line
    ensures LineEnd(line + "\n" + later) == |line|
  {
    var text := line + "\n" + later;
    if line != "" {
      assert text[1..] == line[1..] + "\n" + later;
      LineEndAt(line[1..], later);
    }
  }

  /** Printing well-formed cheats and parsing them again gives them back. */
  lemma {:induction false} ParseSerialize(done: seq<Cheat>, cheats: seq<Cheat>)
    requires AllGood(cheats)
    ensures FeedAll(done, Lines(Serialize(cheats))) == done + cheats
    decreases |cheats|
  {
    hide Lines, FeedAll, Unlines, CheatLines, Good;
    if cheats == [] {
      assert done + [] == done;
      FeedNothing(done);
    } else {
      FeedWritten(done, cheats[0], Serialize(cheats[1..]));
      ParseSerialize(done + [cheats[0]], cheats[1..]);
      assert done + [cheats[0]] + cheats[1..] == done + cheats;
    }
  }

  lemma FeedWritten(done: seq<Cheat>, c: Cheat, rest: string)
    requires Good(c)
    ensures FeedAll(done, Lines(Unlines(CheatLines(c)) + rest)) == FeedAll(done + [c], Lines(rest))
  {
    hide *;
    CheatLinesPlain(c);
    LinesOfUnlines(CheatLines(c), rest);
    FeedAllAppend(done, CheatLines(c), Lines(rest));
    FeedCheat(done, c);
  }

  lemma CheatLinesPlain(c: Cheat)
    requires Good(c)
    ensures forall k :: 0 <= k < |CheatLines(c)| ==> '\n' !in CheatLines(c)[k]
  {
    forall k | 0 <= k < |CheatLines(c)|
      ensures '\n' !in CheatLines(c)[k]
    {
      if 1 <= k <= |c.opcodes| {
        assert GoodOpcode(c.opcodes[k - 1]);
      }
    }
  }

  lemma {:induction false} SelectedGood(cheats: seq<Cheat>, enabled: set<string>)
    requires AllGood(cheats)
    ensures AllGood(Selected(cheats, enabled))
  {
    if cheats != [] {
      assert Good(cheats[0]);
      SelectedGood(cheats[1..], enabled);
    }
  }

  /** For any text and any choice, the file written for the choice parses to the master and chosen cheats of the
      text, in order. */
  lemma RoundTrip(text: string, enabled: set<string>)
    ensures Parse(Serialize(Selected(Parse(text), enabled))) == Selected(Parse(text), enabled)
  {
    ParseGood(text);
    SelectedGood(Parse(text), enabled);
    ParseSerialize([], Selected(Parse(text), enabled));
    assert [] + Selected(Parse(text), enabled) == Selected(Parse(text), enabled);
  }

  /** Read back are exactly the masters of the text, all of them, and the regular cheats whose names were chosen. */
  lemma KeptExactly(text: string, enabled: set<string>, c: Cheat)
    ensures c in Parse(Serialize(Selected(Parse(text), enabled)))
      <==> c in Parse(text) && (c.isMaster || c.name in enabled)
  {
    hide Parse, Serialize;
    RoundTrip(text, enabled);
    SelectedMember(Parse(text), enabled, c);
  }

  /** Spaces, tabs and line ends around a line do not matter. */
  lemma PaddingIgnored(cheats: seq<Cheat>, a: string, line: string, b: string)
    requires forall c :: c in a + b ==> c in [' ', '\t', '\r', '\n']
    ensures Feed(cheats, a + line + b) == Feed(cheats, line)
  {
    assert forall k :: 0 <= k < |a| ==> a[k] in a + b;
    assert forall k :: 0 <= k < |b| ==> b[k] in a + b;
    TrimPadded(a, line, b);
    hide Trim;
  }

  lemma {:induction false} TrimPadded(a: string, line: string, b: string)
    requires (forall k :: 0 <= k < |a| ==> IsBlank(a[k])) && forall k :: 0 <= k < |b| ==> IsBlank(b[k])
    ensures Trim(a + line + b) == Trim(line)
    decreases |a| + |b|
  {
    if a != "" {
      TrimPadded(a[1..], line, b);
      assert (a + line + b)[1..] == a[1..] + line + b;
    } else if b != "" {
      var most := b[..|b| - 1];
      TrimPadded("", line, most);
      TrimLeftPadded(line + most, b[|b| - 1]);
      assert "" + line + most == line + most && "" + line + b == line + most + [b[|b| - 1]];
    } else {
      assert a + line + b == line;
    }
  }

  lemma {:induction false} TrimLeftPadded(s: string, c: char)
    requires IsBlank(c)
    ensures TrimRight(TrimLeft(s + [c])) == TrimRight(TrimLeft(s))
  {
    if s == "" {
      assert (s + [c])[1..] == "";
    } else if IsBlank(s[0]) {
      assert (s + [c])[1..] == s[1..] + [c];
      TrimLeftPadded(s[1..], c);
    } else {
      assert (s + [c])[..|s|] == s;
    }
  }

  /** Trimming stops at the first and last character that is none of these. */
  lemma TrimStops(line: string)
    requires line != "" && line[0] !in [' ', '\t', '\r', '\n'] && line[|line| - 1] !in [' ', '\t', '\r', '\n']
    ensures Trim(line) == line
  {
    Untouched(line);
  }

  /** A name in brackets or braces, once trimmed. */
  predicate IsHeaderText(t: string) {
    |t| >= 2 && ((t[0] == '[' && t[|t| - 1] == ']') || (t[0] == '{' && t[|t| - 1] == '}'))
  }

  function Headers(lines: seq<string>): nat
    decreases |lines|
  {
    if lines == [] then 0 else (if IsHeaderText(Trim(lines[0])) then 1 else 0) + Headers(lines[1..])
  }

  /** There are as many cheats as header lines: what stands before the first header is ignored. */
  lemma HeadersAreCheats(text: string)
    ensures |Parse(text)| == Headers(Lines(text))
  {
    FeedCounts([], Lines(text));
  }

  lemma {:induction false} FeedCounts(cheats: seq<Cheat>, lines: seq<string>)
    ensures |FeedAll(cheats, lines)| == |cheats| + Headers(lines)
    decreases |lines|
  {
    hide Trim;
    if lines != [] {
      FeedCounts(Feed(cheats, lines[0]), lines[1..]);
    }
  }

  /** A line in square brackets is a regular cheat, one in braces a master. */
  lemma HeaderLines(name: string)
    requires '\n' !in name
    ensures Parse("[" + name + "]\n") == [Cheat(name, false, [])]
    ensures Parse("{" + name + "}\n") == [Cheat(name, true, [])]
  {
    hide Parse;
    assert "[" + name + "]\n" == "[" + name + "]" + "\n" && "{" + name + "}\n" == "{" + name + "}" + "\n";
    assert ("[" + name + "]")[1..|name| + 1] == name && ("{" + name + "}")[1..|name| + 1] == name;
    HeaderLineRead("[" + name + "]", Cheat(name, false, []));
    HeaderLineRead("{" + name + "}", Cheat(name, true, []));
  }

  lemma HeaderLineRead(line: string, c: Cheat)
    requires '\n' !in line && |line| >= 2 && line[1..|line| - 1] == c.name && c.opcodes == []
    requires line[0] == if c.isMaster then '{' else '['
    requires line[|line| - 1] == if c.isMaster then '}' else ']'
    ensures Parse(line + "\n") == [c]
  {
    Untouched(line);
    assert Feed([], line) == [c];
    hide Trim, Feed, ParseHeader;
    LineEndAt(line, "");
    var text := line + "\n";
    assert text + "" == text && text[..|line|] == line && text[|line| + 1..] == "";
    LinesStep(text);
    FeedOne([], line);
  }

  function RegularNames(cheats: seq<Cheat>): set<string> {
    set c | c in cheats && !c.isMaster :: c.name
  }

  method EnabledCheatNames(content: string) returns (names: set<string>)
    ensures names == RegularNames(Parse(content))
  {
    var cheats := ParseTxt(content);
    names := {};
    for i := 0 to |cheats|
      invariant names == RegularNames(cheats[..i])
    {
      assert cheats[..i + 1] == cheats[..i] + [cheats[i]];
      if !cheats[i].isMaster {
        names := names + {cheats[i].name};
      }
    }
    assert cheats[..|cheats|] == cheats;
  }

  lemma {:induction false} SelectedMember(cheats: seq<Cheat>, enabled: set<string>, c: Cheat)
    ensures c in Selected(cheats, enabled) <==> c in cheats && Included(c, enabled)
  {
    if cheats != [] {
      SelectedMember(cheats[1..], enabled, c);
      assert cheats == [cheats[0]] + cheats[1..];
    }
  }

  /** The names read back from the written file are the chosen ones among the regular cheats. */
  lemma NamesReadBack(text: string, enabled: set<string>)
    ensures RegularNames(Parse(Serialize(Selected(Parse(text), enabled)))) == RegularNames(Parse(text)) * enabled
  {
    RoundTrip(text, enabled);
    var cheats := Parse(text);
    forall c
      ensures c in Selected(cheats, enabled) <==> c in cheats && Included(c, enabled)
    {
      SelectedMember(cheats, enabled, c);
    }
  }
}
