/** The edit of an INI file that switches one setting on: what it finds, what it writes, and what it leaves alone. */
module Ini {
  import opened Wrappers

  const SECTION := "atmosphere"
  const KEY := "dmnt_cheats_enabled_by_default"
  const DESIRED := KEY + " = u8!0x1"
  const HEADER := "[" + SECTION + "]"

  // ----- characters and strings

  predicate IsSpace(c: char) {
    c == ' ' || 9 as char <= c <= 13 as char
  }

  function TrimLeft(s: string): string {
    if s != "" && IsSpace(s[0]) then TrimLeft(s[1..]) else s
  }

  function TrimRight(s: string): string {
    if s != "" && IsSpace(s[|s| - 1]) then TrimRight(s[..|s| - 1]) else s
  }

  function Trim(s: string): string {
    TrimRight(TrimLeft(s))
  }

  function ToLower(c: char): char {
    if 'A' <= c <= 'Z' then c - 'A' + 'a' else c
  }

  function Lower(s: string): (r: string)
    ensures |r| == |s|
  {
    seq(|s|, i requires 0 <= i < |s| => ToLower(s[i]))
  }

  /** The first position of a character, or the length. */
  function Find(s: string, c: char): (i: nat)
    ensures i <= |s| && (i < |s| ==> s[i] == c) && forall j :: 0 <= j < i ==> s[j] != c
  {
    if s == "" || s[0] == c then 0 else 1 + Find(s[1..], c)
  }

  // ----- lines

  predicate IsHeader(t: string) {
    |t| >= 2 && t[0] == '[' && t[|t| - 1] == ']'
  }

  function SectionName(t: string): string
    requires IsHeader(t)
  {
    Lower(Trim(t[1..|t| - 1]))
  }

  predicate IsComment(t: string) {
    t != "" && (t[0] == ';' || t[0] == '#')
  }

  lemma {:induction false} TrimShorter(s: string)
    ensures |TrimLeft(s)| <= |s| && |TrimRight(s)| <= |s| && |Trim(s)| <= |s|
    decreases |s|
  {
    TrimLeftShorter(s);
    TrimRightShorter(s);
    TrimRightShorter(TrimLeft(s));
  }

  lemma {:induction false} TrimLeftShorter(s: string)
    ensures |TrimLeft(s)| <= |s|
  {
    if s != "" && IsSpace(s[0]) {
      TrimLeftShorter(s[1..]);
    }
  }

  lemma {:induction false} TrimRightShorter(s: string)
    ensures |TrimRight(s)| <= |s|
    decreases |s|
  {
    if s != "" && IsSpace(s[|s| - 1]) {
      TrimRightShorter(s[..|s| - 1]);
    }
  }

  /** A line without its comment markers. */
  function Uncomment(t: string): string
    decreases |t|
  {
    if IsComment(t) then (TrimShorter(t[1..]); Uncomment(Trim(t[1..]))) else t
  }

  /** The value the line gives the setting, commented out or not. */
  function KeyValue(t: string): Option<string> {
    var l := Uncomment(t);
    if |l| < |KEY| || Lower(l)[..|KEY|] != KEY then None
    else
      var rest := Trim(l[|KEY|..]);
      if rest == "" || rest[0] != '=' then None else Some(Trim(rest[1..]))
  }

  predicate ValueIsOn(value: string) {
    var bang := Find(value, '!');
    var v := Lower(Trim(if bang < |value| then value[bang + 1..] else value));
    !(v == "" || v == "0x0" || v == "0" || v == "false")
  }

  // ----- splitting and joining

  function SplitFrom(text: string, cur: string): (lines: seq<string>)
    ensures |lines| >= 1
    decreases |text|
  {
    if text == "" then [cur]
    else if text[0] == '\n' then [cur] + SplitFrom(text[1..], "")
    else if text[0] == '\r' then SplitFrom(text[1..], cur)
    else SplitFrom(text[1..], cur + [text[0]])
  }

  function Split(text: string): seq<string> {
    SplitFrom(text, "")
  }

  function Join(lines: seq<string>): string {
    if lines == [] then "" else if |lines| == 1 then lines[0] else lines[0] + "\n" + Join(lines[1..])
  }

  predicate Plain(line: string) {
    '\n' !in line && '\r' !in line
  }

  predicate AllPlain(lines: seq<string>) {
    forall i :: 0 <= i < |lines| ==> Plain(lines[i])
  }

  function WithoutReturns(text: string): string {
    if text == "" then "" else (if text[0] == '\r' then "" else [text[0]]) + WithoutReturns(text[1..])
  }

  /** Joining what was split gives the text back, up to dropped carriage returns. */
  lemma {:induction false} JoinSplit(text: string, cur: string)
    ensures Join(SplitFrom(text, cur)) == cur + WithoutReturns(text)
    decreases |text|
  {
    hide Join, WithoutReturns;
    WithoutReturnsStep(text);
    if text == "" {
      JoinOne(cur);
      assert cur + "" == cur;
    } else if text[0] == '\n' {
      JoinSplit(text[1..], "");
      JoinCons(cur, SplitFrom(text[1..], ""));
      Associate(cur, "\n", WithoutReturns(text[1..]));
      assert "" + WithoutReturns(text[1..]) == WithoutReturns(text[1..]);
    } else if text[0] == '\r' {
      JoinSplit(text[1..], cur);
    } else {
      JoinSplit(text[1..], cur + [text[0]]);
      Associate(cur, [text[0]], WithoutReturns(text[1..]));
    }
  }

  lemma Associate(a: string, b: string, c: string)
    ensures a + b + c == a + (b + c)
  {
  }

  lemma JoinOne(line: string)
    ensures Join([line]) == line
  {
  }

  lemma WithoutReturnsStep(text: string)
    ensures WithoutReturns(text)
         == if text == "" then "" else if text[0] == '\r' then WithoutReturns(text[1..]) else [text[0]] + WithoutReturns(text[1..])
  {
    if text != "" && text[0] == '\r' {
      assert "" + WithoutReturns(text[1..]) == WithoutReturns(text[1..]);
    }
  }

  lemma JoinCons(line: string, lines: seq<string>)
    requires lines != []
    ensures Join([line] + lines) == line + "\n" + Join(lines)
  {
    assert ([line] + lines)[1..] == lines;
  }

  lemma {:induction false} SplitIsPlain(text: string, cur: string)
    requires Plain(cur)
    ensures AllPlain(SplitFrom(text, cur))
    decreases |text|
  {
    if text == "" {
    } else if text[0] == '\n' {
      SplitIsPlain(text[1..], "");
    } else if text[0] == '\r' {
      SplitIsPlain(text[1..], cur);
    } else {
      SplitIsPlain(text[1..], cur + [text[0]]);
    }
  }

  /** Splitting what was joined gives the lines back. */
  lemma {:induction false} SplitJoin(lines: seq<string>)
    requires lines != [] && AllPlain(lines)
    ensures Split(Join(lines)) == lines
  {
    if |lines| == 1 {
      SplitPlain(lines[0], "", "");
      assert lines[0] + "" == lines[0];
    } else {
      var tail := "\n" + Join(lines[1..]);
      SplitPlain(lines[0], tail, "");
      SplitJoin(lines[1..]);
      assert tail[1..] == Join(lines[1..]);
      assert Join(lines) == lines[0] + tail;
      assert "" + lines[0] == lines[0];
    }
  }

  lemma {:induction false} SplitPlain(line: string, tail: string, cur: string)
    requires Plain(line)
    ensures SplitFrom(line + tail, cur) == SplitFrom(tail, cur + line)
    decreases |line|
  {
    if line == "" {
      assert line + tail == tail && cur + line == cur;
    } else {
      assert line[0] in line;
      SplitPlain(line[1..], tail, cur + [line[0]]);
      assert (line + tail)[1..] == line[1..] + tail;
      assert cur + [line[0]] + line[1..] == cur + line;
    }
  }

  // ----- finding the setting

  /** Where the scan found the section's first header and the setting's first line in it. */
  datatype Found = Found(header: Option<nat>, key: Option<nat>, on: bool)

  /** The section a line leaves the scan in. */
  function SectionAfter(line: string, cur: string): string {
    if IsHeader(Trim(line)) then SectionName(Trim(line)) else cur
  }

  /** A line of the section that sets the key, even if commented out. */
  predicate SetsKey(line: string, cur: string) {
    !IsHeader(Trim(line)) && cur == SECTION && KeyValue(Trim(line)).Some?
  }

  predicate IsOn(line: string) {
    KeyValue(Trim(line)).Some? && !IsComment(Trim(line)) && ValueIsOn(KeyValue(Trim(line)).value)
  }

  function Scan(lines: seq<string>, i: nat, cur: string, header: Option<nat>): Found
    requires i <= |lines|
    decreases |lines| - i
  {
    if i == |lines| then Found(header, None, false)
    else if SetsKey(lines[i], cur) then Found(header, Some(i), IsOn(lines[i]))
    else
      var cur' := SectionAfter(lines[i], cur);
      Scan(lines, i + 1, cur', if IsHeader(Trim(lines[i])) && cur' == SECTION && header == None then Some(i) else header)
  }

  function FindKey(lines: seq<string>): Found {
    Scan(lines, 0, "", None)
  }

  // ----- the edit

  datatype Result = AlreadyEnabled | Enabled | Failed

  /** The lines to write, or none when the setting is on already. */
  function Edit(lines: seq<string>): Option<seq<string>> {
    var f := FindKey(lines);
    FoundInside(lines, 0, "", None);
    if f.key.Some? && f.on then None
    else if f.key.Some? then Some(lines[f.key.value := DESIRED])
    else if f.header.Some? then Some(lines[..f.header.value + 1] + [DESIRED] + lines[f.header.value + 1..])
    else Some(lines + (if lines != [] && Trim(lines[|lines| - 1]) != "" then [""] else []) + [HEADER, DESIRED])
  }

  lemma {:induction false} FoundInside(lines: seq<string>, i: nat, cur: string, header: Option<nat>)
    requires i <= |lines| && (header.Some? ==> header.value < |lines|)
    ensures var f := Scan(lines, i, cur, header);
      (f.key.Some? ==> f.key.value < |lines|) && (f.header.Some? ==> f.header.value < |lines|)
    decreases |lines| - i
  {
    if i < |lines| && !SetsKey(lines[i], cur) {
      var cur' := SectionAfter(lines[i], cur);
      FoundInside(lines, i + 1, cur', if IsHeader(Trim(lines[i])) && cur' == SECTION && header == None then Some(i) else header);
    }
  }

  // ----- the constants

  lemma KeyChars(i: nat)
    requires i < |KEY|
    ensures KEY[i] != '=' && !IsSpace(KEY[i]) && ToLower(KEY[i]) == KEY[i]
  {
  }

  lemma LowerKey()
    ensures Lower(KEY) == KEY && |KEY| == 30 && KEY[0] == 'd' && KEY[29] == 't'
  {
    forall i | 0 <= i < |KEY|
      ensures Lower(KEY)[i] == KEY[i]
    {
      KeyChars(i);
    }
  }

  /** The line that is written sets the key, to a value that is on. */
  lemma DesiredSets()
    ensures Trim(DESIRED) == DESIRED && !IsHeader(DESIRED) && !IsComment(DESIRED)
    ensures KeyValue(DESIRED) == Some("u8!0x1") && ValueIsOn("u8!0x1")
    ensures SetsKey(DESIRED, SECTION) && IsOn(DESIRED)
  {
    LowerKey();
    var tail := " = u8!0x1";
    assert DESIRED[0] == 'd' && DESIRED[|DESIRED| - 1] == '1';
    assert Trim(DESIRED) == DESIRED;
    assert Uncomment(DESIRED) == DESIRED;
    assert Lower(DESIRED)[..|KEY|] == Lower(DESIRED[..|KEY|]);
    assert DESIRED[..|KEY|] == KEY && DESIRED[|KEY|..] == tail;
    TailValue();
    OnValue();
  }

  lemma TailValue()
    ensures Trim(" = u8!0x1") == "= u8!0x1" && Trim("= u8!0x1"[1..]) == "u8!0x1"
  {
    assert " = u8!0x1"[1..] == "= u8!0x1" && "= u8!0x1"[1..] == " u8!0x1" && " u8!0x1"[1..] == "u8!0x1";
  }

  lemma OnValue()
    ensures ValueIsOn("u8!0x1")
  {
    var v := "u8!0x1";
    assert v[2] == '!' && v[0] != '!' && v[1] != '!';
    assert Find(v, '!') == 2;
    assert v[3..] == "0x1";
    assert Lower("0x1") == "0x1";
  }

  lemma HeaderOpens()
    ensures Trim(HEADER) == HEADER && IsHeader(HEADER) && SectionName(HEADER) == SECTION
    ensures Trim("") == "" && !IsHeader("") && KeyValue("") == None
  {
    assert HEADER[0] == '[' && HEADER[|HEADER| - 1] == ']';
    assert HEADER[1..|HEADER| - 1] == SECTION;
    assert Trim(SECTION) == SECTION;
    assert Lower(SECTION) == SECTION;
  }

  // ----- what the scan finds

  /** The section after some lines. */
  function After(lines: seq<string>, cur: string): string {
    if lines == [] then cur else After(lines[1..], SectionAfter(lines[0], cur))
  }

  lemma {:induction false} AfterAppend(a: seq<string>, b: seq<string>, cur: string)
    ensures After(a + b, cur) == After(b, After(a, cur))
  {
    if a == [] {
      assert a + b == b;
    } else {
      AfterAppend(a[1..], b, SectionAfter(a[0], cur));
      assert (a + b)[1..] == a[1..] + b;
    }
  }

  lemma AfterSnoc(lines: seq<string>, k: nat)
    requires k < |lines|
    ensures After(lines[..k + 1], "") == SectionAfter(lines[k], After(lines[..k], ""))
  {
    AfterAppend(lines[..k], [lines[k]], "");
    assert lines[..k + 1] == lines[..k] + [lines[k]];
    assert [lines[k]][1..] == [];
  }

  predicate KeyAt(lines: seq<string>, k: nat)
    requires k < |lines|
  {
    SetsKey(lines[k], After(lines[..k], ""))
  }

  predicate HeaderAt(lines: seq<string>, k: nat)
    requires k < |lines|
  {
    IsHeader(Trim(lines[k])) && SectionName(Trim(lines[k])) == SECTION
  }

  /** The scan stops at the first line that sets the key; without one it knows the first header of the section. */
  lemma {:induction false} ScanFinds(lines: seq<string>, i: nat, header: Option<nat>)
    requires i <= |lines| && (header.Some? ==> header.value < i && HeaderAt(lines, header.value))
    requires header == None ==> forall j :: 0 <= j < i ==> !HeaderAt(lines, j)
    ensures var f := Scan(lines, i, After(lines[..i], ""), header);
      && (f.key.Some? ==> i <= f.key.value < |lines| && KeyAt(lines, f.key.value) && f.on == IsOn(lines[f.key.value]))
      && (forall j :: i <= j < (if f.key.Some? then f.key.value else |lines|) ==> !KeyAt(lines, j))
      && (f.key == None && f.header.Some? ==> f.header.value < |lines| && HeaderAt(lines, f.header.value))
      && (f.key == None && f.header == None ==> forall j :: 0 <= j < |lines| ==> !HeaderAt(lines, j))
    decreases |lines| - i
  {
    hide SetsKey, IsOn, IsHeader, SectionName, Trim;
    if i < |lines| && !KeyAt(lines, i) {
      AfterSnoc(lines, i);
      var cur' := After(lines[..i + 1], "");
      ScanFinds(lines, i + 1, if IsHeader(Trim(lines[i])) && cur' == SECTION && header == None then Some(i) else header);
    }
  }

  /** Finding the key is finding its first line. */
  lemma FoundAt(lines: seq<string>, k: nat)
    requires k < |lines| && KeyAt(lines, k) && forall j :: 0 <= j < k ==> !KeyAt(lines, j)
    ensures FindKey(lines).key == Some(k) && FindKey(lines).on == IsOn(lines[k])
  {
    hide SetsKey, IsOn, HeaderAt;
    ScanFinds(lines, 0, None);
  }

  /** Lines that agree up to `k` find the same there. */
  lemma SamePrefix(a: seq<string>, b: seq<string>, k: nat)
    requires k <= |a| && k <= |b| && a[..k] == b[..k]
    ensures forall j :: 0 <= j < k ==> KeyAt(a, j) == KeyAt(b, j)
  {
    forall j | 0 <= j < k
      ensures KeyAt(a, j) == KeyAt(b, j)
    {
      assert a[j] == a[..k][j] && b[j] == b[..k][j];
      assert a[..j] == a[..k][..j] && b[..j] == b[..k][..j];
    }
  }

  /** No line sets the key while no header opens the section. */
  lemma {:induction false} NoHeaderNoSection(lines: seq<string>, k: nat)
    requires k <= |lines| && forall j :: 0 <= j < |lines| ==> !HeaderAt(lines, j)
    ensures After(lines[..k], "") != SECTION
  {
    if k != 0 {
      NoHeaderNoSection(lines, k - 1);
      AfterSnoc(lines, k - 1);
      assert !HeaderAt(lines, k - 1);
    }
  }

  /** What was written is found switched on. */
  lemma EditSettles(lines: seq<string>)
    requires Edit(lines).Some?
    ensures FindKey(Edit(lines).value).key.Some? && FindKey(Edit(lines).value).on
    ensures var k := FindKey(Edit(lines).value).key.value; k < |Edit(lines).value| && Edit(lines).value[k] == DESIRED
  {
    hide SetsKey, IsOn, Trim, SectionName, IsHeader;
    var f, lines' := FindKey(lines), Edit(lines).value;
    ScanFinds(lines, 0, None);
    DesiredSets();
    if f.key.Some? {
      var k := f.key.value;
      SamePrefix(lines, lines', k);
      assert lines'[..k] == lines[..k];
      KeySection(lines, k);
      FoundAt(lines', k);
    } else if f.header.Some? {
      var h := f.header.value;
      assert lines'[..h + 1] == lines[..h + 1];
      SamePrefix(lines, lines', h + 1);
      AfterSnoc(lines, h);
      HeaderSection(lines, h);
      FoundAt(lines', h + 1);
    } else {
      AppendSettles(lines, lines');
    }
  }

  lemma KeySection(lines: seq<string>, k: nat)
    requires k < |lines| && KeyAt(lines, k)
    ensures After(lines[..k], "") == SECTION
  {
  }

  lemma HeaderSection(lines: seq<string>, h: nat)
    requires h < |lines| && HeaderAt(lines, h)
    ensures SectionAfter(lines[h], After(lines[..h], "")) == SECTION
  {
  }

  lemma NoKeys(lines: seq<string>)
    requires forall j :: 0 <= j < |lines| ==> !HeaderAt(lines, j)
    ensures forall j :: 0 <= j < |lines| ==> !KeyAt(lines, j)
  {
    forall j | 0 <= j < |lines|
      ensures !KeyAt(lines, j)
    {
      NoHeaderNoSection(lines, j);
    }
  }

  lemma AppendSettles(lines: seq<string>, lines': seq<string>)
    requires forall j :: 0 <= j < |lines| ==> !HeaderAt(lines, j)
    requires lines' == lines + [HEADER, DESIRED] || lines' == lines + [""] + [HEADER, DESIRED]
    ensures FindKey(lines').key.Some? && FindKey(lines').on
    ensures var k := FindKey(lines').key.value; k < |lines'| && lines'[k] == DESIRED
  {
    DesiredSets();
    HeaderOpens();
    hide Trim, SectionName, KeyValue, IsOn;
    var n := |lines'| - 2;
    NoKeys(lines);
    assert lines'[..|lines|] == lines;
    SamePrefix(lines, lines', |lines|);
    assert lines'[n] == HEADER && lines'[n + 1] == DESIRED;
    assert !KeyAt(lines', n);
    if n > |lines| {
      assert lines'[|lines|] == "";
      assert !KeyAt(lines', |lines|);
    }
    AfterSnoc(lines', n);
    FoundAt(lines', n + 1);
  }

  // ----- what a reader of the file sees

  datatype Entry = Entry(key: string, value: string)

  /** The setting a line makes: neither a header nor a comment, name and value around the first '='. */
  function EntryOf(line: string): Option<Entry> {
    var t := Trim(line);
    var p := Find(t, '=');
    if IsHeader(t) || IsComment(t) || p == |t| then None else Some(Entry(Lower(Trim(t[..p])), Trim(t[p + 1..])))
  }

  predicate Makes(line: string, cur: string, section: string, key: string) {
    cur == section && EntryOf(line).Some? && EntryOf(line).value.key == key
  }

  /** The first value of a key in a section. */
  function Lookup(lines: seq<string>, cur: string, section: string, key: string): Option<string> {
    if lines == [] then None
    else if Makes(lines[0], cur, section, key) then Some(EntryOf(lines[0]).value.value)
    else Lookup(lines[1..], SectionAfter(lines[0], cur), section, key)
  }

  lemma {:induction false} LookupAppend(a: seq<string>, b: seq<string>, cur: string, section: string, key: string)
    ensures Lookup(a + b, cur, section, key)
         == if Lookup(a, cur, section, key).Some? then Lookup(a, cur, section, key) else Lookup(b, After(a, cur), section, key)
  {
    hide Makes, EntryOf, SectionAfter;
    if a == [] {
      assert a + b == b;
    } else {
      LookupAppend(a[1..], b, SectionAfter(a[0], cur), section, key);
      assert (a + b)[0] == a[0] && (a + b)[1..] == a[1..] + b;
    }
  }

  /** A line that neither makes the setting nor opens a section can stand anywhere. */
  lemma LookupSkips(line: string, b: seq<string>, cur: string, section: string, key: string)
    requires !IsHeader(Trim(line)) && !Makes(line, cur, section, key)
    ensures Lookup([line] + b, cur, section, key) == Lookup(b, cur, section, key)
  {
    assert ([line] + b)[1..] == b;
  }

  // ----- the line that is replaced made only this setting

  lemma {:induction false} TrimLeftSplit(s: string) returns (m: nat)
    ensures m <= |s| && TrimLeft(s) == s[m..] && (forall j :: 0 <= j < m ==> IsSpace(s[j])) && (m < |s| ==> !IsSpace(s[m]))
  {
    if s != "" && IsSpace(s[0]) {
      m := TrimLeftSplit(s[1..]);
      m := m + 1;
      assert s[1..][m - 1..] == s[m..];
    } else {
      m := 0;
    }
  }

  lemma {:induction false} TrimRightSpaces(a: string, b: string)
    requires a != "" && !IsSpace(a[|a| - 1]) && forall j :: 0 <= j < |b| ==> IsSpace(b[j])
    ensures TrimRight(a + b) == a
    decreases |b|
  {
    if b == "" {
      assert a + b == a;
    } else {
      TrimRightSpaces(a, b[..|b| - 1]);
      assert (a + b)[..|a + b| - 1] == a + b[..|b| - 1];
    }
  }

  lemma {:induction false} TrimRightStarts(s: string)
    ensures |TrimRight(s)| <= |s| && TrimRight(s) == s[..|TrimRight(s)|]
    decreases |s|
  {
    if s != "" && IsSpace(s[|s| - 1]) {
      TrimRightStarts(s[..|s| - 1]);
    }
  }

  lemma ReplacedLine(line: string)
    requires SetsKey(line, SECTION)
    ensures EntryOf(line) == None || EntryOf(line).value.key == KEY
  {
    var t := Trim(line);
    if !IsComment(t) {
      assert Uncomment(t) == t;
      var name, u := t[..|KEY|], t[|KEY|..];
      var m := TrimLeftSplit(u);
      TrimRightStarts(u[m..]);
      assert Trim(u)[0] == u[m] == '=';
      NameOf(t, m);
    }
  }

  lemma NameOf(t: string, m: nat)
    requires |t| > |KEY| + m && Lower(t)[..|KEY|] == KEY && t[|KEY| + m] == '='
    requires forall j :: 0 <= j < m ==> IsSpace(t[|KEY|..][j])
    ensures Find(t, '=') == |KEY| + m && Lower(Trim(t[..|KEY| + m])) == KEY
  {
    LowerKey();
    var name, spaces := t[..|KEY|], t[|KEY|..|KEY| + m];
    forall j | 0 <= j < |KEY|
      ensures t[j] != '=' && !IsSpace(t[j]) && ToLower(t[j]) == KEY[j]
    {
      assert Lower(t)[..|KEY|][j] == ToLower(t[j]);
      KeyChars(j);
    }
    forall j | |KEY| <= j < |KEY| + m
      ensures t[j] != '=' && IsSpace(t[j])
    {
      assert t[|KEY|..][j - |KEY|] == t[j];
    }
    assert t[..|KEY| + m] == name + spaces;
    assert TrimLeft(name + spaces) == name + spaces;
    TrimRightSpaces(name, spaces);
    assert Lower(name) == KEY;
  }

  lemma DesiredMakes()
    ensures EntryOf(DESIRED) == Some(Entry(KEY, "u8!0x1"))
  {
    DesiredSets();
    DesiredName();
    DesiredValue();
    hide Trim, Lower, Find, IsHeader, IsComment, KeyValue, ValueIsOn;
  }

  lemma DesiredName()
    ensures Find(DESIRED, '=') == |KEY| + 1 && Lower(Trim(DESIRED[..|KEY| + 1])) == KEY
  {
    LowerKey();
    var tail := " = u8!0x1";
    assert DESIRED[..|KEY|] == KEY && DESIRED[|KEY|..] == tail;
    assert Lower(DESIRED)[..|KEY|] == Lower(DESIRED[..|KEY|]);
    assert DESIRED[|KEY| + 1] == tail[1];
    hide Trim, Find;
    NameOf(DESIRED, 1);
  }

  lemma DesiredValue()
    ensures Trim(DESIRED[|KEY| + 1 + 1..]) == "u8!0x1"
  {
    var tail := " = u8!0x1";
    assert DESIRED[|KEY| + 2..] == tail[2..] == " u8!0x1";
    assert "= u8!0x1"[1..] == " u8!0x1";
    hide Trim;
    TailValue();
  }

  /** A line replaced where neither the old nor the new one makes the setting. */
  lemma LookupReplace(lines: seq<string>, k: nat, line: string, section: string, key: string)
    requires k < |lines| && !IsHeader(Trim(lines[k])) && !IsHeader(Trim(line))
    requires !Makes(lines[k], After(lines[..k], ""), section, key) && !Makes(line, After(lines[..k], ""), section, key)
    ensures Lookup(lines[k := line], "", section, key) == Lookup(lines, "", section, key)
  {
    hide Makes, Trim, IsHeader, Lookup;
    var a, b := lines[..k], lines[k + 1..];
    assert lines == a + ([lines[k]] + b) && lines[k := line] == a + ([line] + b);
    LookupAppend(a, [lines[k]] + b, "", section, key);
    LookupAppend(a, [line] + b, "", section, key);
    LookupSkips(lines[k], b, After(a, ""), section, key);
    LookupSkips(line, b, After(a, ""), section, key);
  }

  /** A line inserted where it does not make the setting. */
  lemma LookupInsert(lines: seq<string>, k: nat, line: string, section: string, key: string)
    requires k <= |lines| && !IsHeader(Trim(line)) && !Makes(line, After(lines[..k], ""), section, key)
    ensures Lookup(lines[..k] + [line] + lines[k..], "", section, key) == Lookup(lines, "", section, key)
  {
    hide Makes, Trim, IsHeader, Lookup;
    var a, b := lines[..k], lines[k..];
    assert lines == a + b && a + [line] + b == a + ([line] + b);
    LookupAppend(a, b, "", section, key);
    LookupAppend(a, [line] + b, "", section, key);
    LookupSkips(line, b, After(a, ""), section, key);
  }

  /** Every other setting keeps the value a reader finds first. */
  lemma OthersUnchanged(lines: seq<string>, section: string, key: string)
    requires Edit(lines).Some? && !(section == SECTION && key == KEY)
    ensures Lookup(Edit(lines).value, "", section, key) == Lookup(lines, "", section, key)
  {
    hide SetsKey, Trim, SectionName, IsHeader, EntryOf, Lookup;
    var f, lines' := FindKey(lines), Edit(lines).value;
    ScanFinds(lines, 0, None);
    DesiredSets();
    DesiredMakes();
    if f.key.Some? {
      var k := f.key.value;
      KeySection(lines, k);
      ReplacedLine(lines[k]);
      KeyNotHeader(lines[k]);
      LookupReplace(lines, k, DESIRED, section, key);
    } else if f.header.Some? {
      var h := f.header.value;
      AfterSnoc(lines, h);
      HeaderSection(lines, h);
      LookupInsert(lines, h + 1, DESIRED, section, key);
    } else {
      var pad := if lines != [] && Trim(lines[|lines| - 1]) != "" then [""] else [];
      assert lines' == lines + (pad + [HEADER, DESIRED]);
      LookupAppend(lines, pad + [HEADER, DESIRED], "", section, key);
      LookupTail(pad, After(lines, ""), section, key);
    }
  }

  lemma KeyNotHeader(line: string)
    requires SetsKey(line, SECTION)
    ensures !IsHeader(Trim(line))
  {
  }

  lemma LookupTail(pad: seq<string>, cur: string, section: string, key: string)
    requires (pad == [] || pad == [""]) && !(section == SECTION && key == KEY)
    ensures Lookup(pad + [HEADER, DESIRED], cur, section, key) == None
  {
    HeaderOpens();
    DesiredSets();
    DesiredMakes();
    hide Trim, SectionName, KeyValue;
    var tail := [HEADER] + [DESIRED];
    assert [HEADER, DESIRED] == tail && tail[1..] == [DESIRED] && [DESIRED][1..] == [];
    assert EntryOf(HEADER) == None;
    assert Lookup([DESIRED], SECTION, section, key) == None;
    assert Lookup(tail, cur, section, key) == None;
    if pad == [] {
      assert pad + [HEADER, DESIRED] == tail;
    } else {
      assert EntryOf("") == None;
      LookupSkips("", tail, cur, section, key);
      assert pad + [HEADER, DESIRED] == [""] + tail;
    }
  }

  // ----- which values are off

  /** Blanks and line ends, as the C locale has them. */
  predicate IsBlank(c: char) {
    c == ' ' || c == '\t' || c == '\n' || c == '\r' || c == 11 as char || c == 12 as char
  }

  predicate AllBlank(s: string) {
    forall i :: 0 <= i < |s| ==> IsBlank(s[i])
  }

  /** The word, each letter in either case. */
  predicate AnyCase(s: string, word: string) {
    |s| == |word| && forall i :: 0 <= i < |s| ==> s[i] == word[i] || ('A' <= s[i] <= 'Z' && s[i] as int + 32 == word[i] as int)
  }

  predicate OffWord(s: string) {
    AnyCase(s, "") || AnyCase(s, "0") || AnyCase(s, "0x0") || AnyCase(s, "false")
  }

  /** Nothing, 0, 0x0 or false, in any letter case and with any blanks around it. */
  ghost predicate SaysOff(v: string) {
    exists i, j :: 0 <= i <= j <= |v| && AllBlank(v[..i]) && AllBlank(v[j..]) && OffWord(v[i..j])
  }

  /** What says off stands after the first exclamation mark, or is the whole value where there is none. */
  ghost predicate OffValue(value: string) {
    || ('!' !in value && SaysOff(value))
    || exists b :: 0 <= b < |value| && value[b] == '!' && '!' !in value[..b] && SaysOff(value[b + 1..])
  }

  lemma {:induction false} TrimRightSplit(s: string) returns (m: nat)
    ensures m <= |s| && TrimRight(s) == s[..m] && (forall j :: m <= j < |s| ==> IsSpace(s[j])) && (m > 0 ==> !IsSpace(s[m - 1]))
    ensures s != "" && !IsSpace(s[0]) ==> m > 0
    decreases |s|
  {
    m := |s|;
    if s != "" && IsSpace(s[|s| - 1]) {
      m := TrimRightSplit(s[..|s| - 1]);
      assert s[..|s| - 1][..m] == s[..m];
    }
  }

  lemma TrimSplit(s: string) returns (i: nat, j: nat)
    ensures i <= j <= |s| && Trim(s) == s[i..j] && AllBlank(s[..i]) && AllBlank(s[j..])
    ensures i < j ==> !IsSpace(s[i]) && !IsSpace(s[j - 1])
  {
    i := TrimLeftSplit(s);
    var k := TrimRightSplit(s[i..]);
    j := i + k;
    hide TrimLeft, TrimRight;
    assert s[i..][..k] == s[i..j];
    forall n | j <= n < |s|
      ensures IsSpace(s[n])
    {
      assert s[i..][n - i] == s[n];
    }
  }

  lemma {:induction false} TrimLeftSpaces(a: string, b: string)
    requires AllBlank(a)
    ensures TrimLeft(a + b) == TrimLeft(b)
  {
    if a == "" {
      assert a + b == b;
    } else {
      TrimLeftSpaces(a[1..], b);
      assert (a + b)[1..] == a[1..] + b;
    }
  }

  lemma {:induction false} TrimAllBlank(s: string)
    requires AllBlank(s)
    ensures Trim(s) == ""
  {
    TrimLeftSpaces(s, "");
    assert s + "" == s;
  }

  /** Blanks around a text without blanks at its ends are what trimming takes off. */
  lemma TrimAround(a: string, core: string, b: string)
    requires AllBlank(a) && AllBlank(b) && core != "" && !IsSpace(core[0]) && !IsSpace(core[|core| - 1])
    ensures Trim(a + core + b) == core
  {
    TrimLeftSpaces(a, core + b);
    assert a + core + b == a + (core + b);
    assert TrimLeft(core + b) == core + b;
    TrimRightSpaces(core, b);
  }

  lemma LowerIs(s: string, word: string)
    requires forall i :: 0 <= i < |word| ==> !('A' <= word[i] <= 'Z')
    ensures Lower(s) == word <==> AnyCase(s, word)
  {
    if Lower(s) == word {
      forall i | 0 <= i < |s|
        ensures s[i] == word[i] || ('A' <= s[i] <= 'Z' && s[i] as int + 32 == word[i] as int)
      {
        assert Lower(s)[i] == word[i];
      }
    }
    if AnyCase(s, word) {
      forall i | 0 <= i < |s|
        ensures Lower(s)[i] == word[i]
      {
      }
    }
  }

  lemma OffWords(s: string)
    ensures OffWord(s) <==> Lower(s) == "" || Lower(s) == "0x0" || Lower(s) == "0" || Lower(s) == "false"
    ensures OffWord(s) && s != "" ==> !IsSpace(s[0]) && !IsSpace(s[|s| - 1])
  {
    LowerIs(s, "");
    LowerIs(s, "0");
    LowerIs(s, "0x0");
    LowerIs(s, "false");
  }

  lemma TrimmedOff(v: string)
    ensures OffWord(Trim(v)) <==> SaysOff(v)
  {
    hide Trim, OffWord, AllBlank;
    var i, j := TrimSplit(v);
    if SaysOff(v) {
      var a, b :| 0 <= a <= b <= |v| && AllBlank(v[..a]) && AllBlank(v[b..]) && OffWord(v[a..b]);
      OffWords(v[a..b]);
      if a == b {
        BlankJoin(v, a);
        TrimAllBlank(v);
        assert v[a..b] == "";
      } else {
        TrimAround(v[..a], v[a..b], v[b..]);
        assert v[..a] + v[a..b] + v[b..] == v;
      }
    }
  }

  lemma BlankJoin(v: string, a: nat)
    requires a <= |v| && AllBlank(v[..a]) && AllBlank(v[a..])
    ensures AllBlank(v)
  {
    forall i | 0 <= i < |v|
      ensures IsBlank(v[i])
    {
      assert if i < a then v[i] == v[..a][i] else v[i] == v[a..][i - a];
    }
  }

  lemma BeforeFirst(value: string, b: nat)
    requires b <= |value| && '!' !in value[..b]
    ensures forall k :: 0 <= k < b ==> value[k] != '!'
  {
    forall k | 0 <= k < b
      ensures value[k] != '!'
    {
      assert value[k] == value[..b][k] && value[..b][k] in value[..b];
    }
  }

  /** A value is on exactly when it does not say off. */
  lemma OnExactly(value: string)
    ensures ValueIsOn(value) <==> !OffValue(value)
  {
    hide Trim, Lower, SaysOff, OffWord;
    var bang := Find(value, '!');
    var tail := if bang < |value| then value[bang + 1..] else value;
    TrimmedOff(tail);
    OffWords(Trim(tail));
    if bang < |value| {
      assert value[bang] in value;
      assert '!' !in value[..bang];
      forall b | 0 <= b < |value| && value[b] == '!' && '!' !in value[..b]
        ensures b == bang
      {
        BeforeFirst(value, b);
      }
    }
  }

  /** After any prefix without an exclamation mark, and without one. */
  lemma OffAfterBang(p: string, v: string)
    requires '!' !in p
    ensures ValueIsOn(p + "!" + v) <==> !SaysOff(v)
    ensures '!' !in v ==> (ValueIsOn(v) <==> !SaysOff(v))
  {
    hide SaysOff, ValueIsOn;
    var value := p + "!" + v;
    OnExactly(value);
    OnExactly(v);
    assert value[|p|] == '!' && value[..|p|] == p && value[|p| + 1..] == v;
    forall b | 0 <= b < |value| && value[b] == '!' && '!' !in value[..b]
      ensures b == |p|
    {
      BeforeFirst(value, b);
      BeforeFirst(value, |p|);
    }
    if '!' in v {
    } else {
      assert forall b :: 0 <= b < |v| ==> v[b] in v;
    }
  }

  // ----- which lines set the key, and which open a section

  predicate IsMarker(c: char) {
    c == ';' || c == '#'
  }

  predicate AllMarkers(s: string) {
    forall i :: 0 <= i < |s| ==> IsBlank(s[i]) || IsMarker(s[i])
  }

  /** Comment markers and blanks, the key in any letter case, blanks, the sign. */
  predicate KeyText(line: string, i: nat, k: nat) {
    && i + |KEY| <= k < |line| && AllMarkers(line[..i]) && AnyCase(line[i..i + |KEY|], KEY)
    && AllBlank(line[i + |KEY|..k]) && line[k] == '='
  }

  ghost predicate SetsKeyText(line: string) {
    exists i, k :: 0 <= i && 0 <= k && KeyText(line, i, k)
  }

  lemma {:induction false} UncommentSplit(t: string) returns (m: nat)
    requires t == "" || !IsSpace(t[|t| - 1])
    requires t != "" ==> !IsSpace(t[0])
    ensures m <= |t| && Uncomment(t) == t[m..] && AllMarkers(t[..m])
    ensures m < |t| ==> !IsSpace(t[m]) && !IsMarker(t[m])
    ensures m > 0 ==> IsComment(t)
    decreases |t|
  {
    m := 0;
    if IsComment(t) {
      var u := t[1..];
      var i, j := TrimSplit(u);
      assert u == "" || u[|u| - 1] == t[|t| - 1];
      TrimmedEnd(u, j);
      assert Trim(u) == u[i..];
      assert Uncomment(t) == Uncomment(Trim(u));
      hide Trim, TrimLeft, TrimRight, Uncomment;
      assert u[i..] == t[i + 1..];
      m := UncommentSplit(u[i..]);
      assert t[i + 1..][m..] == t[m + i + 1..];
      assert AllMarkers(t[..m + i + 1]) by {
        forall n | 0 <= n < m + i + 1
          ensures IsBlank(t[n]) || IsMarker(t[n])
        {
          assert if n == 0 then t[n] == t[0] else if n <= i then u[..i][n - 1] == t[n] else t[i + 1..][..m][n - i - 1] == t[n];
        }
      }
      m := m + i + 1;
    } else {
      assert t[0..] == t;
    }
  }

  lemma BlankTail(u: string, j: nat)
    requires j <= |u| && AllBlank(u[j..])
    ensures forall x :: j <= x < |u| ==> IsBlank(u[x])
  {
    forall x | j <= x < |u|
      ensures IsBlank(u[x])
    {
      assert u[j..][x - j] == u[x];
    }
  }

  /** Trimming a text that ends without a blank takes nothing off its end. */
  lemma TrimmedEnd(u: string, j: nat)
    requires (u == "" || !IsSpace(u[|u| - 1])) && j <= |u| && AllBlank(u[j..])
    ensures j == |u|
  {
    BlankTail(u, j);
  }

  lemma KeyValueText(line: string)
    requires KeyValue(Trim(line)).Some?
    ensures SetsKeyText(line)
  {
    var a, b := TrimSplit(line);
    hide Trim, KeyText, KeyValue, AllBlank;
    var t := Trim(line);
    var m, k := TrimmedKeyValue(t);
    TextMoves(line, t, a, b, m, k);
    assert KeyText(line, a + m, a + k);
  }

  lemma TrimmedKeyValue(t: string) returns (m: nat, k: nat)
    requires t == "" || (!IsSpace(t[0]) && !IsSpace(t[|t| - 1]))
    requires KeyValue(t).Some?
    ensures KeyText(t, m, k)
  {
    m := UncommentSplit(t);
    var l := t[m..];
    var n := FirstSign(l);
    hide Trim, Uncomment, KeyValue, AnyCase;
    k := m + |KEY| + n;
    assert t[m..m + |KEY|] == l[..|KEY|] && t[m + |KEY|..k] == l[|KEY|..|KEY| + n] && t[k] == l[|KEY| + n];
  }

  /** A trimmed line and the whole line are alike. */
  lemma TextMoves(line: string, t: string, a: nat, b: nat, i: nat, k: nat)
    requires a <= b <= |line| && t == line[a..b] && AllBlank(line[..a]) && KeyText(t, i, k)
    ensures KeyText(line, a + i, a + k)
  {
    hide AnyCase;
    assert line[..a + i] == line[..a] + t[..i];
    MarkersJoin(line[..a], t[..i]);
    SliceOf(line, t, a, b, i, i + |KEY|);
    SliceOf(line, t, a, b, i + |KEY|, k);
  }

  lemma TextMovesBack(line: string, t: string, a: nat, b: nat, i: nat, k: nat)
    requires a <= b <= |line| && t == line[a..b] && a <= i && k < b && KeyText(line, i, k)
    ensures KeyText(t, i - a, k - a)
  {
    hide AnyCase;
    MarkersPart(line, a, i);
    SliceOf(line, t, a, b, 0, i - a);
    SliceOf(line, t, a, b, i - a, i - a + |KEY|);
    SliceOf(line, t, a, b, i - a + |KEY|, k - a);
  }

  lemma SliceOf(line: string, t: string, a: nat, b: nat, x: nat, y: nat)
    requires a <= b <= |line| && t == line[a..b] && x <= y <= |t|
    ensures t[x..y] == line[a + x..a + y]
  {
    forall n | 0 <= n < y - x
      ensures t[x..y][n] == line[a + x..a + y][n]
    {
      assert t[x + n] == line[a + (x + n)];
    }
  }

  lemma MarkersPart(line: string, a: nat, i: nat)
    requires a <= i <= |line| && AllMarkers(line[..i])
    ensures AllMarkers(line[a..i])
  {
    assert forall x :: 0 <= x < i - a ==> line[a..i][x] == line[..i][a + x];
  }

  lemma MarkersJoin(a: string, b: string)
    requires AllBlank(a) && AllMarkers(b)
    ensures AllMarkers(a + b)
  {
  }

  /** The sign behind the key of an uncommented line. */
  lemma FirstSign(l: string) returns (n: nat)
    requires |l| >= |KEY| && Lower(l)[..|KEY|] == KEY && Trim(l[|KEY|..]) != "" && Trim(l[|KEY|..])[0] == '='
    ensures |KEY| + n < |l| && AnyCase(l[..|KEY|], KEY) && AllBlank(l[|KEY|..|KEY| + n]) && l[|KEY| + n] == '='
  {
    var u := l[|KEY|..];
    n := TrimLeftSplit(u);
    TrimRightStarts(u[n..]);
    assert Trim(u)[0] == u[n];
    hide Trim, TrimLeft, TrimRight;
    assert Lower(l)[..|KEY|] == Lower(l[..|KEY|]);
    KeyLower();
    LowerIs(l[..|KEY|], KEY);
    assert forall x :: 0 <= x < n ==> l[|KEY|..|KEY| + n][x] == u[x];
  }

  lemma KeyLower()
    ensures forall i :: 0 <= i < |KEY| ==> !('A' <= KEY[i] <= 'Z')
  {
    forall i | 0 <= i < |KEY|
      ensures !('A' <= KEY[i] <= 'Z')
    {
      KeyChars(i);
    }
  }

  lemma TextKeyValue(line: string, i: nat, k: nat)
    requires KeyText(line, i, k)
    ensures KeyValue(Trim(line)).Some? && !IsHeader(Trim(line))
    ensures IsComment(Trim(line)) <==> !AllBlank(line[..i])
  {
    var a, b := TrimSplit(line);
    FirstOfKey(line, i);
    Bounds(line, i, k, a, b);
    hide Trim, KeyValue, AnyCase;
    TextMovesBack(line, Trim(line), a, b, i, k);
    CommentStart(line, Trim(line), i, a, b);
    TrimmedText(Trim(line), i - a, k - a);
  }

  lemma TrimmedText(t: string, i: nat, k: nat)
    requires t != "" && !IsSpace(t[0]) && !IsSpace(t[|t| - 1]) && KeyText(t, i, k)
    ensures KeyValue(t).Some?
  {
    var m := UncommentSplit(t);
    FirstOfKey(t, i);
    hide Uncomment;
    SameStart(t, t, i, 0, |t|, m);
    var l := t[i..];
    assert l[..|KEY|] == t[i..i + |KEY|];
    KeyLower();
    LowerIs(l[..|KEY|], KEY);
    assert Lower(l)[..|KEY|] == Lower(l[..|KEY|]);
    SignAfter(t, i, k, |t|, l);
  }

  /** The key begins with a letter. */
  lemma FirstOfKey(line: string, i: nat)
    requires i + |KEY| <= |line| && AnyCase(line[i..i + |KEY|], KEY)
    ensures !IsSpace(line[i]) && !IsMarker(line[i]) && line[i] != '['
  {
    LowerKey();
    assert line[i..i + |KEY|][0] == line[i];
  }

  /** Trimming leaves the stretch from the key to the sign in place. */
  lemma Bounds(line: string, i: nat, k: nat, a: nat, b: nat)
    requires a <= b <= |line| && AllBlank(line[..a]) && AllBlank(line[b..]) && i <= k < |line|
    requires !IsSpace(line[i]) && line[k] == '='
    ensures a <= i && k < b
  {
    assert forall x :: 0 <= x < a ==> line[..a][x] == line[x];
    assert forall x :: b <= x < |line| ==> line[b..][x - b] == line[x];
  }

  lemma SameStart(line: string, t: string, i: nat, a: nat, b: nat, m: nat)
    requires a <= i < b <= |line| && t == line[a..b] && AllMarkers(line[..i]) && !IsSpace(line[i]) && !IsMarker(line[i])
    requires m <= |t| && AllMarkers(t[..m]) && (m < |t| ==> !IsSpace(t[m]) && !IsMarker(t[m]))
    ensures a + m == i
  {
    assert forall x :: 0 <= x < i ==> line[..i][x] == line[x];
    assert forall x :: 0 <= x < m ==> t[..m][x] == t[x];
    assert forall x :: 0 <= x < |t| ==> t[x] == line[a + x];
    assert t[i - a] == line[i];
  }

  lemma SignAfter(line: string, i: nat, k: nat, b: nat, l: string)
    requires i + |KEY| <= k < b <= |line| && l == line[i..b] && AllBlank(line[i + |KEY|..k]) && line[k] == '='
    ensures Trim(l[|KEY|..]) != "" && Trim(l[|KEY|..])[0] == '='
  {
    var u := l[|KEY|..];
    var n := TrimLeftSplit(u);
    var r := TrimRightSplit(u[n..]);
    hide TrimLeft, TrimRight;
    var at := k - i - |KEY|;
    assert u[at] == '=';
    assert forall x :: 0 <= x < at ==> line[i + |KEY|..k][x] == u[x];
    assert n == at;
  }

  lemma CommentStart(line: string, t: string, i: nat, a: nat, b: nat)
    requires a <= i < b <= |line| && t == line[a..b] && AllBlank(line[..a]) && AllMarkers(line[..i])
    requires !IsSpace(line[a]) && !IsSpace(line[i]) && !IsMarker(line[i]) && line[i] != '['
    ensures IsComment(t) <==> !AllBlank(line[..i])
    ensures !IsHeader(t)
  {
    assert t[0] == line[a];
    if a < i {
      assert line[..i][a] == line[a];
    } else {
      assert line[..a] == line[..i];
    }
  }

  /** A line of the section sets the key exactly when it reads: markers and blanks, the key in any case, blanks, the sign.
      It is a comment exactly when there is a marker. */
  lemma KeyLines(line: string)
    ensures SetsKey(line, SECTION) <==> SetsKeyText(line)
    ensures forall i: nat, k: nat :: KeyText(line, i, k) ==> (IsComment(Trim(line)) <==> !AllBlank(line[..i]))
  {
    hide Trim, KeyValue;
    if SetsKey(line, SECTION) {
      KeyValueText(line);
    }
    forall i: nat, k: nat | KeyText(line, i, k)
      ensures i <= |line| && SetsKey(line, SECTION) && (IsComment(Trim(line)) <==> !AllBlank(line[..i]))
    {
      TextKeyValue(line, i, k);
    }
  }

  /** Blanks, an opening bracket, anything, a closing bracket, blanks. */
  predicate HeaderText(line: string, p: nat, q: nat) {
    p < q < |line| && AllBlank(line[..p]) && line[p] == '[' && line[q] == ']' && AllBlank(line[q + 1..])
  }

  /** A line is a header exactly when it is bracketed; it opens the section exactly when the section's name, in any
      letter case and between blanks, is all there is in the brackets. */
  lemma HeaderLines(line: string)
    ensures IsHeader(Trim(line)) <==> exists p: nat, q: nat :: HeaderText(line, p, q)
    ensures forall p: nat, q: nat :: HeaderText(line, p, q) ==>
      (SectionAfter(line, "") == SECTION <==> NamesSection(line[p + 1..q]))
  {
    hide Trim, SectionName;
    if IsHeader(Trim(line)) {
      var a, b := TrimSplit(line);
      assert Trim(line)[0] == line[a] && Trim(line)[|Trim(line)| - 1] == line[b - 1];
      assert line[b - 1 + 1..] == line[b..];
      assert HeaderText(line, a, b - 1);
    }
    forall p: nat, q: nat | HeaderText(line, p, q)
      ensures IsHeader(Trim(line))
      ensures SectionAfter(line, "") == SECTION <==> NamesSection(line[p + 1..q])
    {
      var core := line[p..q + 1];
      TrimAround(line[..p], core, line[q + 1..]);
      assert line[..p] + core + line[q + 1..] == line;
      assert core[1..|core| - 1] == line[p + 1..q];
      NamesExactly(core);
    }
  }

  ghost predicate NamesSection(s: string) {
    exists i, j :: 0 <= i <= j <= |s| && AllBlank(s[..i]) && AllBlank(s[j..]) && AnyCase(s[i..j], SECTION)
  }

  lemma NamesExactly(core: string)
    requires IsHeader(core)
    ensures SectionName(core) == SECTION <==> NamesSection(core[1..|core| - 1])
  {
    var s := core[1..|core| - 1];
    var i, j := TrimSplit(s);
    hide Trim, Lower, AllBlank;
    LowerIs(Trim(s), SECTION);
    if NamesSection(s) {
      var a, b :| 0 <= a <= b <= |s| && AllBlank(s[..a]) && AllBlank(s[b..]) && AnyCase(s[a..b], SECTION);
      SectionEnds(s[a..b]);
      TrimAround(s[..a], s[a..b], s[b..]);
      assert s[..a] + s[a..b] + s[b..] == s;
    }
  }

  lemma SectionEnds(s: string)
    requires AnyCase(s, SECTION)
    ensures s != "" && !IsSpace(s[0]) && !IsSpace(s[|s| - 1])
  {
  }

  // ----- the setting as a reader of the file sees it

  /** A line that sets the key and is no comment makes the setting, with the value the scan reads. */
  lemma KeyLineMakes(line: string)
    requires SetsKey(line, SECTION) && !IsComment(Trim(line))
    ensures EntryOf(line) == Some(Entry(KEY, KeyValue(Trim(line)).value))
  {
    var t := Trim(line);
    assert Uncomment(t) == t;
    var i, j := TrimSplit(line);
    assert t[|t| - 1] == line[j - 1];
    hide Trim, Lower;
    var m := SignAt(t);
    NameOf(t, m);
    assert Find(t, '=') == |KEY| + m;
  }

  /** Where the sign stands behind the key. */
  lemma SignAt(t: string) returns (m: nat)
    requires |t| > |KEY| && !IsSpace(t[|t| - 1]) && Trim(t[|KEY|..]) != "" && Trim(t[|KEY|..])[0] == '='
    ensures |KEY| + m < |t| && t[|KEY| + m] == '=' && forall k :: 0 <= k < m ==> IsSpace(t[|KEY|..][k])
    ensures Trim(t[|KEY|..])[1..] == t[|KEY| + m + 1..]
  {
    var u := t[|KEY|..];
    m := TrimLeftSplit(u);
    var w := u[m..];
    var n := TrimRightSplit(w);
    hide TrimLeft, TrimRight;
    assert Trim(u) == w[..n];
    assert w[|w| - 1] == t[|t| - 1];
    assert n == |w|;
    assert w[..n] == w && w == t[|KEY| + m..];
  }

  /** And a line that makes the setting sets the key. */
  lemma MakesSetsKey(line: string, cur: string)
    requires Makes(line, cur, SECTION, KEY)
    ensures SetsKey(line, cur) && !IsComment(Trim(line))
  {
    var t := Trim(line);
    var p := Find(t, '=');
    var i, j := TrimSplit(line);
    assert Uncomment(t) == t;
    var name := t[..p];
    assert |Trim(name)| == |KEY| by { assert |Lower(Trim(name))| == |KEY|; }
    var a, b := TrimSplit(name);
    hide TrimLeft, TrimRight, Uncomment;
    assert b - a == |KEY|;
    FirstNotBlank(t, name, a);
    assert Lower(t)[..|KEY|] == KEY by {
      forall k | 0 <= k < |KEY|
        ensures Lower(t)[k] == KEY[k]
      {
        assert Lower(Trim(name))[k] == KEY[k];
        assert Trim(name)[k] == name[a..b][k] == t[k];
      }
    }
    BlanksThenSign(t, p);
  }

  lemma FirstNotBlank(t: string, name: string, a: nat)
    requires name != "" && name <= t && a < |name| && AllBlank(name[..a]) && !IsSpace(t[0])
    ensures a == 0
  {
    assert forall k :: 0 <= k < a ==> name[..a][k] == t[k];
  }

  lemma BlanksThenSign(t: string, p: nat)
    requires |KEY| <= p < |t| && t[p] == '=' && AllBlank(t[..p][|KEY|..])
    ensures var rest := Trim(t[|KEY|..]); rest != "" && rest[0] == '='
  {
    var u := t[|KEY|..];
    var m := TrimLeftSplit(u);
    var n := TrimRightSplit(u[m..]);
    hide TrimLeft, TrimRight;
    var at := p - |KEY|;
    assert u[at] == '=';
    forall k | 0 <= k < at
      ensures IsSpace(u[k])
    {
      assert t[..p][|KEY|..][k] == u[k];
    }
    assert m == at;
  }

  /** Without a line that sets the key, a reader finds no value. */
  lemma {:induction false} NoKeyNoValue(lines: seq<string>, k: nat)
    requires k <= |lines| && forall j :: 0 <= j < k ==> !KeyAt(lines, j)
    ensures Lookup(lines[..k], "", SECTION, KEY) == None
  {
    hide Makes, EntryOf, SetsKey;
    if k > 0 {
      assert !KeyAt(lines, k - 1);
      NoKeyNoValue(lines, k - 1);
      LookupAppend(lines[..k - 1], [lines[k - 1]], "", SECTION, KEY);
      assert lines[..k] == lines[..k - 1] + [lines[k - 1]];
      assert [lines[k - 1]][1..] == [];
      if Makes(lines[k - 1], After(lines[..k - 1], ""), SECTION, KEY) {
        MakesSetsKey(lines[k - 1], After(lines[..k - 1], ""));
      }
    }
  }

  /** The first line that sets the key, where it is no comment, gives the value a reader finds. */
  lemma FirstKeyValue(lines: seq<string>, k: nat)
    requires k < |lines| && KeyAt(lines, k) && forall j :: 0 <= j < k ==> !KeyAt(lines, j)
    requires !IsComment(Trim(lines[k]))
    ensures EntryOf(lines[k]).Some? && Lookup(lines, "", SECTION, KEY) == Some(EntryOf(lines[k]).value.value)
    ensures IsOn(lines[k]) <==> !OffValue(EntryOf(lines[k]).value.value)
  {
    KeySection(lines, k);
    KeyLineMakes(lines[k]);
    OnExactly(KeyValue(Trim(lines[k])).value);
    hide Trim, EntryOf, KeyValue, OffValue, ValueIsOn, IsHeader;
    NoKeyNoValue(lines, k);
    LookupAppend(lines[..k], lines[k..], "", SECTION, KEY);
    assert lines[..k] + lines[k..] == lines;
  }

  /** The first line that sets the key, commented or not, is no comment and its value does not say off. */
  ghost predicate SwitchedOn(lines: seq<string>) {
    exists k :: 0 <= k < |lines| && FirstKey(lines, k)
      && EntryOf(lines[k]).Some? && EntryOf(lines[k]).value.key == KEY && !OffValue(EntryOf(lines[k]).value.value)
  }

  predicate FirstKey(lines: seq<string>, k: nat)
    requires k < |lines|
  {
    KeyAt(lines, k) && forall j :: 0 <= j < k ==> !KeyAt(lines, j)
  }

  /** Nothing is written exactly when the setting is switched on. */
  lemma NothingToDo(lines: seq<string>)
    ensures Edit(lines) == None <==> SwitchedOn(lines)
    ensures SwitchedOn(lines) ==> Lookup(lines, "", SECTION, KEY).Some? && !OffValue(Lookup(lines, "", SECTION, KEY).value)
  {
    hide SetsKey, OffValue, Lookup, Trim, EntryOf, IsOn, HeaderAt;
    var f := FindKey(lines);
    ScanFinds(lines, 0, None);
    if f.key.Some? {
      var k := f.key.value;
      assert FirstKey(lines, k);
      FirstOn(lines, k);
    }
    if SwitchedOn(lines) {
      var k :| 0 <= k < |lines| && FirstKey(lines, k)
        && EntryOf(lines[k]).Some? && EntryOf(lines[k]).value.key == KEY && !OffValue(EntryOf(lines[k]).value.value);
      FirstOn(lines, k);
      FoundAt(lines, k);
    }
  }

  lemma FirstOn(lines: seq<string>, k: nat)
    requires k < |lines| && FirstKey(lines, k)
    ensures IsOn(lines[k]) <==>
      EntryOf(lines[k]).Some? && EntryOf(lines[k]).value.key == KEY && !OffValue(EntryOf(lines[k]).value.value)
    ensures IsOn(lines[k]) ==> EntryOf(lines[k]).Some? && Lookup(lines, "", SECTION, KEY) == Some(EntryOf(lines[k]).value.value)
  {
    if !IsComment(Trim(lines[k])) {
      KeySection(lines, k);
      KeyLineMakes(lines[k]);
      FirstKeyValue(lines, k);
    }
  }

  /** After the edit a reader finds the value that was written. */
  lemma EditReads(lines: seq<string>)
    requires Edit(lines).Some?
    ensures Lookup(Edit(lines).value, "", SECTION, KEY) == Some("u8!0x1")
  {
    hide Edit, SetsKey, OffValue, Lookup, Trim, EntryOf, IsOn;
    var lines' := Edit(lines).value;
    EditSettles(lines);
    ScanFinds(lines', 0, None);
    DesiredSets();
    DesiredMakes();
    FirstKeyValue(lines', FindKey(lines').key.value);
  }

  /** In the file as written, the setting reads as switched on. */
  lemma WrittenReads(existing: Option<string>)
    requires Written(existing).Some?
    ensures Lookup(Split(Written(existing).value), "", SECTION, KEY) == Some("u8!0x1")
  {
    hide Edit, Split, Join, Lookup;
    match existing
    case None =>
      NewFileReads();
    case Some(text) =>
      var lines := Edit(Split(text)).value;
      SplitLinesPlain(text);
      EditIsPlain(Split(text));
      SplitJoin(lines);
      EditReads(Split(text));
  }

  lemma NewFileReads()
    ensures Lookup(Split(HEADER + "\n" + DESIRED + "\n"), "", SECTION, KEY) == Some("u8!0x1")
  {
    hide Edit, FindKey, SetsKey, IsOn, Split, Join, Trim, Lower, KeyValue, ValueIsOn, EntryOf, Lookup, OffValue;
    var lines := [HEADER, DESIRED, ""];
    NewFileJoined();
    ConstantsPlain();
    SplitJoin(lines);
    DesiredSets();
    DesiredMakes();
    HeaderOpens();
    AfterSnoc(lines, 0);
    assert lines[..0] == [] && After([], "") == "";
    NotKeyAtHeader(lines);
    FirstKeyValue(lines, 1);
  }

  // ----- the whole operation

  method SplitLines(text: string) returns (lines: seq<string>)
    ensures lines == Split(text)
  {
    lines := [];
    var cur := "";
    assert text[0..] == text;
    for i := 0 to |text|
      invariant lines + SplitFrom(text[i..], cur) == Split(text)
    {
      var c := text[i];
      assert text[i..][1..] == text[i + 1..];
      if c == '\n' {
        assert lines + ([cur] + SplitFrom(text[i + 1..], "")) == lines + [cur] + SplitFrom(text[i + 1..], "");
        lines := lines + [cur];
        cur := "";
      } else if c != '\r' {
        cur := cur + [c];
      }
    }
    lines := lines + [cur];
  }

  lemma {:induction false} JoinSnoc(lines: seq<string>, line: string)
    requires lines != []
    ensures Join(lines + [line]) == Join(lines) + "\n" + line
  {
    assert (lines + [line])[1..] == lines[1..] + [line];
    if |lines| > 1 {
      JoinSnoc(lines[1..], line);
    }
  }

  method JoinLines(lines: seq<string>) returns (out: string)
    ensures out == Join(lines)
  {
    out := "";
    for i := 0 to |lines|
      invariant out == if i == 0 then "" else if i < |lines| then Join(lines[..i]) + "\n" else Join(lines[..i])
    {
      assert lines[..i + 1] == lines[..i] + [lines[i]];
      if i > 0 {
        JoinSnoc(lines[..i], lines[i]);
      }
      out := out + lines[i];
      if i + 1 < |lines| {
        out := out + "\n";
      }
    }
    assert lines[..|lines|] == lines;
  }

  /** The scan loop. */
  method FindSetting(lines: seq<string>) returns (header: int, key: int, on: bool)
    ensures var f := FindKey(lines);
      on == f.on
      && (if f.key.Some? then key == f.key.value else key == -1)
      && (if f.header.Some? then header == f.header.value else header == -1)
  {
    hide Trim, Lower, KeyValue, ValueIsOn, IsComment;
    var cur := "";
    header, key, on := -1, -1, false;
    var i := 0;
    while i < |lines|
      invariant i <= |lines| && key == -1 && !on && -1 <= header < |lines|
      invariant FindKey(lines) == Scan(lines, i, cur, if header >= 0 then Some(header) else None)
    {
      var t := Trim(lines[i]);
      if |t| >= 2 && t[0] == '[' && t[|t| - 1] == ']' {
        cur := Lower(Trim(t[1..|t| - 1]));
        if cur == SECTION && header < 0 {
          header := i;
        }
      } else if cur == SECTION {
        var value := KeyValue(t);
        if value.Some? {
          key := i;
          on := !IsComment(t) && ValueIsOn(value.value);
          break;
        }
      }
      i := i + 1;
    }
  }

  /** The text the operation writes, or none when there is nothing to do. */
  function Written(existing: Option<string>): Option<string> {
    match existing
    case None => Some(HEADER + "\n" + DESIRED + "\n")
    case Some(text) => match Edit(Split(text)) case None => None case Some(lines) => Some(Join(lines))
  }

  /** `ensure_cheats_enabled_by_default`; `writeOk` is whether the file can be written. */
  method EnsureEnabled(existing: Option<string>, writeOk: bool) returns (result: Result, file: Option<string>)
    ensures match Written(existing)
      case None => result == AlreadyEnabled && file == existing
      case Some(body) => if writeOk then result == Enabled && file == Some(body) else result == Failed && file == existing
    ensures result == AlreadyEnabled <==> existing.Some? && SwitchedOn(Split(existing.value))
    ensures result == Enabled ==> file.Some? && Lookup(Split(file.value), "", SECTION, KEY) == Some("u8!0x1")
  {
    Explained(existing);
    hide SwitchedOn, Lookup;
    hide Scan, Split, Join, KeyValue, IsHeader;
    if existing == None {
      var body := "[" + SECTION + "]\n" + DESIRED + "\n";
      assert body == HEADER + "\n" + DESIRED + "\n";
      return if writeOk then Enabled else Failed, if writeOk then Some(body) else existing;
    }
    var lines := SplitLines(existing.value);
    var header, key, on := FindSetting(lines);
    FoundInside(lines, 0, "", None);
    if key >= 0 && on {
      return AlreadyEnabled, existing;
    }
    if key >= 0 {
      lines := lines[key := DESIRED];
    } else if header >= 0 {
      lines := lines[..header + 1] + [DESIRED] + lines[header + 1..];
    } else {
      var last := lines;
      if lines != [] && Trim(lines[|lines| - 1]) != "" {
        lines := lines + [""];
      }
      lines := lines + [HEADER];
      lines := lines + [DESIRED];
      assert lines == last + (if last != [] && Trim(last[|last| - 1]) != "" then [""] else []) + [HEADER, DESIRED];
    }
    assert Edit(Split(existing.value)) == Some(lines);
    var body := JoinLines(lines);
    return if writeOk then Enabled else Failed, if writeOk then Some(body) else existing;
  }

  lemma Explained(existing: Option<string>)
    ensures Written(existing) == None <==> existing.Some? && SwitchedOn(Split(existing.value))
    ensures Written(existing).Some? ==> Lookup(Split(Written(existing).value), "", SECTION, KEY) == Some("u8!0x1")
  {
    hide Edit, Split, SwitchedOn, Lookup;
    if existing.Some? {
      NothingToDo(Split(existing.value));
    }
    if Written(existing).Some? {
      WrittenReads(existing);
    }
  }

  lemma EditIsPlain(lines: seq<string>)
    requires AllPlain(lines) && Edit(lines).Some?
    ensures AllPlain(Edit(lines).value) && Edit(lines).value != []
  {
    hide Scan, Trim, Plain;
    FoundInside(lines, 0, "", None);
    ConstantsPlain();
  }

  lemma ConstantsPlain()
    ensures Plain(DESIRED) && Plain(HEADER) && Plain("")
  {
  }

  /** After the text was written, a second call finds the setting on and writes nothing. */
  lemma Idempotent(existing: Option<string>)
    requires Written(existing).Some?
    ensures Written(Written(existing)) == None
  {
    hide Edit, Split, Join;
    match existing
    case None =>
      NewFileSettles();
    case Some(text) =>
      var lines := Edit(Split(text)).value;
      SplitLinesPlain(text);
      EditIsPlain(Split(text));
      SplitJoin(lines);
      EditSettles(Split(text));
      EditDone(lines);
  }

  lemma SplitLinesPlain(text: string)
    ensures AllPlain(Split(text)) && Split(text) != []
  {
    SplitIsPlain(text, "");
  }

  lemma EditDone(lines: seq<string>)
    requires FindKey(lines).key.Some? && FindKey(lines).on
    ensures Edit(lines) == None
  {
  }

  lemma NewFileSettles()
    ensures Edit(Split(HEADER + "\n" + DESIRED + "\n")) == None
  {
    hide Edit, FindKey, SetsKey, IsOn, Split, Join, Trim, Lower, KeyValue, IsComment, ValueIsOn;
    var lines := [HEADER, DESIRED, ""];
    NewFileJoined();
    ConstantsPlain();
    SplitJoin(lines);
    DesiredSets();
    HeaderOpens();
    AfterSnoc(lines, 0);
    assert lines[..0] == [] && After([], "") == "";
    NotKeyAtHeader(lines);
    FoundAt(lines, 1);
    EditDone(lines);
  }

  lemma NewFileJoined()
    ensures Join([HEADER, DESIRED, ""]) == HEADER + "\n" + DESIRED + "\n"
  {
    hide Join;
    assert [HEADER, DESIRED, ""] == [HEADER] + ([DESIRED] + [""]);
    JoinCons(HEADER, [DESIRED] + [""]);
    JoinCons(DESIRED, [""]);
    JoinOne("");
    assert HEADER + "\n" + (DESIRED + "\n" + "") == HEADER + "\n" + DESIRED + "\n";
  }

  lemma NotKeyAtHeader(lines: seq<string>)
    requires lines != [] && lines[0] == HEADER
    ensures !KeyAt(lines, 0)
  {
    HeaderOpens();
  }

  /** In the file as written, every other setting reads as before. */
  lemma FileOthersUnchanged(text: string, section: string, key: string)
    requires Written(Some(text)).Some? && !(section == SECTION && key == KEY)
    ensures Lookup(Split(Written(Some(text)).value), "", section, key) == Lookup(Split(text), "", section, key)
  {
    hide Edit, Split, Join, Lookup;
    var lines := Edit(Split(text)).value;
    SplitLinesPlain(text);
    EditIsPlain(Split(text));
    SplitJoin(lines);
    OthersUnchanged(Split(text), section, key);
  }
}
