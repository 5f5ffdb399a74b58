/** Version strings: how they are read, and the order the update check puts them in. */
module Version {
  predicate IsDigit(c: char) {
    '0' <= c <= '9'
  }

  function SkipPrefix(v: string): (r: string)
    ensures r != "" ==> IsDigit(r[0])
  {
    if v != "" && !IsDigit(v[0]) then SkipPrefix(v[1..]) else v
  }

  /** The leading digits and dots. */
  function Dotted(v: string): (r: string)
    ensures r <= v && forall k :: 0 <= k < |r| ==> IsDigit(r[k]) || r[k] == '.'
  {
    if v != "" && (IsDigit(v[0]) || v[0] == '.') then [v[0]] + Dotted(v[1..]) else ""
  }

  /** The text between the dots: one more piece than there are dots. */
  function Pieces(s: string): (r: seq<string>)
    ensures |r| > 0
  {
    if s == "" then [""]
    else if s[|s| - 1] == '.' then Pieces(s[..|s| - 1]) + [""]
    else
      var before := Pieces(s[..|s| - 1]);
      before[..|before| - 1] + [before[|before| - 1] + [s[|s| - 1]]]
  }

  /** The value of a numeral, most significant digit first; no digits count as zero. */
  function Value(digits: string): int {
    if digits == "" then 0 else 10 * Value(digits[..|digits| - 1]) + digits[|digits| - 1] as int - '0' as int
  }

  function Values(pieces: seq<string>): seq<int> {
    seq(|pieces|, k requires 0 <= k < |pieces| => Value(pieces[k]))
  }

  /** One number for each piece, except that an empty last piece gives none. */
  function Numbers(pieces: seq<string>): seq<int>
    requires |pieces| > 0
  {
    Values(if pieces[|pieces| - 1] == "" then pieces[..|pieces| - 1] else pieces)
  }

  function Parsed(v: string): seq<int> {
    Numbers(Pieces(Dotted(SkipPrefix(v))))
  }

  lemma {:induction false} DottedPrefix(v: string, n: nat)
    requires n <= |v| && forall k :: 0 <= k < n ==> IsDigit(v[k]) || v[k] == '.'
    requires n < |v| ==> !IsDigit(v[n]) && v[n] != '.'
    ensures Dotted(v) == v[..n]
  {
    if n > 0 {
      DottedPrefix(v[1..], n - 1);
      assert v[..n] == [v[0]] + v[1..][..n - 1];
    }
  }

  lemma {:induction false} SkipAt(v: string, i: nat)
    requires i <= |v| && forall k :: 0 <= k < i ==> !IsDigit(v[k])
    requires i < |v| ==> IsDigit(v[i])
    ensures SkipPrefix(v) == v[i..]
  {
    if i > 0 {
      SkipAt(v[1..], i - 1);
      assert v[1..][i - 1..] == v[i..];
    }
  }

  method Components(v: string) returns (out: seq<int>)
    ensures out == Parsed(v)
  {
    hide Read, Dotted, SkipPrefix, Numbers, Pieces, Value;
    out := [];
    var i := 0;
    while i < |v| && (v[i] < '0' || v[i] > '9')
      invariant i <= |v| && forall k :: 0 <= k < i ==> !IsDigit(v[k])
    {
      i := i + 1;
    }
    SkipAt(v, i);
    ghost var from, start := v[i..], i;
    var cur, have := 0, false;
    ReadNothing();
    assert v[start..i] == "";
    while i < |v|
      invariant start <= i <= |v|
      invariant forall k :: start <= k < i ==> IsDigit(v[k]) || v[k] == '.'
      invariant Read(v[start..i], out, cur, have)
    {
      var c := v[i];
      assert v[start..i + 1] == v[start..i] + [c];
      ReadOn(v[start..i], out, cur, have, c);
      if '0' <= c <= '9' {
        cur := cur * 10 + c as int - '0' as int;
        have := true;
      } else if c == '.' {
        out := out + [if have then cur else 0];
        cur := 0;
        have := false;
      } else {
        break;
      }
      i := i + 1;
    }
    assert from[..i - start] == v[start..i];
    DottedPrefix(from, i - start);
    ReadAll(v[start..i], out, cur, have);
    if have {
      out := out + [cur];
    }
  }

  /** The finished components and the one being read. */
  predicate Read(s: string, out: seq<int>, cur: int, have: bool) {
    var pieces := Pieces(s);
    var last := pieces[|pieces| - 1];
    out == Values(pieces[..|pieces| - 1]) && cur == Value(last) && (have <==> last != "")
  }

  lemma ReadOn(s: string, out: seq<int>, cur: int, have: bool, c: char)
    requires Read(s, out, cur, have)
    ensures IsDigit(c) ==> Read(s + [c], out, cur * 10 + c as int - '0' as int, true)
    ensures c == '.' ==> Read(s + [c], out + [if have then cur else 0], 0, false)
  {
    assert (s + [c])[..|s|] == s;
    var pieces, next := Pieces(s), Pieces(s + [c]);
    var last := pieces[|pieces| - 1];
    if IsDigit(c) {
      assert next[..|next| - 1] == pieces[..|pieces| - 1];
      assert (last + [c])[..|last|] == last;
    } else if c == '.' {
      assert next[..|next| - 1] == pieces == pieces[..|pieces| - 1] + [last];
    }
  }

  lemma ReadNothing()
    ensures Read("", [], 0, false)
  {
  }

  lemma ReadAll(s: string, out: seq<int>, cur: int, have: bool)
    requires Read(s, out, cur, have)
    ensures Numbers(Pieces(s)) == if have then out + [cur] else out
  {
    hide Pieces, Value;
  }

  // ----- the order

  /** Missing components read as zero. */
  function At(a: seq<int>, k: nat): int {
    if k < |a| then a[k] else 0
  }

  /** At the first component where the two differ, the first is larger. */
  ghost predicate Newer(a: seq<int>, b: seq<int>) {
    exists k: nat :: At(a, k) > At(b, k) && forall j: nat :: j < k ==> At(a, j) == At(b, j)
  }

  ghost predicate Same(a: seq<int>, b: seq<int>) {
    forall k: nat :: At(a, k) == At(b, k)
  }

  method IsNewerVersion(latest: string, current: string) returns (r: bool)
    ensures r <==> Newer(Parsed(latest), Parsed(current))
  {
    hide Parsed;
    var a := Components(latest);
    var b := Components(current);
    var n := if |a| > |b| then |a| else |b|;
    for i := 0 to n
      invariant forall j: nat :: j < i ==> At(a, j) == At(b, j)
    {
      var ai := if i < |a| then a[i] else 0;
      var bi := if i < |b| then b[i] else 0;
      assert ai == At(a, i) && bi == At(b, i);
      if ai != bi {
        assert forall k: nat :: k < i ==> At(b, k) == At(a, k);
        return ai > bi;
      }
    }
    return false;
  }

  /** Raising one component makes a version newer, whatever follows it. */
  lemma RaisedIsNewer(a: seq<int>, k: nat, more: nat, tail: seq<int>)
    requires k < |a| && more > 0
    ensures Newer(a[..k] + [a[k] + more] + tail, a) && !Newer(a, a[..k] + [a[k] + more] + tail)
  {
    var raised := a[..k] + [a[k] + more] + tail;
    assert At(raised, k) == a[k] + more;
    forall j: nat | j < k
      ensures At(raised, j) == At(a, j)
    {
    }
  }

  /** Two versions that differ somewhere differ first at some component. */
  lemma {:induction false} FirstDifference(a: seq<int>, b: seq<int>, n: nat) returns (k: nat)
    requires exists j: nat :: j < n && At(a, j) != At(b, j)
    ensures At(a, k) != At(b, k) && forall j: nat :: j < k ==> At(a, j) == At(b, j)
  {
    k := 0;
    while At(a, k) == At(b, k)
      invariant k < n && forall j: nat :: j < k ==> At(a, j) == At(b, j)
      decreases n - k
    {
      k := k + 1;
    }
  }

  /** Incomparable is the same as equal up to trailing zeros. */
  lemma Incomparable(a: seq<int>, b: seq<int>)
    ensures !Newer(a, b) && !Newer(b, a) <==> Same(a, b)
  {
    if !Same(a, b) {
      var j: nat :| At(a, j) != At(b, j);
      var k := FirstDifference(a, b, j + 1);
    }
  }

  /** A strict weak order: nothing precedes itself, it is transitive, and a version between two others
      separates them. */
  lemma StrictWeakOrder(a: seq<int>, b: seq<int>, c: seq<int>)
    ensures !Newer(a, a)
    ensures Newer(a, b) ==> !Newer(b, a)
    ensures Newer(a, b) && Newer(b, c) ==> Newer(a, c)
    ensures Newer(a, c) ==> Newer(a, b) || Newer(b, c)
  {
    Transitive(a, b, c);
    Separated(a, b, c);
  }

  lemma Transitive(a: seq<int>, b: seq<int>, c: seq<int>)
    ensures Newer(a, b) && Newer(b, c) ==> Newer(a, c)
  {
    if Newer(a, b) && Newer(b, c) {
      var k: nat :| At(a, k) > At(b, k) && forall j: nat :: j < k ==> At(a, j) == At(b, j);
      var m: nat :| At(b, m) > At(c, m) && forall j: nat :: j < m ==> At(b, j) == At(c, j);
      hide At;
      var first := if k < m then k else m;
      assert At(a, first) > At(c, first);
    }
  }

  lemma Separated(a: seq<int>, b: seq<int>, c: seq<int>)
    ensures Newer(a, c) ==> Newer(a, b) || Newer(b, c)
  {
    if Newer(a, c) && !Newer(a, b) {
      var k: nat :| At(a, k) > At(c, k) && forall j: nat :: j < k ==> At(a, j) == At(c, j);
      hide At;
      if Same(a, b) {
        assert At(b, k) > At(c, k);
        forall j: nat | j < k
          ensures At(b, j) == At(c, j)
        {
          assert At(a, j) == At(b, j);
        }
      } else {
        Incomparable(a, b);
        var m: nat :| At(b, m) > At(a, m) && forall j: nat :: j < m ==> At(b, j) == At(a, j);
        var first := if k < m then k else m;
        assert At(b, first) > At(c, first);
      }
    }
  }

  // ----- reading back what was written

  function Numeral(n: nat): (r: string)
    ensures r != "" && forall k :: 0 <= k < |r| ==> IsDigit(r[k])
  {
    if n < 10 then [('0' as int + n) as char] else Numeral(n / 10) + [('0' as int + n % 10) as char]
  }

  function Join(numbers: seq<nat>): string
    requires numbers != []
  {
    if |numbers| == 1 then Numeral(numbers[0])
    else Join(numbers[..|numbers| - 1]) + "." + Numeral(numbers[|numbers| - 1])
  }

  lemma {:induction false} ValueNumeral(n: nat)
    ensures Value(Numeral(n)) == n
  {
    if n >= 10 {
      ValueNumeral(n / 10);
      assert Numeral(n)[..|Numeral(n)| - 1] == Numeral(n / 10);
    } else {
      assert Value("") == 0;
    }
  }

  lemma {:induction false} PiecesAppend(s: string, digits: string)
    requires forall k :: 0 <= k < |digits| ==> IsDigit(digits[k])
    ensures
      var before := Pieces(s);
      Pieces(s + digits) == before[..|before| - 1] + [before[|before| - 1] + digits]
    decreases |digits|
  {
    hide Pieces;
    var before := Pieces(s);
    if digits == "" {
      assert s + digits == s;
      assert before[|before| - 1] + digits == before[|before| - 1];
      assert before == before[..|before| - 1] + [before[|before| - 1]];
    } else {
      var most, d := digits[..|digits| - 1], digits[|digits| - 1];
      PiecesAppend(s, most);
      PiecesChar(s + most, d);
      assert s + digits == s + most + [d];
      assert before[|before| - 1] + digits == before[|before| - 1] + most + [d];
    }
  }

  lemma PiecesChar(s: string, d: char)
    requires d != '.'
    ensures
      var before := Pieces(s);
      Pieces(s + [d]) == before[..|before| - 1] + [before[|before| - 1] + [d]]
  {
    assert (s + [d])[..|s|] == s;
  }

  lemma {:induction false} PiecesJoin(numbers: seq<nat>)
    requires numbers != []
    ensures Pieces(Join(numbers)) == seq(|numbers|, k requires 0 <= k < |numbers| => Numeral(numbers[k]))
  {
    hide Numeral, Pieces;
    var last := Numeral(numbers[|numbers| - 1]);
    assert "" + last == last;
    if |numbers| == 1 {
      PiecesAppend("", last);
      PiecesEnds("");
    } else {
      var before := numbers[..|numbers| - 1];
      PiecesJoin(before);
      PiecesAppend(Join(before) + ".", last);
      PiecesEnds(Join(before));
    }
  }

  lemma PiecesEnds(s: string)
    ensures Pieces("") == [""]
    ensures Pieces(s + ".") == Pieces(s) + [""]
  {
    assert (s + ".")[..|s|] == s;
  }

  lemma {:induction false} JoinShape(numbers: seq<nat>)
    requires numbers != []
    ensures Join(numbers) != "" && IsDigit(Join(numbers)[0])
    ensures forall k :: 0 <= k < |Join(numbers)| ==> IsDigit(Join(numbers)[k]) || Join(numbers)[k] == '.'
  {
    if |numbers| > 1 {
      JoinShape(numbers[..|numbers| - 1]);
    }
  }

  /** Behind any prefix without digits, such as "v", and before any suffix such as "-beta", dotted numerals read as their
      numbers. */
  lemma ParsedJoin(prefix: string, numbers: seq<nat>, suffix: string)
    requires numbers != [] && forall k :: 0 <= k < |prefix| ==> !IsDigit(prefix[k])
    requires suffix != "" ==> !IsDigit(suffix[0]) && suffix[0] != '.'
    ensures Parsed(prefix + Join(numbers) + suffix) == numbers
  {
    hide Pieces, Join, Numeral, Value;
    JoinShape(numbers);
    ParsedText(prefix, Join(numbers), suffix);
    PiecesJoin(numbers);
    JoinedValues(numbers);
    assert Numeral(numbers[|numbers| - 1]) != "";
  }

  lemma JoinedValues(numbers: seq<nat>)
    ensures forall k :: 0 <= k < |numbers| ==> Value(Numeral(numbers[k])) == numbers[k]
  {
    forall k | 0 <= k < |numbers|
      ensures Value(Numeral(numbers[k])) == numbers[k]
    {
      ValueNumeral(numbers[k]);
    }
  }

  /** What is read is the dotted part. */
  lemma ParsedText(prefix: string, text: string, suffix: string)
    requires forall k :: 0 <= k < |prefix| ==> !IsDigit(prefix[k])
    requires text != "" && IsDigit(text[0]) && forall k :: 0 <= k < |text| ==> IsDigit(text[k]) || text[k] == '.'
    requires suffix != "" ==> !IsDigit(suffix[0]) && suffix[0] != '.'
    ensures Parsed(prefix + text + suffix) == Numbers(Pieces(text))
  {
    hide Pieces, Numbers, Dotted, SkipPrefix;
    var rest := text + suffix;
    assert prefix + text + suffix == prefix + rest;
    assert rest[0] == text[0];
    SkipOver(prefix, rest);
    DottedStop(text, suffix);
  }

  lemma {:induction false} SkipOver(prefix: string, rest: string)
    requires forall k :: 0 <= k < |prefix| ==> !IsDigit(prefix[k])
    requires rest != "" && IsDigit(rest[0])
    ensures SkipPrefix(prefix + rest) == rest
  {
    if prefix == "" {
      assert prefix + rest == rest;
    } else {
      SkipOver(prefix[1..], rest);
      assert (prefix + rest)[1..] == prefix[1..] + rest;
    }
  }

  lemma DottedStop(text: string, suffix: string)
    requires forall k :: 0 <= k < |text| ==> IsDigit(text[k]) || text[k] == '.'
    requires suffix != "" ==> !IsDigit(suffix[0]) && suffix[0] != '.'
    ensures Dotted(text + suffix) == text
  {
    hide Dotted;
    DottedPrefix(text + suffix, |text|);
    assert (text + suffix)[..|text|] == text;
  }

  lemma {:induction false} PiecesDot(s: string, t: string)
    ensures Pieces(s + "." + t) == Pieces(s) + Pieces(t)
    decreases |t|
  {
    hide Pieces;
    if t == "" {
      assert s + "." + t == s + ".";
      PiecesEnds(s);
    } else {
      var most, c := t[..|t| - 1], t[|t| - 1];
      PiecesDot(s, most);
      assert s + "." + t == s + "." + most + [c] && t == most + [c];
      if c == '.' {
        PiecesEnds(s + "." + most);
        PiecesEnds(most);
      } else {
        PiecesChar(s + "." + most, c);
        PiecesChar(most, c);
      }
    }
  }

  /** Between two dots nothing reads as zero, and a final dot adds nothing. */
  lemma GapIsZero(a: seq<nat>, b: seq<nat>)
    requires a != [] && b != []
    ensures Parsed("v" + (Join(a) + ".." + Join(b))) == a + [0] + b
    ensures Parsed("v" + (Join(a) + ".")) == a
  {
    hide Pieces, Join, Numeral, Parsed;
    JoinShape(a);
    JoinShape(b);
    PiecesEnds("");
    var gap, end := Join(a) + ".." + Join(b), Join(a) + ".";
    ParsedText("v", gap, "");
    ParsedText("v", end, "");
    assert "v" + gap + "" == "v" + gap && "v" + end + "" == "v" + end;
    PiecesDot("", Join(b));
    PiecesDot(Join(a), "." + Join(b));
    assert "" + "." + Join(b) == "." + Join(b) && Join(a) + "." + ("." + Join(b)) == gap;
    PiecesEnds(Join(a));
    GapValues(a, b);
  }

  lemma GapValues(a: seq<nat>, b: seq<nat>)
    requires a != [] && b != []
    ensures Numbers(Pieces(Join(a)) + ([""] + Pieces(Join(b)))) == a + [0] + b
    ensures Numbers(Pieces(Join(a)) + [""]) == a
  {
    JoinedPieces(a);
    JoinedPieces(b);
    hide Pieces, Join, Value, Values;
    var p, q := Pieces(Join(a)), Pieces(Join(b));
    ValuesAppend([""], q);
    ValuesAppend(p, [""] + q);
    NoDigits();
    assert (p + ([""] + q))[|p + ([""] + q)| - 1] == q[|q| - 1];
    assert (p + [""])[..|p|] == p;
    assert a + ([0] + b) == a + [0] + b;
  }

  lemma NoDigits()
    ensures Values([""]) == [0]
  {
  }

  lemma JoinedPieces(numbers: seq<nat>)
    requires numbers != []
    ensures
      var p := Pieces(Join(numbers));
      Values(p) == numbers && p[|p| - 1] != ""
  {
    hide Pieces, Join, Numeral, Value;
    PiecesJoin(numbers);
    JoinedValues(numbers);
    assert Numeral(numbers[|numbers| - 1]) != "";
  }

  lemma ValuesAppend(p: seq<string>, q: seq<string>)
    ensures Values(p + q) == Values(p) + Values(q)
  {
    hide Value;
  }

  /** As texts: the release whose number is raised is the newer one, and not the other way round. */
  lemma RaisedRelease(numbers: seq<nat>, k: nat, more: nat)
    requires k < |numbers| && more > 0
    ensures
      var raised := Parsed("v" + Join(numbers[k := numbers[k] + more]));
      var former := Parsed("v" + Join(numbers));
      Newer(raised, former) && !Newer(former, raised)
  {
    hide Parsed, Newer, Join;
    ParsedJoin("v", numbers, "");
    ParsedJoin("v", numbers[k := numbers[k] + more], "");
    assert "v" + Join(numbers) + "" == "v" + Join(numbers);
    assert "v" + Join(numbers[k := numbers[k] + more]) + "" == "v" + Join(numbers[k := numbers[k] + more]);
    assert numbers[k := numbers[k] + more] == numbers[..k] + [numbers[k] + more] + numbers[k + 1..];
    RaisedIsNewer(numbers, k, more, numbers[k + 1..]);
  }
}
