/**
 * `CommentLinesVisitor`: counts the distinct lines of a file that carry
 * comment text. Every trivia (comment) attached to a token is stripped of its
 * delimiters, split into physical lines, and each line that is neither blank
 * nor marked NOSONAR contributes its line number to a set; the very first
 * trivia of the first token (the file header) is skipped.
 */
module CommentLines {
  import opened Wrappers

  /** A comment attached to a token, with the line it starts on. */
  datatype Trivia = Trivia(startLine: int, comment: string)

  /** A token, seen only through its trivia, in source order. */
  type Token = seq<Trivia>

  predicate StartsWith(s: string, prefix: string) {
    |prefix| <= |s| && s[..|prefix|] == prefix
  }

  /** `JavaCommentAnalyser.getContents`: a line comment loses its leading
      "//", any other comment its first two and last two code points. The
      source's `substring` throws for a non-"//" comment shorter than four
      UTF-16 units; that is `None` here. Java counts UTF-16 units and this
      model counts code points, which differ only for a supplementary
      character among the delimiters, never for a lexer comment. */
  function GetContents(comment: string): (r: Option<string>)
    ensures r.None? <==> !StartsWith(comment, "//") && |comment| < 4
    ensures r.Some? && StartsWith(comment, "//") ==> "//" + r.value == comment
    ensures r.Some? && !StartsWith(comment, "//") ==>
      comment[..2] + r.value + comment[|comment| - 2..] == comment
  {
    if StartsWith(comment, "//") then
      assert comment == comment[..2] + comment[2..];
      Some(comment[2..])
    else if |comment| >= 4 then
      assert comment == comment[..2] + comment[2..|comment| - 2] + comment[|comment| - 2..];
      Some(comment[2..|comment| - 2])
    else
      None
  }

  /** The two comment forms of Java give back exactly their body. */
  lemma ContentsOfDelimited(body: string)
    ensures GetContents("//" + body) == Some(body)
    ensures GetContents("/*" + body + "*/") == Some(body)
  {
    var line := "//" + body;
    assert line[..2] == "//";
    var block := "/*" + body + "*/";
    assert block[..2] == "/*";
    assert block[2..|block| - 2] == body;
  }

  /** `Character.isWhitespace`: the ASCII controls TAB, LF, VT, FF, CR and the
      separators FS, GS, RS, US, the space, and the Unicode space, line and
      paragraph separators other than the non-breaking ones. */
  predicate IsWhitespace(c: char) {
    var n := c as int;
    || (9 <= n <= 13)
    || (28 <= n <= 32)
    || n == 0x1680 || n == 0x180E
    || (0x2000 <= n <= 0x200A && n != 0x2007)
    || n == 0x2028 || n == 0x2029 || n == 0x205F || n == 0x3000
  }

  /** A character that does not make a comment line count. */
  predicate BlankChar(c: char) {
    IsWhitespace(c) || c == '*' || c == '/'
  }

  /** `JavaCommentAnalyser.isBlank`: scan until a character that is neither
      whitespace, '*' nor '/'. */
  method IsBlank(line: string) returns (blank: bool)
    ensures blank <==> forall i | 0 <= i < |line| :: BlankChar(line[i])
  {
    var i := 0;
    while i < |line|
      invariant 0 <= i <= |line|
      invariant forall j | 0 <= j < i :: BlankChar(line[j])
    {
      if !BlankChar(line[i]) {
        return false;
      }
      i := i + 1;
    }
    return true;
  }

  /** The blank test as a function, for the counting below; `BlankIff`
      relates it to the character test. */
  function Blank(line: string): bool
    decreases |line|
  {
    if |line| == 0 then true else BlankChar(line[0]) && Blank(line[1..])
  }

  lemma {:induction false} BlankIff(line: string)
    ensures Blank(line) <==> forall i | 0 <= i < |line| :: BlankChar(line[i])
    decreases |line|
  {
    if |line| > 0 {
      BlankIff(line[1..]);
      assert forall i | 1 <= i < |line| :: line[i] == line[1..][i - 1];
    }
  }

  /** "NOSONAR" occurs in `line` at index `i`. */
  predicate NosonarAt(line: string, i: int) {
    0 <= i && i + 7 <= |line| && line[i..i + 7] == "NOSONAR"
  }

  /** `String.contains("NOSONAR")`, scanning from the front; `NosonarIff`
      relates it to an occurrence at some index. */
  predicate ContainsNosonar(line: string)
    decreases |line|
  {
    |line| >= 7 && (line[..7] == "NOSONAR" || ContainsNosonar(line[1..]))
  }

  lemma {:induction false} NosonarIff(line: string)
    ensures ContainsNosonar(line) <==> exists i | 0 <= i <= |line| - 7 :: NosonarAt(line, i)
    decreases |line|
  {
    if |line| >= 7 {
      NosonarIff(line[1..]);
      assert line[0..7] == line[..7];
      if line[..7] == "NOSONAR" {
        assert NosonarAt(line, 0);
      }
      if exists i | 0 <= i <= |line| - 7 :: NosonarAt(line, i) {
        var i :| 0 <= i <= |line| - 7 && NosonarAt(line, i);
        if i > 0 {
          assert line[1..][i - 1..i - 1 + 7] == line[i..i + 7];
          assert NosonarAt(line[1..], i - 1);
        }
      }
      if ContainsNosonar(line[1..]) && line[..7] != "NOSONAR" {
        var i :| 0 <= i <= |line[1..]| - 7 && NosonarAt(line[1..], i);
        assert line[1..][i..i + 7] == line[i + 1..i + 1 + 7];
        assert NosonarAt(line, i + 1);
      }
    }
  }

  /** A physical comment line that contributes its line number. */
  predicate Counts(line: string) {
    !ContainsNosonar(line) && !Blank(line)
  }

  predicate IsBreak(c: char) {
    c == '\r' || c == '\n'
  }

  predicate NoBreak(line: string) {
    forall i | 0 <= i < |line| :: !IsBreak(line[i])
  }

  /** `split("(\r)?\n|\r", -1)`: the text between line terminators, where
      "\r\n", "\n" and "\r" each end one line and empty trailing lines are kept. */
  function SplitLines(s: string): (lines: seq<string>)
    ensures |lines| >= 1
    ensures forall k | 0 <= k < |lines| :: NoBreak(lines[k])
    decreases |s|
  {
    if |s| == 0 then [""]
    else if |s| >= 2 && s[0] == '\r' && s[1] == '\n' then [""] + SplitLines(s[2..])
    else if IsBreak(s[0]) then [""] + SplitLines(s[1..])
    else
      var rest := SplitLines(s[1..]);
      [[s[0]] + rest[0]] + rest[1..]
  }

  /** The line terminators `SplitLines` cut at, in order. */
  function Terminators(s: string): (ts: seq<string>)
    ensures |ts| == |SplitLines(s)| - 1
    ensures forall k | 0 <= k < |ts| :: ts[k] == "\r\n" || ts[k] == "\n" || ts[k] == "\r"
    decreases |s|
  {
    if |s| == 0 then []
    else if |s| >= 2 && s[0] == '\r' && s[1] == '\n' then ["\r\n"] + Terminators(s[2..])
    else if IsBreak(s[0]) then [[s[0]]] + Terminators(s[1..])
    else Terminators(s[1..])
  }

  /** Lines joined back with their terminators. */
  function Interleave(lines: seq<string>, ts: seq<string>): string
    requires |lines| == |ts| + 1
    decreases |ts|
  {
    if |ts| == 0 then lines[0] else lines[0] + ts[0] + Interleave(lines[1..], ts[1..])
  }

  /** Splitting loses nothing: the lines and the terminators give back the text. */
  lemma {:induction false} SplitRoundTrip(s: string)
    ensures Interleave(SplitLines(s), Terminators(s)) == s
    decreases |s|
  {
    if |s| == 0 {
    } else if |s| >= 2 && s[0] == '\r' && s[1] == '\n' {
      SplitRoundTrip(s[2..]);
      InterleaveBreak("\r\n", SplitLines(s[2..]), Terminators(s[2..]));
      assert s == "\r\n" + s[2..];
    } else if IsBreak(s[0]) {
      SplitRoundTrip(s[1..]);
      InterleaveBreak([s[0]], SplitLines(s[1..]), Terminators(s[1..]));
      assert s == [s[0]] + s[1..];
    } else {
      SplitRoundTrip(s[1..]);
      InterleaveCons(s[0], SplitLines(s[1..]), Terminators(s[1..]));
      assert s == [s[0]] + s[1..];
    }
  }

  /** A terminator in front, with an empty line before it, goes in front of the text. */
  lemma InterleaveBreak(t: string, lines: seq<string>, ts: seq<string>)
    requires |lines| == |ts| + 1
    ensures Interleave([""] + lines, [t] + ts) == t + Interleave(lines, ts)
  {
    assert ([""] + lines)[1..] == lines;
    assert ([t] + ts)[1..] == ts;
    assert "" + t == t;
  }

  /** Putting a character in front of the first line puts it in front of the text. */
  lemma InterleaveCons(c: char, lines: seq<string>, ts: seq<string>)
    requires |lines| == |ts| + 1
    ensures Interleave([[c] + lines[0]] + lines[1..], ts) == [c] + Interleave(lines, ts)
  {
    var lines' := [[c] + lines[0]] + lines[1..];
    assert lines'[1..] == lines[1..];
    if |ts| > 0 {
      AppendAssoc([c], lines[0], ts[0] + Interleave(lines[1..], ts[1..]));
    }
  }

  lemma AppendAssoc(x: string, y: string, z: string)
    ensures (x + y) + z == x + (y + z)
  {
  }

  /** A "\r" terminator is never followed by an empty line and a "\n": that
      would be a single "\r\n". */
  predicate Canonical(lines: seq<string>, ts: seq<string>)
    requires |lines| == |ts| + 1
  {
    forall k | 0 <= k < |ts| - 1 :: ts[k] == "\r" && lines[k + 1] == "" ==> ts[k + 1] != "\n"
  }

  lemma {:induction false} SplitCanonical(s: string)
    ensures Canonical(SplitLines(s), Terminators(s))
    decreases |s|
  {
    if |s| == 0 {
    } else if |s| >= 2 && s[0] == '\r' && s[1] == '\n' {
      SplitCanonical(s[2..]);
      CanonicalCons(SplitLines(s[2..]), Terminators(s[2..]), "\r\n");
    } else if IsBreak(s[0]) {
      SplitCanonical(s[1..]);
      if s[0] == '\r' && |s| >= 2 {
        var rest := SplitLines(s[1..]);
        var ts := Terminators(s[1..]);
        if rest[0] == "" && |ts| > 0 {
          SplitHead(s[1..]);
        }
      }
      CanonicalCons(SplitLines(s[1..]), Terminators(s[1..]), [s[0]]);
    } else {
      SplitCanonical(s[1..]);
      var rest := SplitLines(s[1..]);
      var ts := Terminators(s[1..]);
      var lines := SplitLines(s);
      forall k | 0 <= k < |ts| - 1 && ts[k] == "\r" && lines[k + 1] == ""
        ensures ts[k + 1] != "\n"
      {
        assert lines[k + 1] == rest[k + 1];
      }
    }
  }

  /** An empty first line followed by a terminator means the text starts with it. */
  lemma SplitHead(s: string)
    requires |SplitLines(s)| > 1 && SplitLines(s)[0] == ""
    ensures |s| > 0 && IsBreak(s[0])
    ensures Terminators(s)[0] == "\n" ==> s[0] == '\n'
  {
  }

  lemma CanonicalCons(lines: seq<string>, ts: seq<string>, t: string)
    requires |lines| == |ts| + 1 && Canonical(lines, ts)
    requires t == "\r" && |ts| > 0 && lines[0] == "" ==> ts[0] != "\n"
    ensures Canonical([""] + lines, [t] + ts)
  {
    var lines' := [""] + lines;
    var ts' := [t] + ts;
    forall k | 0 <= k < |ts'| - 1 && ts'[k] == "\r" && lines'[k + 1] == ""
      ensures ts'[k + 1] != "\n"
    {
      if k > 0 {
        assert ts'[k] == ts[k - 1] && lines'[k + 1] == lines[k] && ts'[k + 1] == ts[k];
      }
    }
  }

  /** What a line split must be: break-free lines, one terminator between
      each two, and the text given back when they are joined. */
  predicate SplitsInto(s: string, lines: seq<string>, ts: seq<string>) {
    && |lines| == |ts| + 1
    && (forall k | 0 <= k < |lines| :: NoBreak(lines[k]))
    && (forall k | 0 <= k < |ts| :: ts[k] == "\r\n" || ts[k] == "\n" || ts[k] == "\r")
    && Canonical(lines, ts)
    && Interleave(lines, ts) == s
  }

  /** `SplitLines` is such a split. */
  lemma SplitLinesSplits(s: string)
    ensures SplitsInto(s, SplitLines(s), Terminators(s))
  {
    SplitRoundTrip(s);
    SplitCanonical(s);
  }

  /** A text without line terminators is one line. */
  lemma {:induction false} SplitNoBreak(s: string)
    requires NoBreak(s)
    ensures SplitLines(s) == [s] && Terminators(s) == []
    decreases |s|
  {
    if |s| > 0 {
      SplitNoBreak(s[1..]);
      assert [s[0]] + s[1..] == s;
    }
  }

  /** ... and it is the only one: whatever lines and terminators satisfy the
      description are the ones `SplitLines` and `Terminators` produce. */
  lemma {:induction false} SplitUnique(s: string, lines: seq<string>, ts: seq<string>)
    requires SplitsInto(s, lines, ts)
    ensures lines == SplitLines(s) && ts == Terminators(s)
    decreases |s|
  {
    if |ts| == 0 {
      SplitNoBreak(s);
    } else if |lines[0]| > 0 {
      var lines' := [lines[0][1..]] + lines[1..];
      PeelChar(s, lines, ts);
      SplitUnique(s[1..], lines', ts);
    } else if ts[0] == "\r\n" {
      PeelBreak(s, lines, ts);
      SplitUnique(s[2..], lines[1..], ts[1..]);
    } else {
      PeelBreak(s, lines, ts);
      SplitUnique(s[1..], lines[1..], ts[1..]);
    }
  }

  /** A split whose first line is not empty starts with that line's first
      character, and the rest of the text splits into the rest. */
  lemma PeelChar(s: string, lines: seq<string>, ts: seq<string>)
    requires SplitsInto(s, lines, ts) && |ts| > 0 && |lines[0]| > 0
    ensures |s| > 0 && !IsBreak(s[0])
    ensures SplitsInto(s[1..], [lines[0][1..]] + lines[1..], ts)
    ensures lines == [[s[0]] + lines[0][1..]] + lines[1..]
  {
    var c := lines[0][0];
    var lines' := [lines[0][1..]] + lines[1..];
    assert [c] + lines'[0] == lines[0];
    assert lines'[1..] == lines[1..];
    assert [[c] + lines'[0]] + lines'[1..] == lines;
    InterleaveCons(c, lines', ts);
    assert s == [c] + Interleave(lines', ts);
    assert s[1..] == Interleave(lines', ts);
    assert NoBreak(lines[0]);
    CanonicalTail(lines, lines', ts);
  }

  /** A split whose first line is empty starts with its first terminator, and
      the text after it splits into the remaining lines and terminators. */
  lemma PeelBreak(s: string, lines: seq<string>, ts: seq<string>)
    requires SplitsInto(s, lines, ts) && |ts| > 0 && |lines[0]| == 0
    ensures ts[0] == "\r\n" ==> |s| >= 2 && s[0] == '\r' && s[1] == '\n' && SplitsInto(s[2..], lines[1..], ts[1..])
    ensures ts[0] != "\r\n" ==>
      && |s| > 0 && IsBreak(s[0]) && !(|s| >= 2 && s[0] == '\r' && s[1] == '\n')
      && ts[0] == [s[0]] && SplitsInto(s[1..], lines[1..], ts[1..])
    ensures lines[0] == ""
  {
    var tail := Interleave(lines[1..], ts[1..]);
    assert s == ts[0] + tail;
    CanonicalDrop(lines, ts);
    if ts[0] == "\r\n" {
      assert s[2..] == tail;
    } else {
      assert s[1..] == tail;
      if ts[0] == "\r" && |tail| > 0 {
        FirstOfJoin(lines[1..], ts[1..]);
      }
    }
  }

  /** Dropping the first character of a non-empty first line keeps a split canonical. */
  lemma CanonicalTail(lines: seq<string>, lines': seq<string>, ts: seq<string>)
    requires |lines| == |ts| + 1 && Canonical(lines, ts)
    requires (forall k | 0 <= k < |lines| :: NoBreak(lines[k]))
    requires |lines[0]| > 0 && lines' == [lines[0][1..]] + lines[1..]
    ensures |lines'| == |ts| + 1 && Canonical(lines', ts)
    ensures forall k | 0 <= k < |lines'| :: NoBreak(lines'[k])
  {
    assert forall k | 1 <= k < |lines'| :: lines'[k] == lines[k];
    assert NoBreak(lines'[0]) by {
      assert forall i | 0 <= i < |lines'[0]| :: lines'[0][i] == lines[0][i + 1];
    }
  }

  /** Dropping the first line and terminator keeps a split canonical. */
  lemma CanonicalDrop(lines: seq<string>, ts: seq<string>)
    requires |lines| == |ts| + 1 && |ts| > 0 && Canonical(lines, ts)
    ensures Canonical(lines[1..], ts[1..])
    ensures lines[0] == "" && ts[0] == "\r" && |ts| > 1 && lines[1] == "" ==> ts[1] != "\n"
  {
    forall k | 0 <= k < |ts[1..]| - 1 && ts[1..][k] == "\r" && lines[1..][k + 1] == ""
      ensures ts[1..][k + 1] != "\n"
    {
      assert ts[1..][k] == ts[k + 1] && lines[1..][k + 1] == lines[k + 2] && ts[1..][k + 1] == ts[k + 2];
    }
  }

  /** The first character of a non-empty canonical join that follows a "\r"
      is not "\n". */
  lemma FirstOfJoin(lines: seq<string>, ts: seq<string>)
    requires |lines| == |ts| + 1
    requires (forall k | 0 <= k < |lines| :: NoBreak(lines[k]))
    requires (forall k | 0 <= k < |ts| :: ts[k] == "\r\n" || ts[k] == "\n" || ts[k] == "\r")
    requires |ts| > 0 && lines[0] == "" ==> ts[0] != "\n"
    requires |Interleave(lines, ts)| > 0
    ensures Interleave(lines, ts)[0] != '\n'
  {
    if |lines[0]| > 0 {
      assert NoBreak(lines[0]);
      if |ts| > 0 {
        assert Interleave(lines, ts)[0] == lines[0][0];
      }
    } else if |ts| > 0 {
      assert Interleave(lines, ts) == ts[0] + Interleave(lines[1..], ts[1..]);
    }
  }

  /** The line numbers, from `line` on, of the physical lines that count:
      line k of the comment is source line `line + k`. */
  function LinesFrom(lines: seq<string>, line: int): (ns: set<int>)
    ensures forall n :: n in ns <==> line <= n < line + |lines| && Counts(lines[n - line])
    ensures |ns| <= |lines|
    decreases |lines|
  {
    if |lines| == 0 then {}
    else
      var rest := LinesFrom(lines[1..], line + 1);
      var ns := if Counts(lines[0]) then {line} + rest else rest;
      LinesFromStep(lines, line, rest);
      assert line !in rest;
      assert |ns| <= |rest| + 1;
      ns
  }

  /** One step of `LinesFrom`: the first line is numbered `line`, the rest
      from `line + 1` on. */
  lemma LinesFromStep(lines: seq<string>, line: int, rest: set<int>)
    requires |lines| > 0
    requires forall n :: n in rest <==> line + 1 <= n < line + 1 + |lines[1..]| && Counts(lines[1..][n - (line + 1)])
    ensures var ns := if Counts(lines[0]) then {line} + rest else rest;
      forall n :: n in ns <==> line <= n < line + |lines| && Counts(lines[n - line])
  {
    var ns := if Counts(lines[0]) then {line} + rest else rest;
    forall n ensures n in ns <==> line <= n < line + |lines| && Counts(lines[n - line]) {
      if line < n < line + |lines| {
        assert lines[n - line] == lines[1..][n - (line + 1)];
      }
    }
  }

  /** The loop of `visitToken` over the lines of one trivia, with its running
      line counter. */
  method CountLines(lines: seq<string>, start: int) returns (ns: set<int>)
    ensures ns == LinesFrom(lines, start)
  {
    ns := {};
    var line := start;
    var k := 0;
    while k < |lines|
      invariant 0 <= k <= |lines| && line == start + k
      invariant forall n :: n in ns <==> start <= n < line && Counts(lines[n - start])
    {
      if !ContainsNosonar(lines[k]) {
        var blank := IsBlank(lines[k]);
        BlankIff(lines[k]);
        if !blank {
          ns := ns + {line};
        }
      }
      line := line + 1;
      k := k + 1;
    }
  }

  /** The lines one trivia contributes, or `None` when its contents cannot be taken. */
  function TriviaLines(t: Trivia): Option<set<int>> {
    match GetContents(t.comment)
    case None => None
    case Some(body) => Some(LinesFrom(SplitLines(body), t.startLine))
  }

  /** The physical lines of a trivia: how many numbers it can contribute. */
  function Segments(t: Trivia): nat {
    match GetContents(t.comment)
    case None => 0
    case Some(body) => |SplitLines(body)|
  }

  /** Both unions, or `None` when either failed. */
  function Union(x: Option<set<int>>, y: Option<set<int>>): (r: Option<set<int>>)
    ensures r.Some? <==> x.Some? && y.Some?
  {
    if x.Some? && y.Some? then Some(x.value + y.value) else None
  }

  /** The union of every member, or `None` when any member is `None`. */
  function UnionAll(xs: seq<Option<set<int>>>): Option<set<int>>
    decreases |xs|
  {
    if |xs| == 0 then Some({}) else Union(xs[0], UnionAll(xs[1..]))
  }

  lemma {:induction false} UnionAllCharacterised(xs: seq<Option<set<int>>>)
    ensures UnionAll(xs).None? <==> exists i | 0 <= i < |xs| :: xs[i].None?
    ensures UnionAll(xs).Some? ==> forall n :: n in UnionAll(xs).value <==>
      exists i | 0 <= i < |xs| && xs[i].Some? :: n in xs[i].value
    decreases |xs|
  {
    if |xs| > 0 {
      UnionAllCharacterised(xs[1..]);
      assert forall i | 1 <= i < |xs| :: xs[i] == xs[1..][i - 1];
      if UnionAll(xs[1..]).None? {
        var i :| 0 <= i < |xs[1..]| && xs[1..][i].None?;
        assert xs[i + 1].None?;
      }
      if UnionAll(xs).Some? {
        forall n | exists i | 0 <= i < |xs| && xs[i].Some? :: n in xs[i].value
          ensures n in UnionAll(xs).value
        {
          var i :| 0 <= i < |xs| && xs[i].Some? && n in xs[i].value;
          if i > 0 {
            assert n in xs[1..][i - 1].value;
          }
        }
      }
    }
  }

  lemma {:induction false} UnionAllAppend(xs: seq<Option<set<int>>>, ys: seq<Option<set<int>>>)
    ensures UnionAll(xs + ys) == Union(UnionAll(xs), UnionAll(ys))
    decreases |xs|
  {
    if |xs| == 0 {
      assert xs + ys == ys;
      if UnionAll(ys).Some? {
        assert {} + UnionAll(ys).value == UnionAll(ys).value;
      }
    } else {
      assert (xs + ys)[1..] == xs[1..] + ys;
      assert (xs + ys)[0] == xs[0];
      UnionAllAppend(xs[1..], ys);
      var t := xs[0];
      var l := UnionAll(xs[1..]);
      var m := UnionAll(ys);
      if t.Some? && l.Some? && m.Some? {
        assert t.value + (l.value + m.value) == (t.value + l.value) + m.value;
      }
    }
  }

  /** The lines of each trivia of `ts`, in order. */
  function PerTrivia(ts: seq<Trivia>): (xs: seq<Option<set<int>>>)
    ensures |xs| == |ts|
    decreases |ts|
  {
    if |ts| == 0 then [] else [TriviaLines(ts[0])] + PerTrivia(ts[1..])
  }

  lemma {:induction false} PerTriviaAt(ts: seq<Trivia>)
    ensures forall i | 0 <= i < |ts| :: PerTrivia(ts)[i] == TriviaLines(ts[i])
    decreases |ts|
  {
    if |ts| > 0 {
      PerTriviaAt(ts[1..]);
      assert forall i | 1 <= i < |ts| :: ts[i] == ts[1..][i - 1];
    }
  }

  lemma {:induction false} PerTriviaAppend(xs: seq<Trivia>, ys: seq<Trivia>)
    ensures PerTrivia(xs + ys) == PerTrivia(xs) + PerTrivia(ys)
    decreases |xs|
  {
    if |xs| == 0 {
      assert xs + ys == ys;
    } else {
      assert (xs + ys)[0] == xs[0];
      assert (xs + ys)[1..] == xs[1..] + ys;
      PerTriviaAppend(xs[1..], ys);
    }
  }

  /** The union of the lines of every trivia in `ts`; `None` if any fails. */
  function Lines(ts: seq<Trivia>): Option<set<int>> {
    UnionAll(PerTrivia(ts))
  }

  /** The first trivia's lines joined with the rest's. */
  lemma LinesCons(ts: seq<Trivia>)
    requires |ts| > 0
    ensures Lines(ts) == Union(TriviaLines(ts[0]), Lines(ts[1..]))
  {
    assert PerTrivia(ts)[1..] == PerTrivia(ts[1..]);
  }

  /** The lines fail exactly when one trivia fails, and otherwise hold every
      trivia's lines and nothing else. */
  lemma LinesCharacterised(ts: seq<Trivia>)
    ensures Lines(ts).None? <==> exists i | 0 <= i < |ts| :: TriviaLines(ts[i]).None?
    ensures Lines(ts).Some? ==> forall n :: n in Lines(ts).value <==>
      exists i | 0 <= i < |ts| && TriviaLines(ts[i]).Some? :: n in TriviaLines(ts[i]).value
  {
    UnionAllCharacterised(PerTrivia(ts));
    PerTriviaAt(ts);
  }

  function TotalSegments(ts: seq<Trivia>): nat
    decreases |ts|
  {
    if |ts| == 0 then 0 else Segments(ts[0]) + TotalSegments(ts[1..])
  }

  /** Distinct lines: never more than the physical lines of the trivia counted. */
  lemma {:induction false} LinesBound(ts: seq<Trivia>)
    requires Lines(ts).Some?
    ensures |Lines(ts).value| <= TotalSegments(ts)
    decreases |ts|
  {
    if |ts| > 0 {
      LinesCons(ts);
      LinesBound(ts[1..]);
      var l := TriviaLines(ts[0]).value;
      var rest := Lines(ts[1..]).value;
      SizeOfUnion(l, rest);
    }
  }

  lemma SizeOfUnion(x: set<int>, y: set<int>)
    ensures |x + y| <= |x| + |y|
  {
    assert |x + y| + |x * y| == |x| + |y|;
  }

  lemma LinesAppend(xs: seq<Trivia>, ys: seq<Trivia>)
    ensures Lines(xs + ys) == Union(Lines(xs), Lines(ys))
  {
    PerTriviaAppend(xs, ys);
    UnionAllAppend(PerTrivia(xs), PerTrivia(ys));
  }

  /** The visitor's fields: the line numbers seen so far and whether a first
      trivia has been passed over. */
  datatype Visitor = Visitor(comments: set<int>, seenFirstToken: bool)

  /** One trivia inside `visitToken`: counted once the first has been passed
      over, otherwise skipped and the flag set. */
  function VisitTrivia(v: Visitor, t: Trivia): Option<Visitor> {
    if v.seenFirstToken then
      match TriviaLines(t)
      case None => None
      case Some(ns) => Some(v.(comments := v.comments + ns))
    else
      Some(v.(seenFirstToken := true))
  }

  function VisitTrivias(v: Visitor, ts: seq<Trivia>): Option<Visitor>
    decreases |ts|
  {
    if |ts| == 0 then Some(v)
    else
      match VisitTrivia(v, ts[0])
      case None => None
      case Some(v') => VisitTrivias(v', ts[1..])
  }

  /** `visitToken`: its trivia in order, then the flag is set whatever happened. */
  function VisitToken(v: Visitor, tok: Token): Option<Visitor> {
    match VisitTrivias(v, tok)
    case None => None
    case Some(v') => Some(v'.(seenFirstToken := true))
  }

  /** The tokens of the file in order. */
  function VisitTokens(v: Visitor, tokens: seq<Token>): Option<Visitor>
    decreases |tokens|
  {
    if |tokens| == 0 then Some(v)
    else
      match VisitToken(v, tokens[0])
      case None => None
      case Some(v') => VisitTokens(v', tokens[1..])
  }

  /** `commentLines(tree)`: clear the set and the flag, visit, report the set's
      size together with the visitor's state afterwards. Because of that reset
      the visitor `v` the call starts from is never read, so a second call on
      the same tokens gives the same count. */
  function CommentLinesOf(v: Visitor, tokens: seq<Token>): Option<(nat, Visitor)> {
    match VisitTokens(Visitor({}, false), tokens)
    case None => None
    case Some(v') => Some((|v'.comments|, v'))
  }

  function Flatten(tokens: seq<Token>): seq<Trivia>
    decreases |tokens|
  {
    if |tokens| == 0 then [] else tokens[0] + Flatten(tokens[1..])
  }

  /** The trivia that are counted: all of them but the first trivia of the
      first token, when that token has any. A first token without trivia
      still sets the flag, so then nothing is skipped. */
  function CountedTrivia(tokens: seq<Token>): seq<Trivia> {
    if |tokens| == 0 then []
    else if |tokens[0]| == 0 then Flatten(tokens[1..])
    else tokens[0][1..] + Flatten(tokens[1..])
  }

  /** A visitor past the first trivia holding `c` and then the lines `r`. */
  function Seen(c: set<int>, r: Option<set<int>>): Option<Visitor> {
    if r.Some? then Some(Visitor(c + r.value, true)) else None
  }

  /** Once the flag is set, visiting trivia adds exactly their lines. */
  lemma {:induction false} VisitTriviasSeen(c: set<int>, ts: seq<Trivia>)
    ensures VisitTrivias(Visitor(c, true), ts) == Seen(c, Lines(ts))
    decreases |ts|
  {
    if |ts| > 0 {
      LinesCons(ts);
      var t := TriviaLines(ts[0]);
      if t.Some? {
        assert VisitTrivia(Visitor(c, true), ts[0]) == Some(Visitor(c + t.value, true));
        VisitTriviasSeen(c + t.value, ts[1..]);
        var rest := Lines(ts[1..]);
        assert VisitTrivias(Visitor(c, true), ts) == VisitTrivias(Visitor(c + t.value, true), ts[1..]);
        assert Lines(ts) == Union(t, rest);
        if rest.Some? {
          assert c + t.value + rest.value == c + (t.value + rest.value);
        }
      } else {
        assert VisitTrivias(Visitor(c, true), ts) == None;
        assert Lines(ts) == None;
      }
    } else {
      assert c + {} == c;
    }
  }

  lemma {:induction false} VisitTokensSeen(c: set<int>, tokens: seq<Token>)
    ensures VisitTokens(Visitor(c, true), tokens) == Seen(c, Lines(Flatten(tokens)))
    decreases |tokens|
  {
    if |tokens| > 0 {
      VisitTriviasSeen(c, tokens[0]);
      LinesAppend(tokens[0], Flatten(tokens[1..]));
      var l := Lines(tokens[0]);
      if l.Some? {
        VisitTokensSeen(c + l.value, tokens[1..]);
        var rest := Lines(Flatten(tokens[1..]));
        if rest.Some? {
          assert c + l.value + rest.value == c + (l.value + rest.value);
        }
      }
    } else {
      assert c + {} == c;
    }
  }

  /** The count is the number of distinct counted lines of every trivia but
      the first one of the first token, or fails exactly when one of those
      trivia has no contents; the state left from an earlier call plays no
      part. */
  lemma CommentLinesCounts(v: Visitor, tokens: seq<Token>)
    ensures CommentLinesOf(v, tokens).None? <==> Lines(CountedTrivia(tokens)).None?
    ensures CommentLinesOf(v, tokens).Some? ==>
      CommentLinesOf(v, tokens).value.0 == |Lines(CountedTrivia(tokens)).value|
  {
    if |tokens| > 0 {
      var tok := tokens[0];
      if |tok| == 0 {
        VisitTokensSeen({}, tokens[1..]);
      } else {
        VisitTriviasSeen({}, tok[1..]);
        LinesAppend(tok[1..], Flatten(tokens[1..]));
        var l := Lines(tok[1..]);
        if l.Some? {
          VisitTokensSeen({} + l.value, tokens[1..]);
        }
      }
    }
  }

  /** The count never exceeds the number of physical lines of the counted trivia. */
  lemma CommentLinesBound(v: Visitor, tokens: seq<Token>)
    requires CommentLinesOf(v, tokens).Some?
    ensures CommentLinesOf(v, tokens).value.0 <= TotalSegments(CountedTrivia(tokens))
  {
    CommentLinesCounts(v, tokens);
    LinesBound(CountedTrivia(tokens));
  }
}
