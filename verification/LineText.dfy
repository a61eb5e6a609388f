/** Lines of text and `key = "value"` assignments in them (`scripts/versioning.py`). */
module LineText {
  import opened Text

  // ----- Lines -----

  /** The characters at which Python's `splitlines` ends a line. */
  predicate IsBreak(c: char) {
    || '\U{A}' <= c <= '\U{D}' || '\U{1C}' <= c <= '\U{1E}' || c == '\U{85}' || c == '\U{2028}' || c == '\U{2029}'
  }

  lemma BreaksExactly(c: char)
    ensures IsBreak(c) <==> c in {
              '\n', '\U{B}', '\U{C}', '\r', '\U{1C}', '\U{1D}', '\U{1E}', '\U{85}', '\U{2028}', '\U{2029}'}
  {
  }

  predicate BreakFree(s: string) {
    forall i :: 0 <= i < |s| ==> !IsBreak(s[i])
  }

  /** The length of the first line with its line ending. */
  function LineLength(s: string): (n: nat)
    requires s != ""
    ensures 1 <= n <= |s|
  {
    if IsBreak(s[0]) then (if s[0] == '\r' && |s| > 1 && s[1] == '\n' then 2 else 1)
    else if |s| == 1 then 1
    else 1 + LineLength(s[1..])
  }

  /** `splitlines(keepends=True)`. */
  function Lines(s: string): seq<string> {
    if s == "" then [] else [s[..LineLength(s)]] + Lines(s[LineLength(s)..])
  }

  function Concat(lines: seq<string>): string {
    if lines == [] then "" else lines[0] + Concat(lines[1..])
  }

  lemma {:induction false} ConcatOfLines(s: string)
    ensures Concat(Lines(s)) == s
  {
    if s != "" {
      ConcatOfLines(s[LineLength(s)..]);
    }
  }

  /** A text that is one line by itself. */
  predicate IsLine(l: string) {
    l != "" && LineLength(l) == |l|
  }

  /** The line ends before whatever follows it. */
  predicate EndsBefore(l: string, next: string)
    requires l != "" && next != ""
  {
    IsBreak(l[|l| - 1]) && !(l[|l| - 1] == '\r' && next[0] == '\n')
  }

  /** The lines of some text. */
  predicate WellSplit(lines: seq<string>) {
    && (forall i :: 0 <= i < |lines| ==> IsLine(lines[i]))
    && (forall i :: 0 < i < |lines| ==> EndsBefore(lines[i - 1], lines[i]))
  }

  lemma {:induction false} LineThenRest(l: string, rest: string)
    requires IsLine(l) && rest != "" && EndsBefore(l, rest)
    ensures LineLength(l + rest) == |l|
  {
    if !IsBreak(l[0]) {
      assert (l + rest)[1..] == l[1..] + rest;
      LineThenRest(l[1..], rest);
    }
  }

  lemma {:induction false} FirstLine(s: string)
    requires s != ""
    ensures IsLine(s[..LineLength(s)])
    ensures LineLength(s) < |s| ==> EndsBefore(s[..LineLength(s)], s[LineLength(s)..])
  {
    if !IsBreak(s[0]) && |s| > 1 {
      FirstLine(s[1..]);
      var n := LineLength(s);
      assert s[..n][1..] == s[1..][..n - 1];
      assert s[n..] == s[1..][n - 1..];
    }
  }

  lemma {:induction false} LinesAreWellSplit(s: string)
    ensures WellSplit(Lines(s))
  {
    if s != "" {
      var n := LineLength(s);
      FirstLine(s);
      LinesAreWellSplit(s[n..]);
      var first, rest := s[..n], Lines(s[n..]);
      if rest != [] {
        assert rest[0][0] == s[n..][0];
      }
      forall i | 0 < i < |Lines(s)|
        ensures EndsBefore(Lines(s)[i - 1], Lines(s)[i])
      {
        assert i > 1 ==> Lines(s)[i - 1] == rest[i - 2] && Lines(s)[i] == rest[i - 1];
      }
    }
  }

  lemma {:induction false} LinesOfConcat(lines: seq<string>)
    requires WellSplit(lines)
    ensures Lines(Concat(lines)) == lines
  {
    if lines != [] {
      var first, rest := lines[0], lines[1..];
      assert WellSplit(rest) by {
        assert forall i :: 0 < i < |rest| ==> rest[i - 1] == lines[i] && rest[i] == lines[i + 1];
      }
      LinesOfConcat(rest);
      assert lines == [first] + rest;
      if rest != [] {
        assert EndsBefore(lines[0], lines[1]);
        assert Concat(rest) == lines[1] + Concat(rest[1..]);
        LineThenRest(first, Concat(rest));
        assert (first + Concat(rest))[..|first|] == first;
        assert (first + Concat(rest))[|first|..] == Concat(rest);
      } else {
        assert first + Concat(rest) == first;
        assert first[..|first|] == first && first[|first|..] == "";
      }
    }
  }

  lemma {:induction false} SkipBreakFree(x: string, t: string)
    requires BreakFree(x) && t != ""
    ensures LineLength(x + t) == |x| + LineLength(t)
  {
    if x == "" {
      assert x + t == t;
    } else {
      assert (x + t)[1..] == x[1..] + t;
      SkipBreakFree(x[1..], t);
    }
  }

  lemma {:induction false} NoEarlyBreak(l: string, i: nat)
    requires IsLine(l) && i + 1 < |l| && l[i + 1] != '\n'
    ensures !IsBreak(l[i])
  {
    if !IsBreak(l[0]) && i > 0 {
      assert l[1..][i] == l[i + 1];
      NoEarlyBreak(l[1..], i - 1);
    }
  }

  /** Replacing a line by one with the same ends keeps the text well split. */
  lemma ReplaceLine(lines: seq<string>, k: nat, l: string)
    requires WellSplit(lines) && k < |lines| && IsLine(l)
    requires l[0] == lines[k][0] && l[|l| - 1] == lines[k][|lines[k]| - 1]
    ensures WellSplit(lines[k := l])
  {
    var changed := lines[k := l];
    forall i | 0 < i < |changed|
      ensures EndsBefore(changed[i - 1], changed[i])
    {
      assert EndsBefore(lines[i - 1], lines[i]);
    }
  }

  lemma {:induction false} ConcatReplaced(lines: seq<string>, k: nat, l: string)
    requires k < |lines|
    ensures Concat(lines[k := l]) == Concat(lines[..k]) + l + Concat(lines[k + 1..])
  {
    if k == 0 {
      assert lines[k := l][1..] == lines[1..];
    } else {
      ConcatReplaced(lines[1..], k - 1, l);
      assert lines[k := l][1..] == lines[1..][k - 1 := l];
      assert lines[..k][1..] == lines[1..][..k - 1];
      assert lines[1..][k..] == lines[k + 1..];
    }
  }

  // ----- Assignments -----

  datatype Assignment = Assignment(line: nat, prefix: string, value: string, suffix: string, newline: string)

  predicate IsBlank(c: char) {
    c == ' ' || c == '\t'
  }

  /** The first position from `i` that is not a space or tab. */
  function Blanks(s: string, i: nat): (j: nat)
    requires i <= |s|
    ensures i <= j <= |s| && (j < |s| ==> !IsBlank(s[j]))
    decreases |s| - i
  {
    if i < |s| && IsBlank(s[i]) then Blanks(s, i + 1) else i
  }

  /** The length of a final CRLF, LF or CR. */
  function EndingLength(line: string): (n: nat)
    ensures n <= |line| && n <= 2
  {
    var m := |line|;
    if m >= 2 && line[m - 2] == '\r' && line[m - 1] == '\n' then 2
    else if m >= 1 && (line[m - 1] == '\n' || line[m - 1] == '\r') then 1
    else 0
  }

  function Body(line: string): string {
    line[..|line| - EndingLength(line)]
  }

  function Newline(line: string): string {
    line[|line| - EndingLength(line)..]
  }

  /** A line is its body and its ending, which is CRLF, LF, CR or nothing. */
  lemma LineOfBody(body: string, ending: string)
    requires ending in {"\r\n", "\n", "\r", ""}
    requires body != "" && ending == "\n" ==> body[|body| - 1] != '\r'
    requires body != "" && ending == "" ==> body[|body| - 1] != '\r' && body[|body| - 1] != '\n'
    ensures Body(body + ending) == body && Newline(body + ending) == ending
  {
    var line := body + ending;
    assert ending != "" ==> line[|line| - 1] == ending[|ending| - 1];
    assert body != "" ==> line[|body| - 1] == body[|body| - 1];
    assert EndingLength(line) == |ending|;
  }

  predicate KeyAt(s: string, i: nat, key: string) {
    i + |key| <= |s| && s[i..i + |key|] == key
  }

  /** Where the value begins: blanks, key, blanks, equals sign, blanks and a quote come before it. */
  function PrefixEnd(body: string, key: string): (r: Option<nat>)
    ensures r.Some? ==> 0 < r.value <= |body|
  {
    var a := Blanks(body, 0);
    if !KeyAt(body, a, key) then None
    else
      var b := Blanks(body, a + |key|);
      if b == |body| || body[b] != '=' then None
      else
        var c := Blanks(body, b + 1);
        if c == |body| || body[c] != '"' then None else Some(c + 1)
  }

  predicate ValueChar(c: char) {
    c != '"' && c != '\\' && c != '\r' && c != '\n'
  }

  /** The end of the run of value characters that begins at `i`. */
  function ValueEnd(s: string, i: nat): (j: nat)
    requires i <= |s|
    ensures i <= j <= |s| && (j < |s| ==> !ValueChar(s[j]))
    ensures forall k :: i <= k < j ==> ValueChar(s[k])
    decreases |s| - i
  {
    if i < |s| && ValueChar(s[i]) then ValueEnd(s, i + 1) else i
  }

  /** Nothing more than blanks and a comment. */
  predicate IsTail(s: string, i: nat)
    requires i <= |s|
  {
    var d := Blanks(s, i);
    d == |s| || (s[d] == '#' && forall k :: d <= k < |s| ==> s[k] != '\n')
  }

  predicate IsSuffix(s: string) {
    s != "" && s[0] == '"' && IsTail(s, 1)
  }

  function MatchBody(body: string, key: string): Option<(string, string, string)> {
    var start := PrefixEnd(body, key);
    if start.None? then None
    else
      var end := ValueEnd(body, start.value);
      if IsSuffix(body[end..]) then Some((body[..start.value], body[start.value..end], body[end..])) else None
  }

  /** The characters from `i` up to `j` are spaces and tabs. */
  predicate BlankRun(s: string, i: nat, j: nat) {
    i <= j <= |s| && forall k :: i <= k < j ==> IsBlank(s[k])
  }

  /** From `i` on there are blanks up to `d`, and then nothing or a comment. */
  predicate TailAt(s: string, i: nat, d: nat) {
    BlankRun(s, i, d) && (d == |s| || (s[d] == '#' && forall k :: d <= k < |s| ==> s[k] != '\n'))
  }

  lemma {:induction false} BlanksExactly(s: string, i: nat, j: nat)
    requires i <= |s|
    ensures Blanks(s, i) == j <==> BlankRun(s, i, j) && (j < |s| ==> !IsBlank(s[j]))
    decreases |s| - i
  {
    if i < |s| && IsBlank(s[i]) {
      BlanksExactly(s, i + 1, j);
    }
  }

  lemma TailExactly(s: string, i: nat)
    requires i <= |s|
    ensures IsTail(s, i) <==> exists d :: i <= d <= |s| && TailAt(s, i, d)
  {
    BlanksExactly(s, i, Blanks(s, i));
    if d :| i <= d <= |s| && TailAt(s, i, d) {
      BlanksExactly(s, i, d);
    }
    if IsTail(s, i) {
      assert TailAt(s, i, Blanks(s, i));
    }
  }

  /**
   * The body is an assignment: blanks, the key at `a`, blanks, an equals sign at `b`, blanks, a quote
   * at `c`, characters of a value, a quote at `e`, blanks, and a comment at `d` or nothing.
   */
  predicate AssignsAt(body: string, key: string, a: nat, b: nat, c: nat, e: nat, d: nat) {
    && BlankRun(body, 0, a) && KeyAt(body, a, key)
    && BlankRun(body, a + |key|, b) && b < |body| && body[b] == '='
    && BlankRun(body, b + 1, c) && c < |body| && body[c] == '"'
    && c < e < |body| && body[e] == '"' && (forall k :: c < k < e ==> ValueChar(body[k]))
    && TailAt(body, e + 1, d)
  }

  lemma PrefixIsMatched(body: string, key: string, a: nat, b: nat, c: nat, e: nat, d: nat)
    requires key != "" && !IsBlank(key[0]) && AssignsAt(body, key, a, b, c, e, d)
    ensures PrefixEnd(body, key) == Some(c + 1)
  {
    assert body[a] == body[a..a + |key|][0];
    BlanksExactly(body, 0, a);
    BlanksExactly(body, a + |key|, b);
    BlanksExactly(body, b + 1, c);
  }

  /** An assignment is matched, and the three parts are cut at its two quotes. */
  lemma AssignmentIsMatched(body: string, key: string, a: nat, b: nat, c: nat, e: nat, d: nat)
    requires key != "" && !IsBlank(key[0]) && AssignsAt(body, key, a, b, c, e, d)
    ensures MatchBody(body, key) == Some((body[..c + 1], body[c + 1..e], body[e..]))
  {
    PrefixIsMatched(body, key, a, b, c, e, d);
    ValueEndAt(body, c + 1, e);
    var s := body[e..];
    TailIsShifted(body, e, d);
    TailExactly(s, 1);
  }

  lemma TailIsShifted(body: string, e: nat, d: nat)
    requires e < |body| && e < d && TailAt(body, e + 1, d)
    ensures TailAt(body[e..], 1, d - e)
  {
    var s := body[e..];
    assert forall k :: 1 <= k < |s| ==> s[k] == body[e + k];
  }

  lemma PrefixIsRuns(body: string, key: string) returns (a: nat, b: nat, c: nat)
    requires PrefixEnd(body, key).Some?
    ensures BlankRun(body, 0, a) && KeyAt(body, a, key)
    ensures BlankRun(body, a + |key|, b) && b < |body| && body[b] == '='
    ensures BlankRun(body, b + 1, c) && c < |body| && body[c] == '"' && PrefixEnd(body, key) == Some(c + 1)
  {
    a := Blanks(body, 0);
    b := Blanks(body, a + |key|);
    c := Blanks(body, b + 1);
    BlanksExactly(body, 0, a);
    BlanksExactly(body, a + |key|, b);
    BlanksExactly(body, b + 1, c);
  }

  /** And nothing else is matched. */
  lemma MatchedIsAssignment(body: string, key: string) returns (a: nat, b: nat, c: nat, e: nat, d: nat)
    requires MatchBody(body, key).Some?
    ensures AssignsAt(body, key, a, b, c, e, d)
  {
    a, b, c := PrefixIsRuns(body, key);
    e := ValueEnd(body, c + 1);
    var s := body[e..];
    TailExactly(s, 1);
    var t :| 1 <= t <= |s| && TailAt(s, 1, t);
    d := e + t;
    TailIsUnshifted(body, e, t);
  }

  lemma TailIsUnshifted(body: string, e: nat, t: nat)
    requires e < |body| && 1 <= t && TailAt(body[e..], 1, t)
    ensures TailAt(body, e + 1, e + t)
  {
    var s := body[e..];
    assert forall k :: e <= k < |body| ==> body[k] == s[k - e];
  }

  function MatchAssignment(line: string, key: string, index: nat): Option<Assignment> {
    match MatchBody(Body(line), key)
    case None => None
    case Some((prefix, value, suffix)) => Some(Assignment(index, prefix, value, suffix, Newline(line)))
  }

  function WithValue(a: Assignment, value: string): string {
    a.prefix + value + a.suffix + a.newline
  }

  /** Values that can stand between the quotes of one line. */
  predicate Clean(w: string) {
    forall i :: 0 <= i < |w| ==> ValueChar(w[i]) && !IsBreak(w[i])
  }

  lemma {:induction false} BlanksStable(x: string, y: string, i: nat, n: nat)
    requires i <= n <= |x| && n <= |y| && Blanks(x, i) < n
    requires forall k :: 0 <= k < n ==> x[k] == y[k]
    ensures Blanks(y, i) == Blanks(x, i)
    decreases n - i
  {
    if IsBlank(x[i]) {
      BlanksStable(x, y, i + 1, n);
    }
  }

  lemma PrefixEndStable(x: string, y: string, key: string, n: nat)
    requires PrefixEnd(x, key) == Some(n) && n <= |y|
    requires forall k :: 0 <= k < n ==> x[k] == y[k]
    ensures PrefixEnd(y, key) == Some(n) && Blanks(y, 0) == Blanks(x, 0)
  {
    var a := Blanks(x, 0);
    var b := Blanks(x, a + |key|);
    BlanksStable(x, y, 0, n);
    BlanksStable(x, y, a + |key|, n);
    BlanksStable(x, y, b + 1, n);
    assert KeyAt(y, a, key) by {
      assert y[a..a + |key|] == x[a..a + |key|];
    }
  }

  lemma {:induction false} ValueEndAt(s: string, i: nat, j: nat)
    requires i <= j < |s| && !ValueChar(s[j])
    requires forall k :: i <= k < j ==> ValueChar(s[k])
    ensures ValueEnd(s, i) == j
    decreases j - i
  {
    if i < j {
      ValueEndAt(s, i + 1, j);
    }
  }

  lemma BodyParts(body: string, key: string)
    requires MatchBody(body, key).Some?
    ensures var (p, v, s) := MatchBody(body, key).value;
            body == p + v + s && p != "" && IsSuffix(s)
  {
  }

  /** A matched body is exactly its three parts, and any clean value fits between the outer two. */
  lemma BodyLens(body: string, key: string, w: string)
    requires MatchBody(body, key).Some? && Clean(w)
    ensures var (p, v, s) := MatchBody(body, key).value;
            && body == p + v + s && p != "" && IsSuffix(s)
            && MatchBody(p + w + s, key) == Some((p, w, s))
            && Blanks(p + w + s, 0) == Blanks(body, 0) < |p|
  {
    var (p, v, s) := MatchBody(body, key).value;
    var changed := p + w + s;
    PrefixEndStable(body, changed, key, |p|);
    assert changed[|p| + |w|] == s[0];
    ValueEndAt(changed, |p|, |p| + |w|);
    assert changed[..|p|] == p && changed[|p|..|p| + |w|] == w && changed[|p| + |w|..] == s;
  }

  /**
   * The line lens: a line that matches is the text of its assignment, and with any clean value in
   * its place it is still one line, with the same ends, that matches with that value.
   */
  lemma LineLens(line: string, key: string, index: nat, w: string)
    requires IsLine(line) && MatchAssignment(line, key, index).Some? && Clean(w)
    ensures var a := MatchAssignment(line, key, index).value;
            var changed := WithValue(a, w);
            && line == WithValue(a, a.value) && Clean(a.value)
            && MatchAssignment(changed, key, index) == Some(a.(value := w))
            && IsLine(changed) && changed[0] == line[0] && changed[|changed| - 1] == line[|line| - 1]
            && Blanks(Body(changed), 0) == Blanks(Body(line), 0)
  {
    var a := MatchAssignment(line, key, index).value;
    MatchedLine(line, key, index);
    PartsAreClean(line, a, key, index);
    SameEnds(line, a, w);
    ChangedLineMatches(line, key, index, w);
  }

  lemma MatchedLine(line: string, key: string, index: nat)
    requires MatchAssignment(line, key, index).Some?
    ensures var a := MatchAssignment(line, key, index).value;
            line == WithValue(a, a.value) && a.prefix != "" && IsSuffix(a.suffix)
  {
    BodyParts(Body(line), key);
    assert line == Body(line) + Newline(line);
  }

  lemma ChangedLineMatches(line: string, key: string, index: nat, w: string)
    requires MatchAssignment(line, key, index).Some? && Clean(w)
    ensures var a := MatchAssignment(line, key, index).value;
            var changed := WithValue(a, w);
            && MatchAssignment(changed, key, index) == Some(a.(value := w))
            && Blanks(Body(changed), 0) == Blanks(Body(line), 0)
  {
    var a := MatchAssignment(line, key, index).value;
    BodyLens(Body(line), key, w);
    EndingKept(line, a.prefix + w + a.suffix);
  }

  lemma SameEnds(line: string, a: Assignment, w: string)
    requires IsLine(line) && line == WithValue(a, a.value)
    requires BreakFree(a.prefix) && a.prefix != "" && Clean(a.value) && Clean(w) && a.suffix != ""
    ensures var changed := WithValue(a, w);
            IsLine(changed) && changed[0] == line[0] && changed[|changed| - 1] == line[|line| - 1]
  {
    var changed := WithValue(a, w);
    var tail := a.suffix + a.newline;
    assert line == (a.prefix + a.value) + tail;
    SkipBreakFree(a.prefix + a.value, tail);
    assert changed == (a.prefix + w) + tail;
    SkipBreakFree(a.prefix + w, tail);
    assert changed[0] == a.prefix[0] == line[0];
    assert changed[|changed| - 1] == tail[|tail| - 1] == line[|line| - 1];
  }

  lemma EndingKept(line: string, body: string)
    requires Body(line) != "" && body != "" && body[|body| - 1] == Body(line)[|Body(line)| - 1]
    ensures Body(body + Newline(line)) == body && Newline(body + Newline(line)) == Newline(line)
  {
    var l, n := body + Newline(line), EndingLength(line);
    assert n > 0 ==> l[|l| - 1] == line[|line| - 1];
    assert n == 0 ==> l[|l| - 1] == line[|line| - 1];
    assert n > 0 ==> l[|l| - 2] == line[|line| - 2];
    assert EndingLength(l) == n;
  }

  lemma PartsAreClean(line: string, a: Assignment, key: string, index: nat)
    requires IsLine(line) && MatchAssignment(line, key, index) == Some(a)
    requires line == WithValue(a, a.value) && IsSuffix(a.suffix)
    ensures BreakFree(a.prefix) && Clean(a.value)
  {
    var n := |a.prefix| + |a.value|;
    assert line[n] == '"';
    forall i | 0 <= i < n
      ensures !IsBreak(line[i])
    {
      if line[i + 1] != '\n' {
        NoEarlyBreak(line, i);
      } else {
        assert i + 2 <= n;
        EarlyNewline(line, i + 1);
      }
    }
    assert forall i :: 0 <= i < |a.prefix| ==> a.prefix[i] == line[i];
    assert forall i :: 0 <= i < |a.value| ==> a.value[i] == line[|a.prefix| + i];
  }

  /** A newline ends its line. */
  lemma {:induction false} EarlyNewline(l: string, i: nat)
    requires IsLine(l) && i + 1 < |l| && l[i] == '\n'
    ensures false
  {
    if i > 0 && !IsBreak(l[0]) {
      assert l[1..][i - 1] == l[i];
      EarlyNewline(l[1..], i - 1);
    }
  }
}
