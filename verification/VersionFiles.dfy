/** Finding and replacing the release version in the manifest and the lock file (`scripts/versioning.py`). */
module VersionFiles {
  import opened Text
  import opened LineText
  import opened Versions

  const PACKAGE_NAME := "cirrusync"

  datatype ScanError = NotOneTable | NotOneAssignment | BlocksDisagree | WrongPackage

  // ----- Table headers -----

  /** White space as Python's `strip` sees it. */
  predicate IsPySpace(c: char) {
    IsSpace(c) || '\U{1C}' <= c <= '\U{1F}'
  }

  function Spaces(s: string, i: nat): (j: nat)
    requires i <= |s|
    ensures i <= j <= |s|
    decreases |s| - i
  {
    if i < |s| && IsPySpace(s[i]) then Spaces(s, i + 1) else i
  }

  function PyTrimEnd(s: string): string {
    if s != "" && IsPySpace(s[|s| - 1]) then PyTrimEnd(s[..|s| - 1]) else s
  }

  function PyTrim(s: string): string {
    PyTrimEnd(s[Spaces(s, 0)..])
  }

  predicate TableChar(c: char) {
    c != '[' && c != ']' && c != '\r' && c != '\n'
  }

  function TableEnd(s: string, i: nat): (j: nat)
    requires i <= |s|
    ensures i <= j <= |s|
    decreases |s| - i
  {
    if i < |s| && TableChar(s[i]) then TableEnd(s, i + 1) else i
  }

  /** The name in a header between `open` and `close`, when the body is one. */
  function TableName(body: string, open: string, close: string): Option<string> {
    var a := Blanks(body, 0);
    if !KeyAt(body, a, open) then None
    else
      var from := a + |open|;
      var to := TableEnd(body, from);
      if to == from || !KeyAt(body, to, close) || !IsTail(body, to + |close|) then None
      else Some(PyTrim(body[from..to]))
  }

  /**
   * The body is a header: blanks, `open` at `a`, characters of a name up to `e`, `close` there,
   * blanks, and a comment at `d` or nothing.
   */
  predicate HeadsAt(body: string, open: string, close: string, a: nat, e: nat, d: nat) {
    && BlankRun(body, 0, a) && KeyAt(body, a, open)
    && a + |open| < e <= |body| && (forall k :: a + |open| <= k < e ==> TableChar(body[k]))
    && KeyAt(body, e, close) && TailAt(body, e + |close|, d)
  }

  lemma {:induction false} TableEndExactly(s: string, i: nat, j: nat)
    requires i <= |s|
    ensures TableEnd(s, i) == j <==>
            && i <= j <= |s| && (forall k :: i <= k < j ==> TableChar(s[k])) && (j < |s| ==> !TableChar(s[j]))
    decreases |s| - i
  {
    if i < |s| && TableChar(s[i]) {
      TableEndExactly(s, i + 1, j);
    }
  }

  /** The brackets of a kind of header. */
  predicate Brackets(open: string, close: string) {
    (open == "[" && close == "]") || (open == "[[" && close == "]]")
  }

  /** A header is recognised, and its name is what is between the brackets, without white space around it. */
  lemma HeaderIsRead(body: string, open: string, close: string, a: nat, e: nat, d: nat)
    requires Brackets(open, close) && HeadsAt(body, open, close, a, e, d)
    ensures TableName(body, open, close) == Some(PyTrim(body[a + |open|..e]))
  {
    KeyStarts(body, a, open);
    KeyStarts(body, e, close);
    BlanksExactly(body, 0, a);
    TableEndExactly(body, a + |open|, e);
    TailExactly(body, e + |close|);
  }

  lemma ReadIsHeader(body: string, open: string, close: string) returns (a: nat, e: nat, d: nat)
    requires TableName(body, open, close).Some?
    ensures HeadsAt(body, open, close, a, e, d)
  {
    a := Blanks(body, 0);
    e := TableEnd(body, a + |open|);
    BlanksExactly(body, 0, a);
    TableEndExactly(body, a + |open|, e);
    TailExactly(body, e + |close|);
    d :| e + |close| <= d <= |body| && TailAt(body, e + |close|, d);
  }

  lemma {:induction false} SpacesExactly(s: string, i: nat, j: nat)
    requires i <= j <= |s| && (forall k :: i <= k < j ==> IsPySpace(s[k])) && (j < |s| ==> !IsPySpace(s[j]))
    ensures Spaces(s, i) == j
    decreases |s| - i
  {
    if i < j {
      SpacesExactly(s, i + 1, j);
    }
  }

  lemma {:induction false} PyEndIsTrimmed(s: string, b: string)
    requires (forall k :: 0 <= k < |b| ==> IsPySpace(b[k])) && (s == "" || !IsPySpace(s[|s| - 1]))
    ensures PyTrimEnd(s + b) == s
  {
    if b == "" {
      assert s + b == s;
    } else {
      PyEndIsTrimmed(s, b[..|b| - 1]);
      assert (s + b)[..|s + b| - 1] == s + b[..|b| - 1];
    }
  }

  /** `strip` removes the white space at both ends, and nothing else. */
  lemma PyTrimExactly(a: string, s: string, b: string)
    requires forall k :: 0 <= k < |a| ==> IsPySpace(a[k])
    requires forall k :: 0 <= k < |b| ==> IsPySpace(b[k])
    requires s != "" && !IsPySpace(s[0]) && !IsPySpace(s[|s| - 1])
    ensures PyTrim(a + s + b) == s
  {
    var t := a + s + b;
    assert t[|a|] == s[0];
    SpacesExactly(t, 0, |a|);
    assert t[|a|..] == s + b;
    PyEndIsTrimmed(s, b);
  }

  /** The body begins with a bracket, after any white space. */
  predicate OpensBracket(body: string) {
    var a := Spaces(body, 0);
    a < |body| && body[a] == '['
  }

  /** The first character that is not white space is a bracket. */
  lemma BracketExactly(body: string)
    ensures OpensBracket(body) <==>
            exists a: nat :: a < |body| && body[a] == '[' && forall k :: 0 <= k < a ==> IsPySpace(body[k])
  {
    SpacesRun(body, 0);
    if a: nat :| a < |body| && body[a] == '[' && forall k :: 0 <= k < a ==> IsPySpace(body[k]) {
      SpacesExactly(body, 0, a);
    }
  }

  lemma {:induction false} SpacesRun(s: string, i: nat)
    requires i <= |s|
    ensures forall k :: i <= k < Spaces(s, i) ==> IsPySpace(s[k])
    decreases |s| - i
  {
    if i < |s| && IsPySpace(s[i]) {
      SpacesRun(s, i + 1);
    }
  }

  lemma {:induction false} SpacesAreBlanks(s: string, i: nat)
    requires i <= |s| && Blanks(s, i) < |s| && !IsPySpace(s[Blanks(s, i)])
    ensures Spaces(s, i) == Blanks(s, i)
    decreases |s| - i
  {
    if IsBlank(s[i]) {
      SpacesAreBlanks(s, i + 1);
    }
  }

  /** Keys are words: they begin with a letter. */
  predicate IsKey(key: string) {
    key != "" && 'a' <= key[0] <= 'z'
  }

  lemma KeyStarts(s: string, i: nat, key: string)
    requires key != ""
    ensures KeyAt(s, i, key) ==> s[i] == key[0]
  {
    assert KeyAt(s, i, key) ==> s[i..i + |key|][0] == s[i];
  }

  /** A line with an assignment is no header, and holds no assignment of a different key. */
  lemma AssignmentIsNothingElse(body: string, key: string, other: string)
    requires IsKey(key) && IsKey(other) && PrefixEnd(body, key).Some?
    ensures TableName(body, "[", "]").None? && TableName(body, "[[", "]]").None? && !OpensBracket(body)
    ensures key[0] != other[0] ==> MatchBody(body, other).None?
  {
    var a := Blanks(body, 0);
    assert body[a..a + |key|][0] == body[a];
    SpacesAreBlanks(body, 0);
    KeyStarts(body, a, "[");
    KeyStarts(body, a, "[[");
    KeyStarts(body, a, other);
  }

  // ----- How a scanner sees one line -----

  datatype View<A> = Table(name: string) | OtherBracket | Entry(found: A)

  /** The assignment of `key` on this line, if there is one. */
  function Found(line: string, key: string, index: nat): (r: seq<Assignment>)
    ensures |r| <= 1 && (r != [] ==> r[0].line == index)
  {
    var a := MatchAssignment(line, key, index);
    if a.Some? then [a.value] else []
  }

  function ManifestView(line: string, key: string, index: nat): (v: View<seq<Assignment>>)
    ensures v.Entry? ==> forall a <- v.found :: a.line == index
  {
    var table := TableName(Body(line), "[", "]");
    if table.Some? then Table(table.value)
    else if OpensBracket(Body(line)) then OtherBracket
    else Entry(Found(line, key, index))
  }

  datatype Block = Block(names: seq<Assignment>, versions: seq<Assignment>, sources: seq<Assignment>)

  function LockView(line: string, index: nat): (v: View<Block>)
    ensures v.Entry? ==> AtLine(v.found, index)
  {
    var table := TableName(Body(line), "[[", "]]");
    if table.Some? then Table(table.value)
    else if OpensBracket(Body(line)) then OtherBracket
    else Entry(Block(Found(line, "name", index), Found(line, "version", index), Found(line, "source", index)))
  }

  predicate AtLine(b: Block, index: nat) {
    && (forall a <- b.names :: a.line == index)
    && (forall a <- b.versions :: a.line == index)
    && (forall a <- b.sources :: a.line == index)
  }

  function ManifestViews(lines: seq<string>, key: string): (r: seq<View<seq<Assignment>>>)
    ensures |r| == |lines| && forall i :: 0 <= i < |lines| ==> r[i] == ManifestView(lines[i], key, i)
  {
    seq(|lines|, i requires 0 <= i < |lines| => ManifestView(lines[i], key, i))
  }

  function LockViews(lines: seq<string>): (r: seq<View<Block>>)
    ensures |r| == |lines| && forall i :: 0 <= i < |lines| ==> r[i] == LockView(lines[i], i)
  {
    seq(|lines|, i requires 0 <= i < |lines| => LockView(lines[i], i))
  }

  // ----- Scanners -----

  /** A scan so far of the manifest: whether the line is in the table, tables seen, matches. */
  datatype ManifestScan = ManifestScan(inPackage: bool, tables: nat, matches: seq<Assignment>)

  function ManifestStep(st: ManifestScan, v: View<seq<Assignment>>): ManifestScan {
    match v
    case Table(name) => st.(inPackage := name == "package", tables := st.tables + if name == "package" then 1 else 0)
    case OtherBracket => st.(inPackage := false)
    case Entry(found) => if st.inPackage then st.(matches := st.matches + found) else st
  }

  function ManifestFold(views: seq<View<seq<Assignment>>>, k: nat): ManifestScan
    requires k <= |views|
  {
    if k == 0 then ManifestScan(false, 0, []) else ManifestStep(ManifestFold(views, k - 1), views[k - 1])
  }

  function ManifestResult(st: ManifestScan): Result<Assignment, ScanError> {
    if st.tables != 1 then Err(NotOneTable)
    else if |st.matches| != 1 then Err(NotOneAssignment)
    else Ok(st.matches[0])
  }

  function ManifestLookup(contents: string, key: string): Result<Assignment, ScanError> {
    var views := ManifestViews(Lines(contents), key);
    ManifestResult(ManifestFold(views, |views|))
  }

  method ManifestPackageAssignment(contents: string, key: string) returns (r: Result<Assignment, ScanError>)
    ensures r == ManifestLookup(contents, key)
  {
    var views := ManifestViews(Lines(contents), key);
    r := ScanManifest(views);
  }

  method ScanManifest(views: seq<View<seq<Assignment>>>) returns (r: Result<Assignment, ScanError>)
    ensures r == ManifestResult(ManifestFold(views, |views|))
  {
    var inPackage, tables, matches := false, 0, [];
    var index := 0;
    while index < |views|
      invariant 0 <= index <= |views|
      invariant ManifestScan(inPackage, tables, matches) == ManifestFold(views, index)
    {
      match views[index] {
        case Table(name) =>
          inPackage := name == "package";
          if inPackage {
            tables := tables + 1;
          }
        case OtherBracket =>
          inPackage := false;
        case Entry(found) =>
          if inPackage {
            matches := matches + found;
          }
      }
      index := index + 1;
    }
    r := ManifestResult(ManifestScan(inPackage, tables, matches));
  }

  // ----- Which assignment the manifest scan finds -----

  /** Line `t` is the header of a package table, and no other header or bracket is between it and line `i`. */
  ghost predicate TableOf<A(!new)>(views: seq<View<A>>, t: nat, i: nat) {
    t < i <= |views| && views[t] == Table("package") && forall j :: t < j < i ==> views[j].Entry?
  }

  /** Line `i` is in a package table. */
  ghost predicate InTable<A(!new)>(views: seq<View<A>>, i: nat) {
    exists t: nat :: TableOf(views, t, i)
  }

  /** Line `i` is in a package table and holds an assignment of the key. */
  ghost predicate AssignsIn(views: seq<View<seq<Assignment>>>, i: nat) {
    i < |views| && views[i].Entry? && views[i].found != [] && InTable(views, i)
  }

  ghost predicate HeaderAt<A(!new)>(views: seq<View<A>>, i: nat) {
    i < |views| && views[i] == Table("package")
  }

  lemma {:induction false} InPackageExactly(views: seq<View<seq<Assignment>>>, k: nat)
    requires k <= |views|
    ensures ManifestFold(views, k).inPackage <==> InTable(views, k)
  {
    if k > 0 {
      InPackageExactly(views, k - 1);
      if views[k - 1] == Table("package") {
        assert TableOf(views, k - 1, k);
      } else if views[k - 1].Entry? && InTable(views, k - 1) {
        var t: nat :| TableOf(views, t, k - 1);
        assert TableOf(views, t, k);
      } else if InTable(views, k) {
        var t: nat :| TableOf(views, t, k);
        assert TableOf(views, t, k - 1);
      }
    }
  }

  /** How many tables there are: none, one, or more. */
  lemma {:induction false} TablesExactly(views: seq<View<seq<Assignment>>>, k: nat)
    requires k <= |views|
    ensures ManifestFold(views, k).tables == 0 <==> forall i: nat :: i < k ==> !HeaderAt(views, i)
    ensures ManifestFold(views, k).tables >= 2 <==>
            exists i: nat, j: nat :: i < j < k && HeaderAt(views, i) && HeaderAt(views, j)
  {
    if k > 0 {
      TablesExactly(views, k - 1);
      assert HeaderAt(views, k - 1) <==> views[k - 1] == Table("package");
    }
  }

  /** How many assignments there are: none, one, or more; and which is the first. */
  lemma {:induction false} MatchesExactly(views: seq<View<seq<Assignment>>>, k: nat)
    requires k <= |views| && forall i :: 0 <= i < |views| && views[i].Entry? ==> |views[i].found| <= 1
    ensures var matches := ManifestFold(views, k).matches;
            && (matches == [] <==> forall i: nat :: i < k ==> !AssignsIn(views, i))
            && (|matches| >= 2 <==> exists i: nat, j: nat :: i < j < k && AssignsIn(views, i) && AssignsIn(views, j))
            && (matches != [] ==> exists i: nat :: i < k && AssignsIn(views, i) && matches[0] == views[i].found[0])
  {
    if k > 0 {
      MatchesExactly(views, k - 1);
      InPackageExactly(views, k - 1);
      var before, after := ManifestFold(views, k - 1).matches, ManifestFold(views, k).matches;
      if AssignsIn(views, k - 1) {
        assert after == before + views[k - 1].found;
        if before != [] {
          var i: nat :| i < k - 1 && AssignsIn(views, i) && before[0] == views[i].found[0];
          assert after[0] == before[0];
        }
      } else {
        assert after == before;
      }
    }
  }

  /** The line at `i` holds the only assignment of the key in a package table, and there is one such table. */
  ghost predicate OnlyAssignment(views: seq<View<seq<Assignment>>>, i: nat) {
    && (exists t: nat :: HeaderAt(views, t) && forall u: nat :: HeaderAt(views, u) ==> u == t)
    && AssignsIn(views, i) && forall j: nat :: AssignsIn(views, j) ==> j == i
  }

  /**
   * The manifest scan finds an assignment only when there is one package table and in it one line that
   * assigns the key, and what it finds is the assignment on that line.
   */
  lemma ManifestFinds(contents: string, key: string) returns (i: nat)
    requires ManifestLookup(contents, key).Ok?
    ensures OnlyAssignment(ManifestViews(Lines(contents), key), i)
    ensures MatchAssignment(Lines(contents)[i], key, i) == Some(ManifestLookup(contents, key).value)
  {
    var views := ManifestViews(Lines(contents), key);
    ThinViews(Lines(contents), key);
    ScanExactly(views);
    i :| OnlyAssignment(views, i);
    ManifestIsFound(contents, key, i);
  }

  /** And always then. */
  lemma ManifestIsFound(contents: string, key: string, i: nat)
    requires OnlyAssignment(ManifestViews(Lines(contents), key), i)
    ensures ManifestLookup(contents, key).Ok?
    ensures MatchAssignment(Lines(contents)[i], key, i) == Some(ManifestLookup(contents, key).value)
  {
    ThinViews(Lines(contents), key);
    ScanExactly(ManifestViews(Lines(contents), key));
  }

  lemma ScanExactly(views: seq<View<seq<Assignment>>>)
    requires forall i :: 0 <= i < |views| && views[i].Entry? ==> |views[i].found| <= 1
    ensures var r := ManifestResult(ManifestFold(views, |views|));
            && (r.Ok? <==> exists i: nat :: OnlyAssignment(views, i))
            && forall i: nat :: OnlyAssignment(views, i) ==> r == Ok(views[i].found[0])
  {
    var k, st := |views|, ManifestFold(views, |views|);
    TablesExactly(views, k);
    MatchesExactly(views, k);
    if st.tables == 1 {
      var t: nat :| t < k && HeaderAt(views, t);
      assert forall u: nat :: HeaderAt(views, u) ==> u == t;
      if |st.matches| == 1 {
        var i: nat :| i < k && AssignsIn(views, i) && st.matches[0] == views[i].found[0];
        assert OnlyAssignment(views, i);
      }
    }
  }

  lemma ThinViews(lines: seq<string>, key: string)
    ensures var views := ManifestViews(lines, key);
            && (forall i :: 0 <= i < |views| && views[i].Entry? ==> |views[i].found| <= 1)
            && forall i :: 0 <= i < |views| && views[i].Entry? && views[i].found != [] ==>
                 MatchAssignment(lines[i], key, i) == Some(views[i].found[0])
  {
  }

  /** A scan so far of the lock file: finished package blocks and the block being read, if any. */
  datatype LockScan = LockScan(blocks: seq<Block>, open: Option<Block>)

  function Finish(st: LockScan): LockScan {
    if st.open.Some? then LockScan(st.blocks + [st.open.value], None) else st
  }

  function Joint(b: Block, c: Block): Block {
    Block(b.names + c.names, b.versions + c.versions, b.sources + c.sources)
  }

  function LockStep(st: LockScan, v: View<Block>): LockScan {
    match v
    case Table(name) => Finish(st).(open := if name == "package" then Some(Block([], [], [])) else None)
    case OtherBracket => Finish(st)
    case Entry(found) => if st.open.Some? then st.(open := Some(Joint(st.open.value, found))) else st
  }

  function LockFold(views: seq<View<Block>>, k: nat): LockScan
    requires k <= |views|
  {
    if k == 0 then LockScan([], None) else LockStep(LockFold(views, k - 1), views[k - 1])
  }

  /** `package` and `count` are the position and number of packages in the parsed lock file. */
  function LockResult(st: LockScan, package: nat, count: nat): Result<Assignment, ScanError> {
    var blocks := Finish(st).blocks;
    if |blocks| != count || package >= |blocks| then Err(BlocksDisagree)
    else
      var b := blocks[package];
      if |b.names| != 1 || b.names[0].value != PACKAGE_NAME then Err(WrongPackage)
      else if |b.versions| != 1 then Err(NotOneAssignment)
      else Ok(b.versions[0])
  }

  function LockLookup(contents: string, package: nat, count: nat): Result<Assignment, ScanError> {
    var views := LockViews(Lines(contents));
    LockResult(LockFold(views, |views|), package, count)
  }

  method LockVersionAssignment(contents: string, package: nat, count: nat) returns (r: Result<Assignment, ScanError>)
    ensures r == LockLookup(contents, package, count)
  {
    var views := LockViews(Lines(contents));
    r := ScanLock(views, package, count);
  }

  method ScanLock(views: seq<View<Block>>, package: nat, count: nat) returns (r: Result<Assignment, ScanError>)
    ensures r == LockResult(LockFold(views, |views|), package, count)
  {
    var blocks: seq<Block>, open: Option<Block> := [], None;
    var index := 0;
    while index < |views|
      invariant 0 <= index <= |views|
      invariant LockScan(blocks, open) == LockFold(views, index)
    {
      var view := views[index];
      if view.Entry? {
        if open.Some? {
          open := Some(Joint(open.value, view.found));
        }
      } else {
        if open.Some? {
          blocks, open := blocks + [open.value], None;
        }
        if view == Table("package") {
          open := Some(Block([], [], []));
        }
      }
      index := index + 1;
    }
    r := LockResult(LockScan(blocks, open), package, count);
  }

  // ----- Which assignment the lock scan finds -----

  /** How many package headers there are before line `k`. */
  function HeaderCount(views: seq<View<Block>>, k: nat): nat
    requires k <= |views|
  {
    if k == 0 then 0 else HeaderCount(views, k - 1) + if views[k - 1] == Table("package") then 1 else 0
  }

  lemma {:induction false} HeadersAreNumbered(views: seq<View<Block>>, t: nat, k: nat)
    requires t < k <= |views| && HeaderAt(views, t)
    ensures HeaderCount(views, t) < HeaderCount(views, k)
  {
    if t < k - 1 {
      HeadersAreNumbered(views, t, k - 1);
    }
  }

  /** What the lines before `k` of the table with its header on line `t` hold. */
  ghost function Section(views: seq<View<Block>>, t: nat, k: nat): Block
    requires k <= |views|
  {
    if k <= t + 1 then Block([], [], [])
    else
      var before := Section(views, t, k - 1);
      if views[k - 1].Entry? && TableOf(views, t, k - 1) then Joint(before, views[k - 1].found) else before
  }

  /** After `k` lines there is one block per header, and it is the section of that header. */
  ghost predicate BlocksAre(views: seq<View<Block>>, k: nat, st: LockScan)
    requires k <= |views|
  {
    var blocks := Finish(st).blocks;
    && |blocks| == HeaderCount(views, k)
    && (st.open.Some? <==> InTable(views, k))
    && (forall t: nat :: TableOf(views, t, k) ==> HeaderCount(views, t) == |blocks| - 1)
    && forall t: nat {:trigger HeaderAt(views, t)} :: t < k && HeaderAt(views, t) ==>
         HeaderCount(views, t) < |blocks| && blocks[HeaderCount(views, t)] == Section(views, t, k)
  }

  lemma {:induction false} BlocksExactly(views: seq<View<Block>>, k: nat)
    requires k <= |views|
    ensures BlocksAre(views, k, LockFold(views, k))
  {
    if k > 0 {
      BlocksExactly(views, k - 1);
      var st, v := LockFold(views, k - 1), views[k - 1];
      if v == Table("package") {
        BlockOpens(views, k, st);
      } else if v.Entry? {
        BlockGrows(views, k, st);
      } else {
        BlockEnds(views, k, st);
      }
    }
  }

  lemma BlockOpens(views: seq<View<Block>>, k: nat, st: LockScan)
    requires 0 < k <= |views| && BlocksAre(views, k - 1, st) && views[k - 1] == Table("package")
    ensures BlocksAre(views, k, LockStep(st, views[k - 1]))
  {
    assert TableOf(views, k - 1, k);
    assert forall t: nat :: TableOf(views, t, k) ==> t == k - 1;
  }

  lemma BlockEnds(views: seq<View<Block>>, k: nat, st: LockScan)
    requires 0 < k <= |views| && BlocksAre(views, k - 1, st)
    requires !views[k - 1].Entry? && views[k - 1] != Table("package")
    ensures BlocksAre(views, k, LockStep(st, views[k - 1]))
  {
    assert forall t: nat :: !TableOf(views, t, k);
  }

  lemma BlockGrows(views: seq<View<Block>>, k: nat, st: LockScan)
    requires 0 < k <= |views| && BlocksAre(views, k - 1, st) && views[k - 1].Entry?
    ensures BlocksAre(views, k, LockStep(st, views[k - 1]))
  {
    assert forall t: nat :: TableOf(views, t, k) <==> TableOf(views, t, k - 1);
    if InTable(views, k - 1) {
      var t: nat :| TableOf(views, t, k - 1);
      assert TableOf(views, t, k);
    }
    var st' := LockStep(st, views[k - 1]);
    forall t: nat | t < k && HeaderAt(views, t)
      ensures HeaderCount(views, t) < |Finish(st').blocks|
      ensures Finish(st').blocks[HeaderCount(views, t)] == Section(views, t, k)
    {
      assert t < k - 1;
      if st.open.Some? {
        var u: nat :| TableOf(views, u, k - 1);
        if t < u {
          HeadersAreNumbered(views, t, u);
        }
      }
    }
  }

  /** Line `i` is in the table with its header on line `t`, and assigns this field. */
  ghost predicate FieldAt(views: seq<View<Block>>, t: nat, field: Field, i: nat) {
    i < |views| && TableOf(views, t, i) && views[i].Entry? && Pick(views[i].found, field) != []
  }

  /** How often the lines before `k` assign a field, never, once or more; and where first. */
  ghost predicate FieldsAre(views: seq<View<Block>>, t: nat, field: Field, k: nat, found: seq<Assignment>) {
    && (found == [] <==> forall i: nat :: i < k ==> !FieldAt(views, t, field, i))
    && (|found| >= 2 <==>
        exists i: nat, j: nat :: i < j < k && FieldAt(views, t, field, i) && FieldAt(views, t, field, j))
    && (found != [] ==>
          exists i: nat :: i < k && FieldAt(views, t, field, i) && found[0] == Pick(views[i].found, field)[0])
  }

  lemma FieldsNext(
      views: seq<View<Block>>, t: nat, field: Field, k: nat, found: seq<Assignment>, found': seq<Assignment>)
    requires k < |views| && FieldsAre(views, t, field, k, found)
    requires views[k].Entry? ==> |Pick(views[k].found, field)| <= 1
    requires found' == found + if FieldAt(views, t, field, k) then Pick(views[k].found, field) else []
    ensures FieldsAre(views, t, field, k + 1, found')
  {
    if found != [] {
      var i: nat :| i < k && FieldAt(views, t, field, i) && found[0] == Pick(views[i].found, field)[0];
      assert found'[0] == found[0];
    }
  }

  lemma SectionNext(views: seq<View<Block>>, t: nat, field: Field, k: nat)
    requires k < |views| && (views[k].Entry? ==> |Pick(views[k].found, field)| <= 1)
    ensures Pick(Section(views, t, k + 1), field) ==
            Pick(Section(views, t, k), field) + if FieldAt(views, t, field, k) then Pick(views[k].found, field) else []
  {
  }

  lemma FieldsOf(views: seq<View<Block>>, t: nat, field: Field)
    ensures FieldsAre(views, t, field, 0, [])
  {
  }

  lemma {:induction false} SectionExactly(
      views: seq<View<Block>>, t: nat, field: Field, k: nat, found: seq<Assignment>)
    requires k <= |views| && Thin(views) && found == Pick(Section(views, t, k), field)
    ensures FieldsAre(views, t, field, k, found)
  {
    if k == 0 {
      FieldsOf(views, t, field);
    } else {
      var before := Pick(Section(views, t, k - 1), field);
      SectionExactly(views, t, field, k - 1, before);
      ThinAt(views, k - 1, field);
      SectionNext(views, t, field, k - 1);
      FieldsNext(views, t, field, k - 1, before, found);
    }
  }

  ghost predicate Thin(views: seq<View<Block>>) {
    forall i, field :: 0 <= i < |views| && views[i].Entry? ==> |Pick(views[i].found, field)| <= 1
  }

  lemma ThinAt(views: seq<View<Block>>, i: nat, field: Field)
    requires Thin(views) && i < |views|
    ensures views[i].Entry? ==> |Pick(views[i].found, field)| <= 1
  {
  }

  /** Line `i` is the only one of the table that assigns the field. */
  ghost predicate OnlyField(views: seq<View<Block>>, t: nat, field: Field, i: nat) {
    FieldAt(views, t, field, i) && forall j: nat :: FieldAt(views, t, field, j) ==> j == i
  }

  lemma OneInSection(views: seq<View<Block>>, t: nat, field: Field)
    requires Thin(views)
    ensures var found := Pick(Section(views, t, |views|), field);
            && (|found| == 1 <==> exists i: nat :: OnlyField(views, t, field, i))
            && forall i: nat :: OnlyField(views, t, field, i) ==>
                 |found| == 1 && found[0] == Pick(views[i].found, field)[0]
  {
    var found := Pick(Section(views, t, |views|), field);
    SectionExactly(views, t, field, |views|, found);
    if |found| == 1 {
      var i: nat :| i < |views| && FieldAt(views, t, field, i) && found[0] == Pick(views[i].found, field)[0];
      assert OnlyField(views, t, field, i);
    }
  }

  /** The package with this number has its header on line `t`, the right name on `n`, and its version on `i`. */
  ghost predicate OnlyVersion(views: seq<View<Block>>, package: nat, count: nat, t: nat, n: nat, i: nat) {
    && HeaderCount(views, |views|) == count && HeaderAt(views, t) && HeaderCount(views, t) == package
    && OnlyField(views, t, Name, n) && Pick(views[n].found, Name)[0].value == "cirrusync"
    && OnlyField(views, t, VersionField, i)
  }

  /**
   * The lock scan finds a version only when there are as many package headers as packages, and the
   * table of the one asked for has one name, "cirrusync", and one version; and it finds the
   * assignment on the line of that version.
   */
  lemma LockFinds(contents: string, package: nat, count: nat) returns (t: nat, n: nat, i: nat)
    requires LockLookup(contents, package, count).Ok?
    ensures OnlyVersion(LockViews(Lines(contents)), package, count, t, n, i)
    ensures MatchAssignment(Lines(contents)[i], "version", i) == Some(LockLookup(contents, package, count).value)
  {
    ThinLockViews(Lines(contents));
    t, n, i := FoundVersion(LockViews(Lines(contents)), package, count);
    LockIsFound(contents, package, count, t, n, i);
  }

  /** And always then. */
  lemma LockIsFound(contents: string, package: nat, count: nat, t: nat, n: nat, i: nat)
    requires OnlyVersion(LockViews(Lines(contents)), package, count, t, n, i)
    ensures LockLookup(contents, package, count).Ok?
    ensures MatchAssignment(Lines(contents)[i], "version", i) == Some(LockLookup(contents, package, count).value)
  {
    ThinLockViews(Lines(contents));
    VersionIsFound(LockViews(Lines(contents)), package, count, t, n, i);
  }

  lemma ThinLockViews(lines: seq<string>)
    ensures Thin(LockViews(lines))
    ensures forall i :: 0 <= i < |lines| && LockViews(lines)[i].Entry? && LockViews(lines)[i].found.versions != [] ==>
              MatchAssignment(lines[i], "version", i) == Some(LockViews(lines)[i].found.versions[0])
  {
  }

  lemma FoundVersion(views: seq<View<Block>>, package: nat, count: nat) returns (t: nat, n: nat, i: nat)
    requires Thin(views) && LockResult(LockFold(views, |views|), package, count).Ok?
    ensures OnlyVersion(views, package, count, t, n, i)
  {
    BlocksExactly(views, |views|);
    t := HeaderOf(views, |views|, package);
    OneInSection(views, t, Name);
    OneInSection(views, t, VersionField);
    n :| OnlyField(views, t, Name, n);
    i :| OnlyField(views, t, VersionField, i);
  }

  lemma VersionIsFound(views: seq<View<Block>>, package: nat, count: nat, t: nat, n: nat, i: nat)
    requires Thin(views) && OnlyVersion(views, package, count, t, n, i)
    ensures LockResult(LockFold(views, |views|), package, count) == Ok(views[i].found.versions[0])
  {
    BlocksExactly(views, |views|);
    HeadersAreNumbered(views, t, |views|);
    OneInSection(views, t, Name);
    OneInSection(views, t, VersionField);
  }

  /** The line of the header with this number. */
  lemma {:induction false} HeaderOf(views: seq<View<Block>>, k: nat, package: nat) returns (t: nat)
    requires k <= |views| && package < HeaderCount(views, k)
    ensures t < k && HeaderAt(views, t) && HeaderCount(views, t) == package
  {
    if package < HeaderCount(views, k - 1) {
      t := HeaderOf(views, k - 1, package);
    } else {
      t := k - 1;
    }
  }

  // ----- What a scan reports was read from the line it names -----

  lemma {:induction false} ManifestFoldReads(views: seq<View<seq<Assignment>>>, k: nat, x: Assignment)
    requires k <= |views| && x in ManifestFold(views, k).matches
    ensures exists i :: 0 <= i < k && views[i].Entry? && x in views[i].found
  {
    if x in ManifestFold(views, k - 1).matches {
      ManifestFoldReads(views, k - 1, x);
    } else {
      assert views[k - 1].Entry? && x in views[k - 1].found;
    }
  }

  datatype Field = Name | VersionField

  function Pick(b: Block, field: Field): seq<Assignment> {
    if field.Name? then b.names else b.versions
  }

  ghost predicate Holds(st: LockScan, field: Field, x: Assignment) {
    || (exists b :: b in st.blocks && x in Pick(b, field))
    || (st.open.Some? && x in Pick(st.open.value, field))
  }

  lemma {:induction false} LockFoldReads(views: seq<View<Block>>, k: nat, field: Field, x: Assignment)
    requires k <= |views| && Holds(LockFold(views, k), field, x)
    ensures exists i :: 0 <= i < k && views[i].Entry? && x in Pick(views[i].found, field)
  {
    if Holds(LockFold(views, k - 1), field, x) {
      LockFoldReads(views, k - 1, field, x);
    } else {
      assert views[k - 1].Entry? && x in Pick(views[k - 1].found, field);
    }
  }

  lemma FinishedBlockReads(views: seq<View<Block>>, b: Block, field: Field, x: Assignment) returns (i: nat)
    requires b in Finish(LockFold(views, |views|)).blocks && x in Pick(b, field)
    ensures i < |views| && views[i].Entry? && x in Pick(views[i].found, field)
  {
    assert Holds(LockFold(views, |views|), field, x);
    LockFoldReads(views, |views|, field, x);
    i :| 0 <= i < |views| && views[i].Entry? && x in Pick(views[i].found, field);
  }

  /** The assignment was read from its line of the text. */
  predicate ReadFrom(lines: seq<string>, a: Assignment, key: string) {
    a.line < |lines| && MatchAssignment(lines[a.line], key, a.line) == Some(a)
  }

  lemma ManifestLookupReads(contents: string, key: string)
    requires ManifestLookup(contents, key).Ok?
    ensures ReadFrom(Lines(contents), ManifestLookup(contents, key).value, key)
  {
    var views, a := ManifestViews(Lines(contents), key), ManifestLookup(contents, key).value;
    ManifestFoldReads(views, |views|, a);
  }

  lemma LockLookupReads(contents: string, package: nat, count: nat)
    requires LockLookup(contents, package, count).Ok?
    ensures ReadFrom(Lines(contents), LockLookup(contents, package, count).value, "version")
  {
    var views, a := LockViews(Lines(contents)), LockLookup(contents, package, count).value;
    var i := FinishedBlockReads(views, Finish(LockFold(views, |views|)).blocks[package], VersionField, a);
  }

  // ----- Replacement -----

  /** The text with the assignment's line rewritten to hold `value`. */
  function Replace(contents: string, a: Assignment, value: string): string
    requires a.line < |Lines(contents)|
  {
    Concat(Lines(contents)[a.line := WithValue(a, value)])
  }

  /** The same assignments, with the one on line `line` holding `value`. */
  function Renamed(found: seq<Assignment>, line: nat, value: string): (r: seq<Assignment>)
    ensures |r| == |found|
    ensures forall i :: 0 <= i < |found| ==>
              r[i] == if found[i].line == line then found[i].(value := value) else found[i]
  {
    seq(|found|, i requires 0 <= i < |found| => if found[i].line == line then found[i].(value := value) else found[i])
  }

  lemma RenamedJoin(x: seq<Assignment>, y: seq<Assignment>, line: nat, value: string)
    ensures Renamed(x + y, line, value) == Renamed(x, line, value) + Renamed(y, line, value)
  {
  }

  predicate ManifestRewritten(
    views: seq<View<seq<Assignment>>>, changed: seq<View<seq<Assignment>>>, line: nat, w: string)
  {
    && |views| == |changed|
    && forall i {:trigger views[i]} {:trigger changed[i]} :: 0 <= i < |views| ==>
         changed[i] == if views[i].Entry? then Entry(Renamed(views[i].found, line, w)) else views[i]
  }

  lemma {:induction false} ManifestFoldRenamed(
      views: seq<View<seq<Assignment>>>, changed: seq<View<seq<Assignment>>>, line: nat, w: string, k: nat)
    requires ManifestRewritten(views, changed, line, w) && k <= |views|
    ensures var before := ManifestFold(views, k);
            ManifestFold(changed, k) == before.(matches := Renamed(before.matches, line, w))
  {
    if k > 0 {
      ManifestFoldRenamed(views, changed, line, w, k - 1);
      if views[k - 1].Entry? {
        RenamedJoin(ManifestFold(views, k - 1).matches, views[k - 1].found, line, w);
      }
    }
  }

  function RenamedBlock(b: Block, line: nat, value: string): Block {
    Block(Renamed(b.names, line, value), Renamed(b.versions, line, value), Renamed(b.sources, line, value))
  }

  function RenamedBlocks(blocks: seq<Block>, line: nat, value: string): (r: seq<Block>)
    ensures |r| == |blocks| && forall i :: 0 <= i < |blocks| ==> r[i] == RenamedBlock(blocks[i], line, value)
  {
    seq(|blocks|, i requires 0 <= i < |blocks| => RenamedBlock(blocks[i], line, value))
  }

  function RenamedScan(st: LockScan, line: nat, value: string): LockScan {
    LockScan(
      RenamedBlocks(st.blocks, line, value),
      if st.open.Some? then Some(RenamedBlock(st.open.value, line, value)) else None)
  }

  lemma FinishRenamed(st: LockScan, line: nat, value: string)
    ensures Finish(RenamedScan(st, line, value)) == RenamedScan(Finish(st), line, value)
  {
    if st.open.Some? {
      assert RenamedBlocks(st.blocks + [st.open.value], line, value)
          == RenamedBlocks(st.blocks, line, value) + [RenamedBlock(st.open.value, line, value)];
    }
  }

  lemma JointRenamed(b: Block, c: Block, line: nat, w: string)
    ensures Joint(RenamedBlock(b, line, w), RenamedBlock(c, line, w)) == RenamedBlock(Joint(b, c), line, w)
  {
    RenamedJoin(b.names, c.names, line, w);
    RenamedJoin(b.versions, c.versions, line, w);
    RenamedJoin(b.sources, c.sources, line, w);
  }

  predicate LockRewritten(views: seq<View<Block>>, changed: seq<View<Block>>, line: nat, w: string) {
    && |views| == |changed|
    && forall i {:trigger views[i]} {:trigger changed[i]} :: 0 <= i < |views| ==>
         changed[i] == if views[i].Entry? then Entry(RenamedBlock(views[i].found, line, w)) else views[i]
  }

  lemma {:induction false} LockFoldRenamed(
      views: seq<View<Block>>, changed: seq<View<Block>>, line: nat, w: string, k: nat)
    requires LockRewritten(views, changed, line, w) && k <= |views|
    ensures LockFold(changed, k) == RenamedScan(LockFold(views, k), line, w)
  {
    if k > 0 {
      LockFoldRenamed(views, changed, line, w, k - 1);
      var st := LockFold(views, k - 1);
      FinishRenamed(st, line, w);
      if views[k - 1].Entry? && st.open.Some? {
        JointRenamed(st.open.value, views[k - 1].found, line, w);
      }
    }
  }

  /** The rewritten line reads as before, apart from the value of its own key. */
  lemma RewrittenLine(lines: seq<string>, a: Assignment, key: string, other: string, w: string)
    requires WellSplit(lines) && ReadFrom(lines, a, key) && Clean(w) && IsKey(key) && IsKey(other)
    ensures var body, body' := Body(lines[a.line]), Body(WithValue(a, w));
            && TableName(body, "[", "]").None? && TableName(body', "[", "]").None?
            && TableName(body, "[[", "]]").None? && TableName(body', "[[", "]]").None?
            && !OpensBracket(body) && !OpensBracket(body')
    ensures MatchAssignment(WithValue(a, w), key, a.line) == Some(a.(value := w))
    ensures key[0] != other[0] ==>
              && MatchAssignment(lines[a.line], other, a.line).None?
              && MatchAssignment(WithValue(a, w), other, a.line).None?
  {
    LineLens(lines[a.line], key, a.line, w);
    AssignmentIsNothingElse(Body(lines[a.line]), key, other);
    AssignmentIsNothingElse(Body(WithValue(a, w)), key, other);
  }

  lemma RewrittenManifestLine(lines: seq<string>, a: Assignment, key: string, w: string)
    requires WellSplit(lines) && ReadFrom(lines, a, key) && Clean(w) && IsKey(key)
    ensures ManifestView(lines[a.line], key, a.line) == Entry([a])
    ensures ManifestView(WithValue(a, w), key, a.line) == Entry([a.(value := w)])
  {
    RewrittenLine(lines, a, key, key, w);
  }

  lemma RewrittenLockLine(lines: seq<string>, a: Assignment, w: string)
    requires WellSplit(lines) && ReadFrom(lines, a, "version") && Clean(w)
    ensures LockView(lines[a.line], a.line) == Entry(Block([], [a], []))
    ensures LockView(WithValue(a, w), a.line) == Entry(Block([], [a.(value := w)], []))
  {
    RewrittenLine(lines, a, "version", "name", w);
    RewrittenLine(lines, a, "version", "source", w);
  }

  /** After the rewrite, the text splits into the same lines but for the rewritten one. */
  lemma ReplacedLines(contents: string, a: Assignment, key: string, w: string)
    requires ReadFrom(Lines(contents), a, key) && Clean(w)
    ensures Lines(Replace(contents, a, w)) == Lines(contents)[a.line := WithValue(a, w)]
    ensures WellSplit(Lines(contents))
  {
    var lines := Lines(contents);
    LinesAreWellSplit(contents);
    LineLens(lines[a.line], key, a.line, w);
    ReplaceLine(lines, a.line, WithValue(a, w));
    LinesOfConcat(lines[a.line := WithValue(a, w)]);
  }

  // ----- Lens laws -----

  /**
   * Put, then get: after a replacement, scanning the manifest again finds the same line with the
   * new value, exactly when the new value has no quote, backslash or line break in it.
   */
  lemma ManifestPutGet(contents: string, key: string, w: string)
    requires ManifestLookup(contents, key).Ok? && IsKey(key)
    ensures var a := ManifestLookup(contents, key).value;
            && a.line < |Lines(contents)|
            && (ManifestLookup(Replace(contents, a, w), key) == Ok(a.(value := w)) <==> Clean(w))
  {
    var a := ManifestLookup(contents, key).value;
    ManifestLookupReads(contents, key);
    var after := Replace(contents, a, w);
    if Clean(w) {
      ReplacedLines(contents, a, key, w);
      ManifestRescan(Lines(contents), a, key, w);
    } else if ManifestLookup(after, key) == Ok(a.(value := w)) {
      ManifestLookupReads(after, key);
      ReadValuesAreClean(after, a.(value := w), key);
    }
  }

  lemma ReadValuesAreClean(contents: string, a: Assignment, key: string)
    requires ReadFrom(Lines(contents), a, key)
    ensures Clean(a.value)
  {
    LinesAreWellSplit(contents);
    LineLens(Lines(contents)[a.line], key, a.line, "");
  }

  lemma ManifestViewsRewritten(lines: seq<string>, a: Assignment, key: string, w: string)
    requires WellSplit(lines) && ReadFrom(lines, a, key) && Clean(w) && IsKey(key)
    ensures ManifestRewritten(
              ManifestViews(lines, key), ManifestViews(lines[a.line := WithValue(a, w)], key), a.line, w)
  {
    var views, changed := ManifestViews(lines, key), ManifestViews(lines[a.line := WithValue(a, w)], key);
    RewrittenManifestLine(lines, a, key, w);
    forall i | 0 <= i < |views|
      ensures changed[i] == if views[i].Entry? then Entry(Renamed(views[i].found, a.line, w)) else views[i]
    {
      if i == a.line {
        RenamedHere(a, w);
      } else if views[i].Entry? {
        RenamedElsewhere(views[i].found, i, a.line, w);
      }
    }
  }

  lemma RenamedHere(a: Assignment, w: string)
    ensures Renamed([a], a.line, w) == [a.(value := w)] && Renamed([], a.line, w) == []
  {
  }

  lemma RenamedElsewhere(found: seq<Assignment>, index: nat, line: nat, w: string)
    requires index != line && forall a <- found :: a.line == index
    ensures Renamed(found, line, w) == found
  {
  }

  lemma ManifestRescan(lines: seq<string>, a: Assignment, key: string, w: string)
    requires WellSplit(lines) && ReadFrom(lines, a, key) && Clean(w) && IsKey(key)
    requires ManifestResult(ManifestFold(ManifestViews(lines, key), |lines|)) == Ok(a)
    ensures ManifestResult(ManifestFold(ManifestViews(lines[a.line := WithValue(a, w)], key), |lines|))
         == Ok(a.(value := w))
  {
    ManifestViewsRewritten(lines, a, key, w);
    ManifestFoldRenamed(
      ManifestViews(lines, key), ManifestViews(lines[a.line := WithValue(a, w)], key), a.line, w, |lines|);
  }

  /** The same law for the version of one package of the lock file. */
  lemma LockPutGet(contents: string, package: nat, count: nat, w: string)
    requires LockLookup(contents, package, count).Ok?
    ensures var a := LockLookup(contents, package, count).value;
            && a.line < |Lines(contents)|
            && (LockLookup(Replace(contents, a, w), package, count) == Ok(a.(value := w)) <==> Clean(w))
  {
    var a := LockLookup(contents, package, count).value;
    LockLookupReads(contents, package, count);
    var after := Replace(contents, a, w);
    if Clean(w) {
      ReplacedLines(contents, a, "version", w);
      LockRescan(Lines(contents), a, w, package, count);
    } else if LockLookup(after, package, count) == Ok(a.(value := w)) {
      LockLookupReads(after, package, count);
      ReadValuesAreClean(after, a.(value := w), "version");
    }
  }

  lemma LockViewsRewritten(lines: seq<string>, a: Assignment, w: string)
    requires WellSplit(lines) && ReadFrom(lines, a, "version") && Clean(w)
    ensures LockRewritten(LockViews(lines), LockViews(lines[a.line := WithValue(a, w)]), a.line, w)
    ensures LockViews(lines)[a.line] == Entry(Block([], [a], []))
  {
    var views, changed := LockViews(lines), LockViews(lines[a.line := WithValue(a, w)]);
    RewrittenLockLine(lines, a, w);
    forall i | 0 <= i < |views|
      ensures changed[i] == if views[i].Entry? then Entry(RenamedBlock(views[i].found, a.line, w)) else views[i]
    {
      if i == a.line {
        RenamedHere(a, w);
      } else if views[i].Entry? {
        var b := views[i].found;
        RenamedElsewhere(b.names, i, a.line, w);
        RenamedElsewhere(b.versions, i, a.line, w);
        RenamedElsewhere(b.sources, i, a.line, w);
      }
    }
  }

  lemma LockRescan(lines: seq<string>, a: Assignment, w: string, package: nat, count: nat)
    requires WellSplit(lines) && ReadFrom(lines, a, "version") && Clean(w)
    requires LockResult(LockFold(LockViews(lines), |lines|), package, count) == Ok(a)
    ensures LockResult(LockFold(LockViews(lines[a.line := WithValue(a, w)]), |lines|), package, count)
         == Ok(a.(value := w))
  {
    var views := LockViews(lines);
    LockViewsRewritten(lines, a, w);
    LockFoldRenamed(views, LockViews(lines[a.line := WithValue(a, w)]), a.line, w, |lines|);
    var st := LockFold(views, |lines|);
    FinishRenamed(st, a.line, w);
    var b := Finish(st).blocks[package];
    var i := FinishedBlockReads(views, b, Name, b.names[0]);
    assert AtLine(views[i].found, i);
  }

  /** Get, then put: writing back the value that was found changes nothing. */
  lemma GetPut(contents: string, a: Assignment, key: string)
    requires ReadFrom(Lines(contents), a, key)
    ensures Replace(contents, a, a.value) == contents
  {
    LinesAreWellSplit(contents);
    LineLens(Lines(contents)[a.line], key, a.line, "");
    assert Lines(contents)[a.line := WithValue(a, a.value)] == Lines(contents);
    ConcatOfLines(contents);
  }

  /** The second of two replacements wins; in particular, replacing back restores the text. */
  lemma PutPut(contents: string, a: Assignment, key: string, w: string, z: string)
    requires ReadFrom(Lines(contents), a, key) && Clean(w)
    ensures a.line < |Lines(Replace(contents, a, w))|
    ensures Replace(Replace(contents, a, w), a.(value := w), z) == Replace(contents, a, z)
    ensures Replace(Replace(contents, a, w), a.(value := w), a.value) == contents
  {
    ReplacedLines(contents, a, key, w);
    var lines := Lines(contents);
    assert lines[a.line := WithValue(a, w)][a.line := WithValue(a, z)] == lines[a.line := WithValue(a, z)];
    assert lines[a.line := WithValue(a, w)][a.line := WithValue(a, a.value)] == lines[a.line := WithValue(a, a.value)];
    GetPut(contents, a, key);
  }

  /** A replacement touches the characters of the value and no other. */
  lemma OnlyTheValueChanges(contents: string, a: Assignment, key: string, w: string)
    returns (before: string, after: string)
    requires ReadFrom(Lines(contents), a, key)
    ensures contents == before + a.value + after
    ensures Replace(contents, a, w) == before + w + after
  {
    var lines := Lines(contents);
    var above, below := Concat(lines[..a.line]), Concat(lines[a.line + 1..]);
    before, after := above + a.prefix, a.suffix + a.newline + below;
    GetPut(contents, a, key);
    ConcatReplaced(lines, a.line, WithValue(a, a.value));
    ConcatReplaced(lines, a.line, WithValue(a, w));
    Regrouped(above, a.prefix, a.value, a.suffix, a.newline, below);
    Regrouped(above, a.prefix, w, a.suffix, a.newline, below);
  }

  lemma Regrouped(above: string, prefix: string, value: string, suffix: string, newline: string, below: string)
    ensures above + (prefix + value + suffix + newline) + below
         == (above + prefix) + value + (suffix + newline + below)
  {
  }

  // ----- Bumping both files -----

  /** The parsed files: where the package is in a lock file, and every other check on their contents. */
  datatype Toml = Toml(layout: string -> Option<(nat, nat)>, accepts: (string, string) -> bool)

  function LockVersion(toml: Toml, lock: string): Result<Assignment, ScanError> {
    match toml.layout(lock)
    case None => Err(WrongPackage)
    case Some((package, count)) => LockLookup(lock, package, count)
  }

  /** The version on which both files agree. */
  function ValidatedVersion(toml: Toml, manifest: string, lock: string): Option<Version> {
    var m, l := ManifestLookup(manifest, "version"), LockVersion(toml, lock);
    if toml.accepts(manifest, lock) && m.Ok? && l.Ok? && Parse(m.value.value) == Parse(l.value.value)
    then Parse(m.value.value)
    else None
  }

  lemma {:induction false} DecimalIsClean(n: nat)
    ensures Clean(Decimal(n))
  {
    assert forall c :: IsDigit(c) ==> ValueChar(c) && !IsBreak(c);
  }

  lemma PrintIsClean(v: Version)
    ensures Clean(Print(v))
  {
    DecimalIsClean(v.major);
    DecimalIsClean(v.minor);
    DecimalIsClean(v.patch);
  }

  /** A version validates exactly when the parser accepts the files and both hold its text. */
  lemma ValidatedExactly(toml: Toml, manifest: string, lock: string, v: Version)
    ensures ValidatedVersion(toml, manifest, lock) == Some(v) <==>
            && toml.accepts(manifest, lock) && InRange(v)
            && ManifestLookup(manifest, "version").Ok? && ManifestLookup(manifest, "version").value.value == Print(v)
            && LockVersion(toml, lock).Ok? && LockVersion(toml, lock).value.value == Print(v)
  {
    ParseOfPrint(v);
    var m, l := ManifestLookup(manifest, "version"), LockVersion(toml, lock);
    if m.Ok? && Parse(m.value.value).Some? {
      PrintOfParse(m.value.value);
    }
    if l.Ok? && Parse(l.value.value).Some? {
      PrintOfParse(l.value.value);
    }
  }

  /** The two texts that a bump to `v` writes. */
  function BumpedManifest(manifest: string, v: Version): string
    requires ManifestLookup(manifest, "version").Ok?
  {
    ManifestLookupReads(manifest, "version");
    Replace(manifest, ManifestLookup(manifest, "version").value, Print(v))
  }

  function BumpedLock(toml: Toml, lock: string, v: Version): string
    requires LockVersion(toml, lock).Ok?
  {
    LockLookupReads(lock, toml.layout(lock).value.0, toml.layout(lock).value.1);
    Replace(lock, LockVersion(toml, lock).value, Print(v))
  }

  /**
   * When the parser sees the package where it was and has no other objection, the updated pair
   * validates, with the new version.
   */
  lemma BumpRevalidates(toml: Toml, manifest: string, lock: string, v: Version)
    requires ValidatedVersion(toml, manifest, lock).Some? && InRange(v)
    requires toml.layout(BumpedLock(toml, lock, v)) == toml.layout(lock)
    requires toml.accepts(BumpedManifest(manifest, v), BumpedLock(toml, lock, v))
    ensures ValidatedVersion(toml, BumpedManifest(manifest, v), BumpedLock(toml, lock, v)) == Some(v)
  {
    var (package, count) := toml.layout(lock).value;
    PrintIsClean(v);
    ParseOfPrint(v);
    ManifestPutGet(manifest, "version", Print(v));
    LockPutGet(lock, package, count, Print(v));
  }

  datatype BumpResult =
    | Bumped(version: Version)
    | Refused
    | WriteFailed(manifestRestored: bool, lockRestored: bool)

  class VersionRepository {
    var manifest: string
    var lockfile: string

    /**
     * Replaces one file through a temporary. An error may come before the replacement or, when
     * the temporary is cleaned up, after it.
     */
    method AtomicWrite(toManifest: bool, contents: string) returns (ok: bool)
      modifies this
      ensures toManifest ==> lockfile == old(lockfile) && (manifest == contents || (!ok && manifest == old(manifest)))
      ensures !toManifest ==> manifest == old(manifest) && (lockfile == contents || (!ok && lockfile == old(lockfile)))
    {
      var replaced: bool := *;
      var cleaned: bool := *;
      ok := replaced && cleaned;
      if replaced && toManifest {
        manifest := contents;
      } else if replaced {
        lockfile := contents;
      }
    }

    /**
     * On success both files hold the new version. On refusal neither was touched. After a failed
     * write each file whose restoring write succeeded is the original, and the other is the
     * original or the new text, never anything else.
     */
    method Bump(toml: Toml, component: string) returns (r: BumpResult)
      modifies this
      ensures r.Refused? <==> Target(toml, old(manifest), old(lockfile), component).None?
      ensures r.Refused? ==> manifest == old(manifest) && lockfile == old(lockfile)
      ensures r.Bumped? ==>
                && Target(toml, old(manifest), old(lockfile), component) == Some(r.version)
                && (var was := ValidatedVersion(toml, old(manifest), old(lockfile)).value;
                    Versions.Bump(was, component) == Some(r.version) && Precedes(was, r.version))
                && ValidatedVersion(toml, manifest, lockfile) == Some(r.version)
                && manifest == BumpedManifest(old(manifest), r.version)
                && lockfile == BumpedLock(toml, old(lockfile), r.version)
      ensures r.WriteFailed? ==>
                var v := Target(toml, old(manifest), old(lockfile), component).value;
                && (manifest == old(manifest) || (!r.manifestRestored && manifest == BumpedManifest(old(manifest), v)))
                && (lockfile == old(lockfile) || (!r.lockRestored && lockfile == BumpedLock(toml, old(lockfile), v)))
    {
      var m, l := manifest, lockfile;
      var current := ValidatedVersion(toml, m, l);
      if current.None? {
        return Refused;
      }
      var next := Versions.Bump(current.value, component);
      if next.None? {
        return Refused;
      }
      var v := next.value;
      NextVersion(toml, m, l, component, v);
      var inManifest := ManifestPackageAssignment(m, "version");
      var inLock := LockVersionAssignment(l, toml.layout(l).value.0, toml.layout(l).value.1);
      var newManifest := Replace(m, inManifest.value, Print(v));
      var newLock := Replace(l, inLock.value, Print(v));
      if ValidatedVersion(toml, newManifest, newLock).None? {
        return Refused;
      }
      var ok := AtomicWrite(true, newManifest);
      if ok {
        ok := AtomicWrite(false, newLock);
      }
      if ok {
        return Bumped(v);
      }
      var first := AtomicWrite(true, m);
      var second := AtomicWrite(false, l);
      r := WriteFailed(first, second);
    }
  }

  /** The version to bump to, when the files validate before and after and the component can grow. */
  function Target(toml: Toml, manifest: string, lock: string, component: string): (r: Option<Version>)
    ensures r.Some? ==> ValidatedVersion(toml, manifest, lock).Some?
  {
    var current := ValidatedVersion(toml, manifest, lock);
    if current.None? then None
    else
      var next := Versions.Bump(current.value, component);
      if next.None? then None
      else
        var bumped := ValidatedVersion(toml, BumpedManifest(manifest, next.value), BumpedLock(toml, lock, next.value));
        if bumped.None? then None else next
  }

  /**
   * If the parser goes on seeing the package where it was and has no other objection, then a bump of
   * files that validate is refused only when their version cannot be bumped.
   */
  lemma TargetExactly(toml: Toml, manifest: string, lock: string, component: string)
    requires ValidatedVersion(toml, manifest, lock).Some?
    requires var next := Versions.Bump(ValidatedVersion(toml, manifest, lock).value, component);
             next.Some? ==>
               && toml.layout(BumpedLock(toml, lock, next.value)) == toml.layout(lock)
               && toml.accepts(BumpedManifest(manifest, next.value), BumpedLock(toml, lock, next.value))
    ensures Target(toml, manifest, lock, component) ==
            Versions.Bump(ValidatedVersion(toml, manifest, lock).value, component)
  {
    var current := ValidatedVersion(toml, manifest, lock).value;
    var next := Versions.Bump(current, component);
    if next.Some? {
      ValidatedExactly(toml, manifest, lock, current);
      BumpIsNext(current, component, current);
      BumpRevalidates(toml, manifest, lock, next.value);
    }
  }

  lemma NextVersion(toml: Toml, manifest: string, lock: string, component: string, v: Version)
    requires ValidatedVersion(toml, manifest, lock).Some?
    requires Versions.Bump(ValidatedVersion(toml, manifest, lock).value, component) == Some(v)
    ensures Precedes(ValidatedVersion(toml, manifest, lock).value, v)
    ensures ValidatedVersion(toml, BumpedManifest(manifest, v), BumpedLock(toml, lock, v)) in {None, Some(v)}
    ensures ManifestLookup(manifest, "version").value.line < |Lines(manifest)|
    ensures LockVersion(toml, lock).value.line < |Lines(lock)|
  {
    var current := ValidatedVersion(toml, manifest, lock).value;
    PrintOfParse(ManifestLookup(manifest, "version").value.value);
    BumpIsNext(current, component, current);
    PrintIsClean(v);
    ParseOfPrint(v);
    ManifestPutGet(manifest, "version", Print(v));
    LockLookupReads(lock, toml.layout(lock).value.0, toml.layout(lock).value.1);
  }
}
