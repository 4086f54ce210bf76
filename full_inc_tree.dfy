/**
  The hierarchical pipeline of python_tools/gen_full_inc_tree.py: rewriting a
  compile command so that the compiler prints its `-H` include trace,
  parsing that trace into (depth, identifier) entries, and rebuilding the
  include tree from the depths with an ancestor stack.
 */
module FullIncTree {
  import opened Options
  import opened PyStr
  import opened Graphs

  // ---------------------------------------------------------------------
  // modify_command and read_response_file
  // ---------------------------------------------------------------------

  /** `s[1:]` in Python: everything after the first character, or "". */
  function DropFirst(s: string): (r: string)
    ensures s != [] ==> r == s[1..]
    ensures s == [] ==> r == []
  {
    if s == [] then [] else s[1..]
  }

  /** read_response_file: the content of the response file that the token
      `part` names (the token without its `@`, joined to `buildDir`), with
      every newline turned into a space. `readFile` stands for opening the
      path and reading it whole. */
  function ReadResponseFile(part: string, buildDir: string, readFile: string -> string): (r: string)
    ensures var c := readFile(PathJoin(buildDir, DropFirst(part)));
      |r| == |c| && '\n' !in r &&
      forall i :: 0 <= i < |c| ==> r[i] == if c[i] == '\n' then ' ' else c[i]
  {
    var c := readFile(PathJoin(buildDir, DropFirst(part)));
    ReplaceCharAt(c, '\n', ' ');
    ReplaceRemoves(c, '\n', ' ');
    ReplaceChar(c, '\n', ' ')
  }

  /** A token after substitution: an `@file` token becomes the file's content. */
  function Substitute(part: string, buildDir: string, readFile: string -> string): string {
    if StartsWith(part, "@") then ReadResponseFile(part, buildDir, readFile) else part
  }

  /** The list `modified_parts` that the loop of modify_command builds. */
  function SubstituteAll(parts: seq<string>, buildDir: string, readFile: string -> string): (r: seq<string>)
    ensures |r| == |parts|
    ensures forall i :: 0 <= i < |parts| ==> r[i] == Substitute(parts[i], buildDir, readFile)
  {
    if parts == [] then []
    else
      SubstituteAll(parts[..|parts| - 1], buildDir, readFile) + [Substitute(parts[|parts| - 1], buildDir, readFile)]
  }

  /** The insertion of "-H" at (index of the first "-o") - 1, with Python's
      `list.insert` semantics; lists without "-o" are left alone. */
  function WithHeaderFlag(parts: seq<string>): seq<string> {
    if "-o" in parts then Insert(parts, IndexOf(parts, "-o") - 1, "-H") else parts
  }

  /** The command line modify_command returns. */
  function ModifiedCommand(command: string, buildDir: string, readFile: string -> string): string {
    Join(WithHeaderFlag(SubstituteAll(Words(command), buildDir, readFile)))
  }

  /** Where "-H" lands. With the first "-o" at position `o > 0`, "-H" goes in
      front of the token just before "-o"; with "-o" first, index -1 makes
      `list.insert` put "-H" in front of the last token. Exactly one "-H" is
      added and nothing else changes. */
  lemma HeaderFlagPlacement(parts: seq<string>, o: nat)
    requires o < |parts| && parts[o] == "-o" && "-o" !in parts[..o]
    ensures var r := WithHeaderFlag(parts);
      (o > 0 ==> r == parts[..o - 1] + ["-H"] + parts[o - 1..]) &&
      (o == 0 ==> r == parts[..|parts| - 1] + ["-H"] + parts[|parts| - 1..]) &&
      multiset(r) == multiset(parts) + multiset{"-H"}
  {
    assert IndexOf(parts, "-o") == o;
    var p := if o > 0 then o - 1 else |parts| - 1;
    assert InsertSlot(|parts|, o - 1) == p;
    assert WithHeaderFlag(parts) == Insert(parts, o - 1, "-H") == parts[..p] + ["-H"] + parts[p..];
    InsertMultiset(parts, o - 1, "-H");
  }

  /** A command with no `@file` token and no "-o" keeps its token list. */
  lemma PlainCommandKeepsTokens(command: string, buildDir: string, readFile: string -> string)
    requires forall w :: w in Words(command) ==> !StartsWith(w, "@") && w != "-o"
    ensures Words(ModifiedCommand(command, buildDir, readFile)) == Words(command)
  {
    var ws := Words(command);
    var s := SubstituteAll(ws, buildDir, readFile);
    assert s == ws;
    WordsOfJoin(ws);
  }

  /** modify_command (lines 19-35). */
  method ModifyCommand(command: string, buildDir: string, readFile: string -> string) returns (r: string)
    ensures r == ModifiedCommand(command, buildDir, readFile)
    ensures var s := SubstituteAll(Words(command), buildDir, readFile);
      "-o" !in s ==> r == Join(s)
  {
    var parts := Words(command);
    var modifiedParts: seq<string> := [];
    for i := 0 to |parts|
      invariant modifiedParts == SubstituteAll(parts[..i], buildDir, readFile)
    {
      var part := parts[i];
      assert parts[..i + 1][..i] == parts[..i];
      if StartsWith(part, "@") {
        var rspContents := ReadResponseFile(part, buildDir, readFile);
        modifiedParts := modifiedParts + [rspContents];
      } else {
        modifiedParts := modifiedParts + [part];
      }
    }
    assert parts[..|parts|] == parts;
    if "-o" in modifiedParts {
      var index := IndexOf(modifiedParts, "-o") - 1;
      modifiedParts := Insert(modifiedParts, index, "-H");
    }
    r := Join(modifiedParts);
  }

  // ---------------------------------------------------------------------
  // parse_dep_file
  // ---------------------------------------------------------------------

  /** The first line of the compiler's include-guard notice, after which the
      trace holds no more include entries. */
  const Sentinel := "Multiple include guards may be useful for:"

  /** One trace entry: the nesting depth and the node identifier. */
  datatype Include = Include(depth: nat, name: string)

  /** `s` holds no `:`, which DOT does not allow in an identifier. */
  predicate NoColon(s: string) {
    ':' !in s
  }

  /** Every character of `line` is whitespace, so `line.strip()` is empty. */
  predicate IsBlank(line: string) {
    line == [] || (IsSpace(line[0]) && IsBlank(line[1..]))
  }

  /** Line 102: `Sentinel in line`. */
  predicate HasSentinel(line: string) {
    Contains(line, Sentinel)
  }

  /** `n` is the number of `.` characters that start `line`. */
  predicate LeadingDots(line: string, n: nat) {
    n <= |line| && (forall i :: 0 <= i < n ==> line[i] == '.') && (n == |line| || line[n] != '.')
  }

  /** Line 107: `len(line) - len(line.lstrip("."))`. */
  function Depth(line: string): (n: nat)
    ensures n <= |line|
  {
    |line| - |LStripChar(line, '.')|
  }

  /** The depth is the number of leading dots. */
  lemma DepthCountsDots(line: string)
    ensures LeadingDots(line, Depth(line))
  {
    LStripCharRemovesRun(line, '.');
  }

  /** Line 109: strip, drop the leading dots, strip again, and turn every `:`
      (not allowed in DOT identifiers) into `-`. */
  function NodeName(line: string): (r: string)
    ensures NoColon(r) && IsStripped(r)
    ensures |r| <= |line|
  {
    var s := StripDots(line);
    ReplaceKeepsStripped(s, ':', '-');
    ReplaceRemoves(s, ':', '-');
    ReplaceChar(s, ':', '-')
  }

  /** `line.strip().lstrip(".").strip()`. */
  function StripDots(line: string): (r: string)
    ensures IsStripped(r) && |r| <= |line|
  {
    Strip(LStripChar(Strip(line), '.'))
  }

  /** The identifier is the dot-stripped text with each `:`, and only each
      `:`, turned into `-`. */
  lemma NodeNameAt(line: string)
    ensures |NodeName(line)| == |StripDots(line)|
    ensures forall k :: 0 <= k < |NodeName(line)| ==>
      NodeName(line)[k] == if StripDots(line)[k] == ':' then '-' else StripDots(line)[k]
  {
    ReplaceCharAt(StripDots(line), ':', '-');
  }

  /** A line as `-H` prints it: `d` dots, whitespace `w`, the path `p`, and
      trailing whitespace `t`. The dots and the whitespace around `p` go,
      and nothing of `p` itself, even a leading `../`. */
  lemma StripDotsOfHeaderLine(d: string, w: string, p: string, t: string)
    requires |d| >= 1 && forall i :: 0 <= i < |d| ==> d[i] == '.'
    requires w != [] && forall i :: 0 <= i < |w| ==> IsSpace(w[i])
    requires IsStripped(p)
    requires forall i :: 0 <= i < |t| ==> IsSpace(t[i])
    ensures StripDots(d + w + p + t) == p
    ensures Depth(d + w + p + t) == |d|
  {
    var line := d + w + p + t;
    assert line[0] == '.';
    assert LStrip(line) == line;
    assert line == d + (w + p + t);
    LStripCharRun(d, '.', w + p + t);
    if p == [] {
      assert line == d + (w + t);
      assert forall i :: 0 <= i < |w + t| ==> IsSpace((w + t)[i]);
      RStripSpaceRun(d, w + t);
      assert d + [] == d;
      LStripCharRun(d, '.', []);
    } else {
      assert line == (d + w + p) + t;
      RStripSpaceRun(d + w + p, t);
      assert d + w + p == d + (w + p);
      LStripCharRun(d, '.', w + p);
      LStripSpaceRun(w, p);
      StripStripped(p);
    }
  }

  /** Such a line parses to depth `|d|` and the identifier `p` with each
      `:` turned into `-`. */
  lemma ParseHeaderLine(d: string, w: string, p: string, t: string)
    requires |d| >= 1 && forall i :: 0 <= i < |d| ==> d[i] == '.'
    requires w != [] && forall i :: 0 <= i < |w| ==> IsSpace(w[i])
    requires IsStripped(p)
    requires forall i :: 0 <= i < |t| ==> IsSpace(t[i])
    ensures ParseLine(d + w + p + t) == Some(Include(|d|, ReplaceChar(p, ':', '-')))
  {
    var line := d + w + p + t;
    StripDotsOfHeaderLine(d, w, p, t);
    assert line[0] == '.';
    assert !IsBlank(line);
  }

  /** The entry a line before the sentinel contributes, if any. */
  function ParseLine(line: string): Option<Include> {
    if IsBlank(line) then None else Some(Include(Depth(line), NodeName(line)))
  }

  /** A line yields an entry exactly when it is not all whitespace; the
      depth is its count of leading dots and the identifier is stripped and
      free of `:`. */
  lemma ParseLineShape(line: string)
    ensures ParseLine(line).None? <==> IsBlank(line)
    ensures ParseLine(line).None? <==> Strip(line) == ""
    ensures ParseLine(line).Some? ==> LeadingDots(line, ParseLine(line).value.depth)
    ensures ParseLine(line).Some? ==> NoColon(ParseLine(line).value.name) && IsStripped(ParseLine(line).value.name)
  {
    StripEmpty(line);
    BlankAllSpace(line);
    DepthCountsDots(line);
  }

  lemma {:induction false} BlankAllSpace(line: string)
    ensures IsBlank(line) <==> forall i :: 0 <= i < |line| ==> IsSpace(line[i])
    decreases |line|
  {
    if line != [] {
      BlankAllSpace(line[1..]);
      assert forall i :: 1 <= i < |line| ==> line[1..][i - 1] == line[i];
    }
  }

  function Entries(o: Option<Include>): seq<Include> {
    match o
    case None => []
    case Some(e) => [e]
  }

  /** Some line of `lines` contains the sentinel. */
  predicate SentinelIn(lines: seq<string>) {
    lines != [] && (HasSentinel(lines[0]) || SentinelIn(lines[1..]))
  }

  /** The entries parse_dep_file returns for the lines of a trace file. */
  function Trace(lines: seq<string>): seq<Include> {
    if lines == [] then []
    else if HasSentinel(lines[0]) then []
    else Entries(ParseLine(lines[0])) + Trace(lines[1..])
  }

  /** The number of lines before the first sentinel line. */
  function LinesBeforeSentinel(lines: seq<string>): (n: nat)
    ensures n <= |lines|
    ensures forall k :: 0 <= k < n ==> !HasSentinel(lines[k])
    ensures n < |lines| ==> HasSentinel(lines[n])
  {
    if lines == [] || HasSentinel(lines[0]) then 0 else 1 + LinesBeforeSentinel(lines[1..])
  }

  lemma {:induction false} SentinelInAppend(a: seq<string>, b: seq<string>)
    ensures SentinelIn(a + b) == (SentinelIn(a) || SentinelIn(b))
    decreases |a|
  {
    if a == [] {
      assert a + b == b;
    } else {
      assert (a + b)[0] == a[0] && (a + b)[1..] == a[1..] + b;
      SentinelInAppend(a[1..], b);
    }
  }

  /** Parsing is compositional: the lines after a sentinel add nothing, the
      lines of a sentinel-free prefix add their entries in order. */
  lemma {:induction false} TraceAppend(a: seq<string>, b: seq<string>)
    ensures Trace(a + b) == if SentinelIn(a) then Trace(a) else Trace(a) + Trace(b)
    decreases |a|
  {
    if a == [] {
      assert a + b == b;
    } else {
      assert (a + b)[0] == a[0] && (a + b)[1..] == a[1..] + b;
      if !HasSentinel(a[0]) {
        TraceAppend(a[1..], b);
      }
    }
  }

  /** One more line: a sentinel, or any line after one, adds nothing; any
      other line adds the entry it parses to, if any. */
  lemma TraceSnoc(a: seq<string>, line: string)
    ensures SentinelIn(a + [line]) == (SentinelIn(a) || HasSentinel(line))
    ensures Trace(a + [line]) == if SentinelIn(a) || HasSentinel(line) then Trace(a) else Trace(a) + Entries(ParseLine(line))
  {
    TraceAppend(a, [line]);
    SentinelInAppend(a, [line]);
    assert SentinelIn([line]) == HasSentinel(line);
    assert Trace([line]) == if HasSentinel(line) then [] else Entries(ParseLine(line));
  }

  /** The sentinel line and every line after it contribute nothing, however
      well-formed they are. */
  lemma SentinelEndsTrace(pre: seq<string>, line: string, post: seq<string>)
    requires HasSentinel(line)
    ensures Trace(pre + [line] + post) == Trace(pre)
  {
    assert pre + [line] + post == pre + ([line] + post);
    TraceAppend(pre, [line] + post);
    if !SentinelIn(pre) {
      assert Trace([line] + post) == [];
    }
  }

  lemma {:induction false} BlankHasNoSentinel(line: string)
    requires IsBlank(line)
    ensures !HasSentinel(line)
    decreases |line|
  {
    if |Sentinel| <= |line| {
      assert line[..|Sentinel|] != Sentinel by {
        assert line[..|Sentinel|][0] == line[0] && Sentinel[0] == 'M';
      }
      BlankHasNoSentinel(line[1..]);
      assert HasSentinel(line) == Contains(line[1..], Sentinel);
    }
  }

  /** A whitespace-only line contributes no entry and does not stop parsing. */
  lemma BlankLineSkipped(pre: seq<string>, line: string, post: seq<string>)
    requires IsBlank(line)
    ensures Trace(pre + [line] + post) == Trace(pre + post)
  {
    BlankHasNoSentinel(line);
    assert pre + [line] + post == pre + ([line] + post);
    TraceAppend(pre, [line] + post);
    TraceAppend(pre, post);
    assert ([line] + post)[0] == line && ([line] + post)[1..] == post;
    assert Trace([line] + post) == Trace(post);
  }

  /** At most one entry per line before the sentinel. */
  lemma {:induction false} TraceLength(lines: seq<string>)
    ensures |Trace(lines)| <= LinesBeforeSentinel(lines)
    decreases |lines|
  {
    if lines != [] && !HasSentinel(lines[0]) {
      TraceLength(lines[1..]);
    }
  }

  /** Every entry comes from one line before the sentinel, parsed on its own. */
  lemma {:induction false} TraceEntryOrigin(lines: seq<string>, j: nat) returns (k: nat)
    requires j < |Trace(lines)|
    ensures k < LinesBeforeSentinel(lines) && ParseLine(lines[k]) == Some(Trace(lines)[j])
    decreases |lines|
  {
    var o := ParseLine(lines[0]);
    var t := Entries(o);
    var rest := Trace(lines[1..]);
    assert Trace(lines) == t + rest;
    if j < |t| {
      assert o.Some? && Trace(lines)[j] == o.value;
      k := 0;
    } else {
      assert Trace(lines)[j] == rest[j - |t|];
      var k' := TraceEntryOrigin(lines[1..], j - |t|);
      k := k' + 1;
      assert lines[1..][k'] == lines[k];
    }
  }

  /** So the depth of every entry counts the leading dots of its line, and
      its identifier is stripped and free of `:`. */
  lemma TraceEntriesWellShaped(lines: seq<string>, j: nat)
    requires j < |Trace(lines)|
    ensures exists k :: 0 <= k < LinesBeforeSentinel(lines) && LeadingDots(lines[k], Trace(lines)[j].depth)
    ensures NoColon(Trace(lines)[j].name) && IsStripped(Trace(lines)[j].name)
  {
    var k := TraceEntryOrigin(lines, j);
    ParseLineShape(lines[k]);
  }

  /** parse_dep_file (lines 92-113), over the lines `readlines()` returns. */
  method ParseDepFile(lines: seq<string>) returns (includes: seq<Include>)
    ensures includes == Trace(lines)
    ensures |includes| <= LinesBeforeSentinel(lines)
  {
    includes := [];
    var includeGuardsSection := false;
    for i := 0 to |lines|
      invariant includeGuardsSection == SentinelIn(lines[..i])
      invariant includes == Trace(lines[..i])
    {
      var line := lines[i];
      assert lines[..i + 1] == lines[..i] + [line];
      TraceSnoc(lines[..i], line);
      if HasSentinel(line) {
        includeGuardsSection := true;
        continue;
      }
      ParseLineShape(line);
      if !includeGuardsSection && Strip(line) != "" {
        var depth := Depth(line);
        var filePath := NodeName(line);
        includes := includes + [Include(depth, filePath)];
      }
    }
    assert lines[..|lines|] == lines;
    TraceLength(lines);
  }

  // ---------------------------------------------------------------------
  // The tree reconstruction in generate_graph_for_dep_file
  // ---------------------------------------------------------------------

  /** An entry at depth `d` may follow the entries `p`: the first entry is a
      root, and no entry is at depth 0 or more than one level deeper than
      the entry before it. */
  predicate Fits(p: seq<Include>, d: nat) {
    if p == [] then d == 1 else 1 <= d <= p[|p| - 1].depth + 1
  }

  /** The shape of the traces the ancestor-stack loop assumes and never
      checks: every entry fits after the ones before it. */
  predicate WellFormed(t: seq<Include>)
    decreases |t|
  {
    t == [] || (WellFormed(t[..|t| - 1]) && Fits(t[..|t| - 1], t[|t| - 1].depth))
  }

  /** The same shape stated position by position. */
  lemma {:induction false} WellFormedIff(t: seq<Include>)
    ensures WellFormed(t) <==>
      && (t != [] ==> t[0].depth == 1)
      && (forall k :: 0 <= k < |t| ==> t[k].depth >= 1)
      && (forall k :: 0 < k < |t| ==> t[k].depth <= t[k - 1].depth + 1)
    decreases |t|
  {
    if t != [] {
      var p := t[..|t| - 1];
      WellFormedIff(p);
      assert forall k :: 0 <= k < |p| ==> p[k] == t[k];
    }
  }

  lemma {:induction false} WellFormedPrefix(t: seq<Include>, n: nat)
    requires WellFormed(t) && n <= |t|
    ensures WellFormed(t[..n])
    decreases |t| - n
  {
    if n < |t| {
      WellFormedPrefix(t[..|t| - 1], n);
      assert t[..|t| - 1][..n] == t[..n];
    } else {
      assert t[..n] == t;
    }
  }

  /** The position of the most recent entry of `t` at depth `d`, or -1. */
  function LastIndexAt(t: seq<Include>, d: nat): (r: int)
    ensures -1 <= r < |t|
    ensures r >= 0 ==> t[r].depth == d
  {
    if t == [] then -1
    else if t[|t| - 1].depth == d then |t| - 1
    else LastIndexAt(t[..|t| - 1], d)
  }

  /** No later entry is at depth `d`, and -1 means none at all. */
  lemma {:induction false} LastIndexAtIsLast(t: seq<Include>, d: nat, j: nat)
    requires LastIndexAt(t, d) < j < |t|
    ensures t[j].depth != d
    decreases |t|
  {
    if t[|t| - 1].depth != d && j < |t| - 1 {
      LastIndexAtIsLast(t[..|t| - 1], d, j);
    }
  }

  /** In a well-formed trace every depth from 1 to the current one has been
      seen: depths climb one level at a time. */
  lemma {:induction false} AncestorExists(t: seq<Include>, d: nat)
    requires WellFormed(t) && t != [] && 1 <= d <= t[|t| - 1].depth
    ensures LastIndexAt(t, d) >= 0
    decreases |t|
  {
    if t[|t| - 1].depth != d {
      AncestorExists(t[..|t| - 1], d);
    }
  }

  /** One step of the stack loop (lines 154-167): a root resets the stack to
      itself; a deeper entry is appended when the stack is one short and
      otherwise overwrites slot depth-1. */
  function Push(stack: seq<string>, e: Include): (s: seq<string>)
    requires e.depth == 1 || 2 <= e.depth <= |stack| + 1
    ensures e.depth == 1 ==> s == [e.name]
    ensures |s| >= e.depth && s[e.depth - 1] == e.name
  {
    if e.depth == 1 then [e.name]
    else if e.depth > |stack| then stack + [e.name]
    else stack[e.depth - 1 := e.name]
  }

  /** A deeper entry leaves the slots above its own as they were. */
  lemma PushKeeps(stack: seq<string>, e: Include, i: nat)
    requires 2 <= e.depth <= |stack| + 1 && i < e.depth - 1
    ensures i < |Push(stack, e)| && Push(stack, e)[i] == stack[i]
  {
  }

  /** `node_stack` after the loop has processed the entries `t`. */
  function StackAfter(t: seq<Include>): (s: seq<string>)
    requires WellFormed(t)
    ensures t == [] ==> s == []
    ensures t != [] ==> |s| >= t[|t| - 1].depth && s[t[|t| - 1].depth - 1] == t[|t| - 1].name
  {
    if t == [] then [] else Push(StackAfter(t[..|t| - 1]), t[|t| - 1])
  }

  /** The ancestor-stack invariant: for every depth d up to the current one,
      slot d-1 holds the most recent entry at depth d. */
  lemma {:induction false} StackHoldsAncestors(t: seq<Include>, d: nat)
    requires WellFormed(t) && t != [] && 1 <= d <= t[|t| - 1].depth
    ensures LastIndexAt(t, d) >= 0 && StackAfter(t)[d - 1] == t[LastIndexAt(t, d)].name
    decreases |t|
  {
    var p, e := t[..|t| - 1], t[|t| - 1];
    if e.depth != d {
      StackHoldsAncestors(p, d);
      PushKeeps(StackAfter(p), e, d - 1);
      assert p[LastIndexAt(p, d)] == t[LastIndexAt(p, d)];
    }
  }

  /** The edge an entry `e` adds after the entries `p`: none for a root, and
      otherwise one from the most recent entry of `p` one level up. */
  function NewEdge(p: seq<Include>, e: Include): seq<Edge>
    requires WellFormed(p) && Fits(p, e.depth)
  {
    if e.depth == 1 then []
    else
      AncestorExists(p, e.depth - 1);
      [(p[LastIndexAt(p, e.depth - 1)].name, e.name)]
  }

  /** The reference tree: each entry deeper than 1 is the child of the most
      recent earlier entry one level up; roots have no parent. */
  function ParentEdges(t: seq<Include>): seq<Edge>
    requires WellFormed(t)
  {
    if t == [] then [] else ParentEdges(t[..|t| - 1]) + NewEdge(t[..|t| - 1], t[|t| - 1])
  }

  /** One edge per entry deeper than 1, none per root: edge j leads into
      the node of the j-th node statement of the main graph. */
  lemma {:induction false} EdgesIntoNodes(t: seq<Include>)
    requires WellFormed(t)
    ensures |ParentEdges(t)| == |Names(t, false)|
    ensures forall j :: 0 <= j < |ParentEdges(t)| ==> ParentEdges(t)[j].1 == Names(t, false)[j]
    decreases |t|
  {
    if t != [] {
      EdgesIntoNodes(t[..|t| - 1]);
    }
  }

  /** The edges of a prefix of the trace are a prefix of the edges. */
  lemma {:induction false} ParentEdgesPrefix(t: seq<Include>, n: nat)
    requires WellFormed(t) && n <= |t|
    ensures WellFormed(t[..n]) && ParentEdges(t[..n]) <= ParentEdges(t)
    decreases |t|
  {
    if n < |t| {
      var p := t[..|t| - 1];
      ParentEdgesPrefix(p, n);
      assert p[..n] == t[..n];
    } else {
      assert t[..n] == t;
    }
  }

  /** Appending an entry that fits keeps the trace well-formed and adds
      that entry's edge. */
  lemma Extend(p: seq<Include>, e: Include)
    requires WellFormed(p) && Fits(p, e.depth)
    ensures WellFormed(p + [e]) && ParentEdges(p + [e]) == ParentEdges(p) + NewEdge(p, e)
  {
    var q := p + [e];
    assert q[..|q| - 1] == p && q[|q| - 1] == e;
  }

  /** The edge of a deeper last entry comes from the most recent entry one
      level up. */
  lemma LastEdge(q: seq<Include>)
    requires WellFormed(q) && q != [] && q[|q| - 1].depth > 1
    ensures var p, e := q[..|q| - 1], q[|q| - 1];
      LastIndexAt(p, e.depth - 1) >= 0 &&
      ParentEdges(q) == ParentEdges(p) + [(p[LastIndexAt(p, e.depth - 1)].name, e.name)]
  {
    var p, e := q[..|q| - 1], q[|q| - 1];
    AncestorExists(p, e.depth - 1);
  }

  /** The edge of entry k (depth D > 1) is the edge numbered by the count of
      earlier deeper entries, and links the most recent earlier entry at
      depth D-1 to entry k. */
  lemma ParentEdgeOf(t: seq<Include>, k: nat)
    requires WellFormed(t) && k < |t| && t[k].depth > 1
    ensures WellFormed(t[..k]) && LastIndexAt(t[..k], t[k].depth - 1) >= 0
    ensures |Names(t[..k], false)| < |ParentEdges(t)|
    ensures ParentEdges(t)[|Names(t[..k], false)|] == (t[LastIndexAt(t[..k], t[k].depth - 1)].name, t[k].name)
  {
    var p, q := t[..k], t[..k + 1];
    ParentEdgesPrefix(t, k + 1);
    assert q[..|q| - 1] == p && q[|q| - 1] == t[k];
    LastEdge(q);
    EdgesIntoNodes(p);
    var j := LastIndexAt(p, t[k].depth - 1);
    assert p[j] == t[j];
  }

  /** The first branch of the example below: depths 1,2,3 form a chain. */
  lemma ChainExample(na: string, nb: string, nc: string)
    ensures var t := [Include(1, na), Include(2, nb), Include(3, nc)];
      WellFormed(t) && ParentEdges(t) == [(na, nb), (nb, nc)] && LastIndexAt(t, 1) == 0
  {
    var a, b, c := Include(1, na), Include(2, nb), Include(3, nc);
    var t0: seq<Include> := [];
    Extend(t0, a);
    var t1 := t0 + [a];
    Extend(t1, b);
    assert NewEdge(t1, b) == [(na, nb)];
    var t2 := t1 + [b];
    Extend(t2, c);
    assert NewEdge(t2, c) == [(nb, nc)];
    assert t2 + [c] == [a, b, c];
  }

  /** A trace with depths 1,2,3,2,3: B hangs under A, C
      under B, then D goes back up under A and E hangs under D. */
  lemma ParentEdgesExample(na: string, nb: string, nc: string, nd: string, ne: string)
    ensures var t := [Include(1, na), Include(2, nb), Include(3, nc), Include(2, nd), Include(3, ne)];
      WellFormed(t) && ParentEdges(t) == [(na, nb), (nb, nc), (na, nd), (nd, ne)]
  {
    var d, e := Include(2, nd), Include(3, ne);
    var t3 := [Include(1, na), Include(2, nb), Include(3, nc)];
    ChainExample(na, nb, nc);
    Extend(t3, d);
    assert NewEdge(t3, d) == [(na, nd)];
    var t4 := t3 + [d];
    Extend(t4, e);
    assert NewEdge(t4, e) == [(nd, ne)];
    assert t4 + [e] == [Include(1, na), Include(2, nb), Include(3, nc), d, e];
  }

  /** One turn of the stack loop, over entry `i` of `t`: the stack after it
      is `Push` of the stack before it, and the new edge (if any) joins the
      stack slot one level up to the new entry. */
  lemma LoopStep(t: seq<Include>, i: nat)
    requires i < |t| && WellFormed(t[..i + 1])
    ensures WellFormed(t[..i])
    ensures t[i].depth == 1 || 2 <= t[i].depth <= |StackAfter(t[..i])| + 1
    ensures StackAfter(t[..i + 1]) == Push(StackAfter(t[..i]), t[i])
    ensures t[i].depth == 1 ==> ParentEdges(t[..i + 1]) == ParentEdges(t[..i])
    ensures t[i].depth != 1 ==> ParentEdges(t[..i + 1]) == ParentEdges(t[..i]) + [(StackAfter(t[..i])[t[i].depth - 2], t[i].name)]
  {
    var p, q, d := t[..i], t[..i + 1], t[i].depth;
    assert q[..|q| - 1] == p && q[|q| - 1] == t[i];
    assert ParentEdges(q) == ParentEdges(p) + NewEdge(p, t[i]);
    if d != 1 {
      StackHoldsAncestors(p, d - 1);
    }
  }

  /** The identifiers of the roots (`root`) or of the deeper entries
      (`!root`) of `t`, in trace order: the node statements the two loops
      of generate_graph_for_dep_file issue. */
  function Names(t: seq<Include>, root: bool): seq<string> {
    if t == [] then []
    else Names(t[..|t| - 1], root) + (if (t[|t| - 1].depth == 1) == root then [t[|t| - 1].name] else [])
  }

  /** One more entry adds its node statement to the list of its kind. */
  lemma NamesStep(t: seq<Include>, i: nat)
    requires i < |t|
    ensures Names(t[..i + 1], true) == Names(t[..i], true) + (if t[i].depth == 1 then [t[i].name] else [])
    ensures Names(t[..i + 1], false) == Names(t[..i], false) + (if t[i].depth != 1 then [t[i].name] else [])
  {
    assert t[..i + 1][..i] == t[..i];
  }

  /** The node statements name exactly the entries of the chosen kind. */
  lemma {:induction false} NamesAre(t: seq<Include>, root: bool)
    ensures NodeSet(Names(t, root)) == set k | 0 <= k < |t| && (t[k].depth == 1) == root :: t[k].name
    decreases |t|
  {
    if t != [] {
      var p, e := t[..|t| - 1], t[|t| - 1];
      NamesAre(p, root);
      var last: set<string> := if (e.depth == 1) == root then {e.name} else {};
      assert NodeSet(Names(t, root)) == NodeSet(Names(p, root)) + last;
      var a := set k | 0 <= k < |p| && (p[k].depth == 1) == root :: p[k].name;
      var b := set k | 0 <= k < |t| && (t[k].depth == 1) == root :: t[k].name;
      forall n | n in b
        ensures n in a + last
      {
        var k :| 0 <= k < |t| && (t[k].depth == 1) == root && t[k].name == n;
        if k < |p| {
          assert p[k] == t[k];
        } else {
          assert t[k] == e;
        }
      }
      forall n | n in a
        ensures n in b
      {
        var k :| 0 <= k < |p| && (p[k].depth == 1) == root && p[k].name == n;
        assert p[k] == t[k];
      }
      assert b == a + last;
    }
  }

  /** What generate_graph_for_dep_file hands to the renderer: the nodes of
      the `rank=source` subgraph and the main graph. */
  datatype TraceGraph = TraceGraph(roots: set<string>, graph: Graph)

  /** generate_graph_for_dep_file (lines 127-168) over the lines of one trace
      file: no graph for an empty trace; otherwise the graph of its entries. */
  method GenerateGraphForDepFile(lines: seq<string>) returns (g: Option<TraceGraph>)
    requires WellFormed(Trace(lines))
    ensures g.None? <==> Trace(lines) == []
    ensures g.Some? ==> g.value.roots == set k | 0 <= k < |Trace(lines)| && Trace(lines)[k].depth == 1 :: Trace(lines)[k].name
    ensures g.Some? ==> g.value.graph.nodes == set k | 0 <= k < |Trace(lines)| && Trace(lines)[k].depth != 1 :: Trace(lines)[k].name
    ensures g.Some? ==> g.value.graph.edges == ParentEdges(Trace(lines))
  {
    var includes := ParseDepFile(lines);
    if includes == [] {
      return None;
    }
    var tg := IncludeGraph(includes);
    g := Some(tg);
  }

  /** The first loop of generate_graph_for_dep_file (lines 136-145): the
      `rank=source` subgraph gets a node statement per root entry. */
  method RootSubgraph(includes: seq<Include>) returns (roots: set<string>)
    ensures roots == set k | 0 <= k < |includes| && includes[k].depth == 1 :: includes[k].name
  {
    var s := new Digraph();
    for i := 0 to |includes|
      invariant s.nodeStmts == Names(includes[..i], true)
      modifies s
    {
      NamesStep(includes, i);
      if includes[i].depth == 1 {
        s.AddNode(includes[i].name);
      }
    }
    assert includes[..|includes|] == includes;
    NamesAre(includes, true);
    roots := NodeSet(s.nodeStmts);
  }

  /** The ancestor-stack loop of generate_graph_for_dep_file (lines
      146-168): a node statement per deeper entry and, through the stack,
      the edge from its parent. */
  method StackGraph(includes: seq<Include>) returns (graph: Graph)
    requires WellFormed(includes)
    ensures graph.nodes == set k | 0 <= k < |includes| && includes[k].depth != 1 :: includes[k].name
    ensures graph.edges == ParentEdges(includes)
  {
    var g := new Digraph();
    var nodeStack: seq<string> := [];
    for i := 0 to |includes|
      invariant WellFormed(includes[..i])
      invariant nodeStack == StackAfter(includes[..i])
      invariant g.nodeStmts == Names(includes[..i], false)
      invariant g.edges == ParentEdges(includes[..i])
      modifies g
    {
      var e := includes[i];
      WellFormedPrefix(includes, i + 1);
      LoopStep(includes, i);
      NamesStep(includes, i);
      var depth, nodeName := e.depth, e.name;
      if depth != 1 {
        g.AddNode(nodeName);
      } else {
        nodeStack := [];
      }
      if depth == 1 {
        nodeStack := nodeStack + [nodeName];
      } else {
        if depth > |nodeStack| {
          nodeStack := nodeStack + [nodeName];
        } else {
          nodeStack := nodeStack[depth - 1 := nodeName];
        }
        g.AddEdge(nodeStack[depth - 2], nodeStack[depth - 1]);
      }
    }
    assert includes[..|includes|] == includes;
    NamesAre(includes, false);
    graph := g.Snapshot();
  }

  /** The graph building of generate_graph_for_dep_file (lines 133-168):
      the root subgraph, then the main graph. */
  method IncludeGraph(includes: seq<Include>) returns (tg: TraceGraph)
    requires WellFormed(includes)
    ensures tg.roots == set k | 0 <= k < |includes| && includes[k].depth == 1 :: includes[k].name
    ensures tg.graph.nodes == set k | 0 <= k < |includes| && includes[k].depth != 1 :: includes[k].name
    ensures tg.graph.edges == ParentEdges(includes)
  {
    var roots := RootSubgraph(includes);
    var graph := StackGraph(includes);
    tg := TraceGraph(roots, graph);
  }
}
