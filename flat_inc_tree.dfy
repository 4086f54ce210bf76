/**
  The flat pipeline of python_tools/gen_flat_inc_tree.py: parsing the
  Makefile rule of each `.d` file into a source and its header
  dependencies, grouping the rules into clusters by directory, and building
  the per-file, per-cluster and overall dependency graphs from basenames.
 */
module FlatIncTree {
  import opened Options
  import opened PyStr
  import opened Graphs

  // ---------------------------------------------------------------------
  // parse_d_file
  // ---------------------------------------------------------------------

  /** What parse_d_file returns: the header dependencies and the source
      (the rule's target). */
  datatype DepRecord = DepRecord(deps: set<string>, source: string)

  /** `content.replace("\\\n", "")`: every backslash-newline pair removed,
      scanning from the left. */
  function RemoveContinuations(s: string): (r: string)
    ensures |r| <= |s|
    decreases |s|
  {
    if |s| >= 2 && s[0] == '\\' && s[1] == '\n' then RemoveContinuations(s[2..])
    else if s == [] then []
    else [s[0]] + RemoveContinuations(s[1..])
  }

  /** A continuation joins the two halves of a rule: the text before it is
      cleaned on its own, whatever it ends with. */
  lemma {:induction false} RemoveContinuationsSplit(a: string, b: string)
    ensures RemoveContinuations(a + "\\\n" + b) == RemoveContinuations(a) + RemoveContinuations(b)
    decreases |a|
  {
    var s := a + "\\\n" + b;
    if a == [] {
      assert s[..2] == "\\\n" && s[2..] == b;
      assert RemoveContinuations(s) == RemoveContinuations(b);
    } else if |a| >= 2 && a[0] == '\\' && a[1] == '\n' {
      assert s[0] == '\\' && s[1] == '\n';
      assert s[2..] == a[2..] + "\\\n" + b;
      RemoveContinuationsSplit(a[2..], b);
      assert RemoveContinuations(s) == RemoveContinuations(s[2..]);
    } else {
      assert s[0] == a[0] && s[1..] == a[1..] + "\\\n" + b;
      assert s[1] == if |a| == 1 then '\\' else a[1];
      RemoveContinuationsSplit(a[1..], b);
      assert RemoveContinuations(s) == [a[0]] + RemoveContinuations(s[1..]);
      assert RemoveContinuations(a) == [a[0]] + RemoveContinuations(a[1..]);
      assert ([a[0]] + RemoveContinuations(a[1..])) + RemoveContinuations(b)
          == [a[0]] + (RemoveContinuations(a[1..]) + RemoveContinuations(b));
    }
  }

  /** Text without a backslash has nothing to remove. */
  lemma {:induction false} RemoveContinuationsNoBackslash(s: string)
    requires '\\' !in s
    ensures RemoveContinuations(s) == s
    decreases |s|
  {
    if s != [] {
      assert s[0] != '\\' && '\\' !in s[1..];
      RemoveContinuationsNoBackslash(s[1..]);
    }
  }

  /** No backslash in `s` is followed by a newline. */
  predicate NoContinuation(s: string) {
    forall i :: 0 <= i < |s| - 1 ==> !(s[i] == '\\' && s[i + 1] == '\n')
  }

  /** Text with no backslash-newline pair comes back unchanged: a backslash
      followed by anything else is kept. */
  lemma {:induction false} RemoveContinuationsKeeps(s: string)
    requires NoContinuation(s)
    ensures RemoveContinuations(s) == s
    decreases |s|
  {
    if s != [] {
      assert !(|s| >= 2 && s[0] == '\\' && s[1] == '\n');
      var t := s[1..];
      assert forall i :: 0 <= i < |t| ==> t[i] == s[i + 1];
      RemoveContinuationsKeeps(t);
      assert s == [s[0]] + t;
    }
  }

  /** Line 19: continuations removed, then every backslash turned into `/`. */
  function CleanRule(content: string): (r: string)
    ensures '\\' !in r
  {
    var c := RemoveContinuations(content);
    ReplaceRemoves(c, '\\', '/');
    ReplaceChar(c, '\\', '/')
  }

  /** Without continuations, the cleaning only turns each backslash into
      `/`: none is dropped. */
  lemma CleanRuleKeeps(s: string)
    requires NoContinuation(s)
    ensures CleanRule(s) == ReplaceChar(s, '\\', '/')
  {
    RemoveContinuationsKeeps(s);
  }

  /** A Windows-style path keeps its separators, each turned into `/`. */
  lemma WindowsPath(s: string)
    requires s == "C:\\x\\a.h"
    ensures CleanRule(s) == "C:/x/a.h"
  {
    assert NoContinuation(s) by {
      forall i | 0 <= i < |s| - 1 ensures !(s[i] == '\\' && s[i + 1] == '\n') {
        assert s[i + 1] != '\n';
      }
    }
    CleanRuleKeeps(s);
    var r := ReplaceChar(s, '\\', '/');
    ReplaceCharAt(s, '\\', '/');
    assert r[0] == 'C' && r[1] == ':' && r[2] == '/' && r[3] == 'x';
    assert r[4] == '/' && r[5] == 'a' && r[6] == '.' && r[7] == 'h';
  }

  /** The dependency filter of line 27: the path ends in `.h` or `.hpp`. */
  predicate IsHeader(d: string) {
    EndsWith(d, ".h") || EndsWith(d, ".hpp")
  }

  /** A dependency token as line 26 cleans it. */
  function CleanDep(w: string, normpath: string -> string): string {
    normpath(Strip(w))
  }

  /** The set `dependencies` after the loop of lines 25-28 has seen `ws`. */
  function HeaderDeps(ws: seq<string>, normpath: string -> string): set<string> {
    if ws == [] then {}
    else
      var d := CleanDep(ws[|ws| - 1], normpath);
      HeaderDeps(ws[..|ws| - 1], normpath) + (if IsHeader(d) then {d} else {})
  }

  /** Every token in its cleaned form, in order. */
  function CleanDeps(ws: seq<string>, normpath: string -> string): (r: seq<string>)
    ensures |r| == |ws|
  {
    if ws == [] then [] else CleanDeps(ws[..|ws| - 1], normpath) + [CleanDep(ws[|ws| - 1], normpath)]
  }

  lemma {:induction false} CleanDepsAt(ws: seq<string>, normpath: string -> string, k: int)
    requires 0 <= k < |ws|
    ensures CleanDeps(ws, normpath)[k] == CleanDep(ws[k], normpath)
    decreases |ws|
  {
    if k < |ws| - 1 {
      CleanDepsAt(ws[..|ws| - 1], normpath, k);
    }
  }

  /** A path is a dependency exactly when it is a header and the cleaned
      form of some token. */
  lemma {:induction false} HeaderDepsAre(ws: seq<string>, normpath: string -> string, d: string)
    ensures d in HeaderDeps(ws, normpath) <==> IsHeader(d) && d in CleanDeps(ws, normpath)
    decreases |ws|
  {
    if ws != [] {
      HeaderDepsAre(ws[..|ws| - 1], normpath, d);
    }
  }

  /** parse_d_file over the file's content, `None` standing for a file that
      cannot be read (lines 29-30: the error is printed and the empty record
      returned). `normpath` is `os.path.normpath`. */
  function DRecord(content: Option<string>, normpath: string -> string): DepRecord {
    match content
    case None => DepRecord({}, "")
    case Some(text) =>
      var c := CleanRule(text);
      var k := FindChar(c, ':');
      if k < 0 then DepRecord({}, "")
      else DepRecord(HeaderDeps(Words(c[k + 1..]), normpath), normpath(Strip(c[..k])))
  }

  /** A rule without `:` yields the empty record; otherwise the target is
      the text before the first `:` and every dependency is a header named
      after that `:`. */
  lemma DRecordShape(text: string, normpath: string -> string)
    ensures var c := CleanRule(text);
      && (':' !in c ==> DRecord(Some(text), normpath) == DepRecord({}, ""))
      && (':' in c ==>
            exists k :: (0 <= k < |c| && c[k] == ':' && ':' !in c[..k] &&
              DRecord(Some(text), normpath) == DepRecord(HeaderDeps(Words(c[k + 1..]), normpath), normpath(Strip(c[..k])))))
  {
    var c := CleanRule(text);
    var k := FindChar(c, ':');
    if k >= 0 {
      assert 0 <= k < |c| && c[k] == ':' && ':' !in c[..k];
    }
  }

  /** Text without backslashes comes out of the cleaning unchanged. */
  lemma CleanRulePlain(text: string)
    requires '\\' !in text
    ensures CleanRule(text) == text
  {
    RemoveContinuationsNoBackslash(text);
    ReplaceAbsent(text, '\\', '/');
  }

  /** The first `:` of `target + ":" + rest` is the one after `target`. */
  lemma FirstColon(target: string, rest: string)
    requires ':' !in target
    ensures FindChar(target + ":" + rest, ':') == |target|
    ensures (target + ":" + rest)[..|target|] == target
    ensures (target + ":" + rest)[|target| + 1..] == rest
  {
    var text := target + ":" + rest;
    var k := FindChar(text, ':');
    assert text[|target|] == ':';
    assert text[..|target|] == target;
  }

  lemma WordsAfterSpace(s: string)
    ensures Words(" " + s) == Words(s)
  {
    assert (" " + s)[1..] == s;
  }

  /** A one-line rule `target:rest` without backslashes parses into its
      target and the headers among the words of `rest`. */
  lemma ParseRule(target: string, rest: string, normpath: string -> string)
    requires IsStripped(target) && ':' !in target
    requires '\\' !in target + ":" + rest
    ensures DRecord(Some(target + ":" + rest), normpath) == DepRecord(HeaderDeps(Words(rest), normpath), normpath(target))
  {
    var text := target + ":" + rest;
    CleanRulePlain(text);
    FirstColon(target, rest);
    StripStripped(target);
  }

  /** A rule `a.o: a.cpp a.h b/b.hpp obj/x.o` in general form: of four
      tokens, two headers and two other paths, only the headers are kept,
      whatever the order, when `normpath` leaves the tokens as they are. */
  lemma HeaderExample(src: string, h1: string, h2: string, obj: string, normpath: string -> string)
    requires IsWord(src) && IsWord(h1) && IsWord(h2) && IsWord(obj)
    requires IsHeader(h1) && IsHeader(h2) && !IsHeader(src) && !IsHeader(obj)
    requires normpath(src) == src && normpath(h1) == h1 && normpath(h2) == h2 && normpath(obj) == obj
    ensures HeaderDeps([src, h1, h2, obj], normpath) == {h1, h2}
  {
    var ws := [src, h1, h2, obj];
    StripStripped(src);
    StripStripped(h1);
    StripStripped(h2);
    StripStripped(obj);
    assert ws[..3] == [src, h1, h2] && ws[..3][..2] == [src, h1] && ws[..3][..2][..1] == [src];
    assert HeaderDeps([src], normpath) == {};
    assert HeaderDeps([src, h1], normpath) == {h1};
    assert HeaderDeps([src, h1, h2], normpath) == {h1, h2};
  }

  lemma ColonSpace(target: string, tokens: string)
    ensures target + ": " + tokens == target + ":" + (" " + tokens)
  {
    assert ": " == ":" + " ";
  }

  /** A one-line rule `target: tok tok ...` with single spaces between the
      tokens and no backslash parses into the normalised target and the
      header tokens, whatever the tokens are. */
  lemma RuleOfTokens(target: string, ws: seq<string>, normpath: string -> string)
    requires IsStripped(target) && ':' !in target && '\\' !in target
    requires forall i :: 0 <= i < |ws| ==> IsWord(ws[i]) && '\\' !in ws[i]
    ensures DRecord(Some(target + ": " + Join(ws)), normpath) == DepRecord(HeaderDeps(ws, normpath), normpath(target))
  {
    var tokens := Join(ws);
    JoinExcludes(ws, '\\');
    WordsOfJoin(ws);
    WordsAfterSpace(tokens);
    ColonSpace(target, tokens);
    ParseRule(target, " " + tokens, normpath);
  }

  /** The paths of the rule below: words, two of them headers, none with a backslash. */
  lemma ExamplePaths()
    ensures IsStripped("a.o") && ':' !in "a.o" && '\\' !in "a.o"
    ensures IsWord("a.cpp") && IsWord("a.h") && IsWord("b/b.hpp") && IsWord("obj/x.o")
    ensures '\\' !in "a.cpp" && '\\' !in "a.h" && '\\' !in "b/b.hpp" && '\\' !in "obj/x.o"
    ensures IsHeader("a.h") && IsHeader("b/b.hpp") && !IsHeader("a.cpp") && !IsHeader("obj/x.o")
  {
  }

  /** The joined tokens of the rule below spell its text. */
  lemma ExampleText()
    ensures "a.o" + ": " + Join(["a.cpp", "a.h", "b/b.hpp", "obj/x.o"]) == "a.o: a.cpp a.h b/b.hpp obj/x.o"
  {
    var ws := ["a.cpp", "a.h", "b/b.hpp", "obj/x.o"];
    assert ws[1..] == ["a.h", "b/b.hpp", "obj/x.o"];
    assert ws[1..][1..] == ["b/b.hpp", "obj/x.o"];
    assert ws[1..][1..][1..] == ["obj/x.o"];
  }

  /** The rule `a.o: a.cpp a.h b/b.hpp obj/x.o` itself, from the file
      content to the record, when `normpath` leaves its paths as they are:
      the source is `a.o` and the dependencies are the two headers. */
  lemma RuleExample(normpath: string -> string)
    requires normpath("a.o") == "a.o" && normpath("a.cpp") == "a.cpp"
    requires normpath("a.h") == "a.h" && normpath("b/b.hpp") == "b/b.hpp" && normpath("obj/x.o") == "obj/x.o"
    ensures DRecord(Some("a.o: a.cpp a.h b/b.hpp obj/x.o"), normpath) == DepRecord({"a.h", "b/b.hpp"}, "a.o")
  {
    var ws := ["a.cpp", "a.h", "b/b.hpp", "obj/x.o"];
    ExampleText();
    ExamplePaths();
    RuleOfTokens("a.o", ws, normpath);
    HeaderExample("a.cpp", "a.h", "b/b.hpp", "obj/x.o", normpath);
  }

  /** The loop of lines 25-28 over the tokens after the `:`. */
  method CollectHeaders(deps: seq<string>, normpath: string -> string) returns (dependencies: set<string>)
    ensures dependencies == HeaderDeps(deps, normpath)
  {
    dependencies := {};
    for i := 0 to |deps|
      invariant dependencies == HeaderDeps(deps[..i], normpath)
    {
      assert deps[..i + 1][..i] == deps[..i];
      var depCleaned := normpath(Strip(deps[i]));
      if IsHeader(depCleaned) {
        dependencies := dependencies + {depCleaned};
      }
    }
    assert deps[..|deps|] == deps;
  }

  /** parse_d_file (lines 9-34). */
  method ParseDFile(content: Option<string>, normpath: string -> string) returns (dependencies: set<string>, sourceFile: string)
    ensures DepRecord(dependencies, sourceFile) == DRecord(content, normpath)
  {
    dependencies := {};
    sourceFile := "";
    if content.None? {
      return;
    }
    var c := CleanRule(content.value);
    var k := FindChar(c, ':');
    if k >= 0 {
      sourceFile := normpath(Strip(c[..k]));
      dependencies := CollectHeaders(Words(c[k + 1..]), normpath);
    }
  }

  // ---------------------------------------------------------------------
  // generate_cluster_key
  // ---------------------------------------------------------------------

  /** Python's slice `s[:n]`: the first `n` characters, or all of a shorter `s`. */
  function Prefix(s: string, n: nat): (r: string)
    ensures |r| == if |s| < n then |s| else n
    ensures r == s[..|r|]
  {
    if |s| < n then s else s[..n]
  }

  /** generate_cluster_key (lines 37-46); `hexdigest` is the SHA-256 hex
      digest of the directory's encoding. */
  function ClusterKey(relativeDir: string, hexdigest: string -> string): string {
    "cluster_" + Basename(relativeDir) + "_" + Prefix(hexdigest(relativeDir), 8)
  }

  /** A key is `cluster_`, the directory's basename, `_` and at most eight
      digest characters. */
  lemma ClusterKeyShape(relativeDir: string, hexdigest: string -> string)
    ensures var key := ClusterKey(relativeDir, hexdigest);
      && StartsWith(key, "cluster_")
      && key[8..|key| - |Prefix(hexdigest(relativeDir), 8)| - 1] == Basename(relativeDir)
      && EndsWith(key, "_" + Prefix(hexdigest(relativeDir), 8))
  {
    var b := Basename(relativeDir);
    var h := Prefix(hexdigest(relativeDir), 8);
    var key := ClusterKey(relativeDir, hexdigest);
    assert key == "cluster_" + b + "_" + h;
    assert key[..8] == "cluster_";
    assert key[8..|key| - |h| - 1] == b;
    assert key[|key| - |h| - 1..] == "_" + h;
  }

  /** With full-length digests, two directories share a key exactly when
      their basenames and the first eight digest characters agree: the key
      tells apart directories whose basename differs, and nothing else. */
  lemma ClusterKeyEqual(d1: string, d2: string, hexdigest: string -> string)
    requires |hexdigest(d1)| >= 8 && |hexdigest(d2)| >= 8
    ensures ClusterKey(d1, hexdigest) == ClusterKey(d2, hexdigest) <==>
      Basename(d1) == Basename(d2) && hexdigest(d1)[..8] == hexdigest(d2)[..8]
  {
    var k1 := ClusterKey(d1, hexdigest);
    var k2 := ClusterKey(d2, hexdigest);
    var b1, b2 := Basename(d1), Basename(d2);
    var h1, h2 := hexdigest(d1)[..8], hexdigest(d2)[..8];
    assert k1 == "cluster_" + b1 + "_" + h1;
    assert k2 == "cluster_" + b2 + "_" + h2;
    if k1 == k2 {
      assert |b1| == |b2|;
      assert k1[8..8 + |b1|] == b1;
      assert k2[8..8 + |b2|] == b2;
      assert k1[9 + |b1|..] == h1;
      assert k2[9 + |b2|..] == h2;
    }
  }

  // ---------------------------------------------------------------------
  // generate_graphs_with_structure: grouping the .d files into clusters
  // ---------------------------------------------------------------------

  /** One file reported by `os.walk`: its directory, its name and, standing
      for the read that parse_d_file makes, its content (`None` when it
      cannot be read). */
  datatype WalkFile = WalkFile(root: string, name: string, content: Option<string>)

  /** The arguments and library functions the grouping depends on:
      `dep_files_dir`, `ignore_dir`, `os.path.normpath`, `os.path.relpath`
      and the SHA-256 hex digest. */
  datatype WalkEnv = WalkEnv(
    depFilesDir: string,
    ignoreDir: Option<string>,
    normpath: string -> string,
    relpath: (string, string) -> string,
    hexdigest: string -> string)

  /** A `clusters` entry without its graph object: the `"path"` and the
      `"files"` list of (source, dependencies) records. */
  datatype Cluster = Cluster(path: string, files: seq<DepRecord>)

  /** `ignore_dir and ignore_dir in d_file_path` (line 69): an empty or absent
      `ignore_dir` ignores nothing. */
  predicate Ignored(f: WalkFile, env: WalkEnv) {
    env.ignoreDir.Some? && env.ignoreDir.value != "" && Contains(PathJoin(f.root, f.name), env.ignoreDir.value)
  }

  /** The files the loop of lines 65-91 records: `.d` files that are not ignored. */
  predicate Accepted(f: WalkFile, env: WalkEnv) {
    EndsWith(f.name, ".d") && !Ignored(f, env)
  }

  /** A non-empty `ignore_dir` occurring in the walked directory rejects
      every file under it: `os.path.join` keeps the directory as a prefix. */
  lemma IgnoredUnderRoot(f: WalkFile, env: WalkEnv)
    requires env.ignoreDir.Some? && env.ignoreDir.value != ""
    requires Contains(f.root, env.ignoreDir.value)
    requires !StartsWith(f.name, "/")
    ensures Ignored(f, env) && !Accepted(f, env)
  {
    var path := PathJoin(f.root, f.name);
    if path == f.root + f.name {
      ContainsExtend(f.root, f.name, env.ignoreDir.value);
    } else {
      ContainsExtend(f.root, "/" + f.name, env.ignoreDir.value);
      assert path == f.root + ("/" + f.name);
    }
  }

  /** `relative_dir` (line 73). */
  function RelDir(f: WalkFile, env: WalkEnv): string {
    env.relpath(f.root, env.depFilesDir)
  }

  /** `cluster_key` (line 74). */
  function KeyOf(f: WalkFile, env: WalkEnv): string {
    ClusterKey(RelDir(f, env), env.hexdigest)
  }

  /** The record parse_d_file returns for the file (line 72). */
  function RecordOf(f: WalkFile, env: WalkEnv): DepRecord {
    DRecord(f.content, env.normpath)
  }

  /** What the loop body of lines 66-74 learns about one walked file. */
  datatype Entry = Entry(accepted: bool, key: string, path: string, record: DepRecord)

  function Classify(f: WalkFile, env: WalkEnv): Entry {
    Entry(Accepted(f, env), KeyOf(f, env), RelDir(f, env), RecordOf(f, env))
  }

  /** `g` applied to every element, in order. */
  function MapSeq<A, B>(xs: seq<A>, g: A -> B): (r: seq<B>)
    ensures |r| == |xs|
  {
    if xs == [] then [] else MapSeq(xs[..|xs| - 1], g) + [g(xs[|xs| - 1])]
  }

  lemma {:induction false} MapSeqAppend<A, B>(a: seq<A>, b: seq<A>, g: A -> B)
    ensures MapSeq(a + b, g) == MapSeq(a, g) + MapSeq(b, g)
    decreases |b|
  {
    if b == [] {
      assert a + b == a;
    } else {
      var b' := b[..|b| - 1];
      MapSeqAppend(a, b', g);
      assert (a + b)[..|a + b| - 1] == a + b';
    }
  }

  function Classified(walk: seq<WalkFile>, env: WalkEnv): (es: seq<Entry>)
    ensures |es| == |walk|
  {
    MapSeq(walk, f => Classify(f, env))
  }

  /** The `clusters` dictionary: its keys in insertion order (the order
      `clusters.items()` yields) and its entries. */
  datatype Clusters = Clusters(keys: seq<string>, table: map<string, Cluster>)

  /** Recording one entry (lines 76-91): a new key opens a cluster with the
      entry's directory as its `"path"`; every accepted entry's record is
      appended to the `"files"` of its key's cluster. */
  function Step(c: Clusters, e: Entry): Clusters {
    if !e.accepted then c
    else if e.key in c.table then
      Clusters(c.keys, c.table[e.key := Cluster(c.table[e.key].path, c.table[e.key].files + [e.record])])
    else
      Clusters(c.keys + [e.key], c.table[e.key := Cluster(e.path, [e.record])])
  }

  /** The dictionary after the entries `es` have been recorded. */
  function Collect(es: seq<Entry>): Clusters {
    if es == [] then Clusters([], map[]) else Step(Collect(es[..|es| - 1]), es[|es| - 1])
  }

  /** The dictionary after the walk has reported `walk`. */
  function Group(walk: seq<WalkFile>, env: WalkEnv): Clusters {
    Collect(Classified(walk, env))
  }

  /** The records of the accepted entries with key `key`, in walk order. */
  function FilesWithKey(es: seq<Entry>, key: string): seq<DepRecord> {
    if es == [] then []
    else
      var e := es[|es| - 1];
      FilesWithKey(es[..|es| - 1], key) + (if e.accepted && e.key == key then [e.record] else [])
  }

  /** The position of the first accepted entry with key `key`, or -1. */
  function FirstWithKey(es: seq<Entry>, key: string): (i: int)
    ensures -1 <= i < |es|
    ensures i >= 0 ==> es[i].accepted && es[i].key == key
    ensures i >= 0 ==> forall j :: 0 <= j < i ==> !(es[j].accepted && es[j].key == key)
    ensures i < 0 ==> forall j :: 0 <= j < |es| ==> !(es[j].accepted && es[j].key == key)
  {
    if es == [] then -1
    else
      var i := FirstWithKey(es[..|es| - 1], key);
      var e := es[|es| - 1];
      if i >= 0 then i
      else if e.accepted && e.key == key then |es| - 1
      else -1
  }

  /** The dictionary's keys are listed once each and are exactly the keys
      of its entries. */
  lemma {:induction false} CollectKeys(es: seq<Entry>)
    ensures forall i, j :: 0 <= i < j < |Collect(es).keys| ==> Collect(es).keys[i] != Collect(es).keys[j]
    ensures forall k :: k in Collect(es).keys <==> k in Collect(es).table
    decreases |es|
  {
    if es != [] {
      var init := es[..|es| - 1];
      var e := es[|es| - 1];
      CollectKeys(init);
      var c := Collect(init);
      if e.accepted && e.key !in c.table {
        var keys := c.keys + [e.key];
        assert Collect(es).keys == keys;
        forall i, j | 0 <= i < j < |keys|
          ensures keys[i] != keys[j]
        {
          if j == |c.keys| {
            assert keys[i] == c.keys[i] && c.keys[i] in c.keys;
          }
        }
      }
    }
  }

  /** `keys` are in the order of the first accepted entries that carry them. */
  ghost predicate InFirstOrder(keys: seq<string>, es: seq<Entry>) {
    forall i, j :: 0 <= i < j < |keys| ==> 0 <= FirstWithKey(es, keys[i]) < FirstWithKey(es, keys[j])
  }

  /** A key already seen keeps its first position when one more entry comes. */
  lemma FirstWithKeyKept(es: seq<Entry>, key: string)
    requires es != [] && FirstWithKey(es[..|es| - 1], key) >= 0
    ensures FirstWithKey(es, key) == FirstWithKey(es[..|es| - 1], key) < |es| - 1
  {
  }

  lemma InFirstOrderSnoc(keys: seq<string>, es: seq<Entry>)
    requires es != [] && InFirstOrder(keys, es[..|es| - 1])
    requires forall k :: k in keys ==> FirstWithKey(es[..|es| - 1], k) >= 0
    ensures InFirstOrder(keys, es)
    ensures forall k :: k in keys ==> FirstWithKey(es, k) < |es| - 1
  {
    forall k | k in keys
      ensures FirstWithKey(es, k) == FirstWithKey(es[..|es| - 1], k) < |es| - 1
    {
      FirstWithKeyKept(es, k);
    }
    forall i, j | 0 <= i < j < |keys|
      ensures 0 <= FirstWithKey(es, keys[i]) < FirstWithKey(es, keys[j])
    {
      assert keys[i] in keys && keys[j] in keys;
    }
  }

  lemma InFirstOrderAppend(keys: seq<string>, key: string, es: seq<Entry>)
    requires InFirstOrder(keys, es)
    requires forall k :: k in keys ==> 0 <= FirstWithKey(es, k) < FirstWithKey(es, key)
    ensures InFirstOrder(keys + [key], es)
  {
    var ks := keys + [key];
    forall i, j | 0 <= i < j < |ks|
      ensures 0 <= FirstWithKey(es, ks[i]) < FirstWithKey(es, ks[j])
    {
      assert ks[i] == keys[i] && keys[i] in keys;
      if j < |keys| {
        assert ks[j] == keys[j];
      }
    }
  }

  /** The keys are listed in the order they were first added: by the
      position of the first accepted entry with each key. */
  lemma {:induction false} KeysInFirstOrder(es: seq<Entry>)
    ensures InFirstOrder(Collect(es).keys, es)
    decreases |es|
  {
    if es != [] {
      var init := es[..|es| - 1];
      var e := es[|es| - 1];
      var c := Collect(init);
      KeysInFirstOrder(init);
      CollectKeys(init);
      forall k | k in c.keys
        ensures FirstWithKey(init, k) >= 0
      {
        CollectClusters(init, k);
      }
      InFirstOrderSnoc(c.keys, es);
      if e.accepted && e.key !in c.table {
        CollectClusters(init, e.key);
        assert FirstWithKey(es, e.key) == |es| - 1;
        InFirstOrderAppend(c.keys, e.key, es);
      }
    }
  }

  /** Each cluster holds the records of exactly the accepted entries with
      its key, in walk order; its `"path"` is that of the first of them; a
      key has a cluster exactly when some accepted entry has it. */
  lemma {:induction false} CollectClusters(es: seq<Entry>, key: string)
    ensures key in Collect(es).table <==> FirstWithKey(es, key) >= 0
    ensures key in Collect(es).table ==>
      Collect(es).table[key].files == FilesWithKey(es, key)
      && Collect(es).table[key].path == es[FirstWithKey(es, key)].path
    decreases |es|
  {
    if es != [] {
      var init := es[..|es| - 1];
      var e := es[|es| - 1];
      CollectClusters(init, key);
      var i := FirstWithKey(init, key);
      if i >= 0 {
        assert init[i] == es[i];
      }
      var c := Collect(init);
      if e.accepted && e.key == key {
        assert FilesWithKey(es, key) == FilesWithKey(init, key) + [e.record];
        if key in c.table {
          assert Collect(es).table[key].files == c.table[key].files + [e.record];
        } else {
          assert FilesWithKey(init, key) == [] by { EmptyFilesWithKey(init, key); }
        }
      }
    }
  }

  lemma {:induction false} EmptyFilesWithKey(es: seq<Entry>, key: string)
    requires FirstWithKey(es, key) < 0
    ensures FilesWithKey(es, key) == []
    decreases |es|
  {
    if es != [] {
      var init := es[..|es| - 1];
      assert forall j :: 0 <= j < |init| ==> init[j] == es[j];
      EmptyFilesWithKey(init, key);
    }
  }

  /** An entry that is not accepted changes nothing, wherever it appears. */
  lemma {:induction false} RejectedEntryIgnored(a: seq<Entry>, e: Entry, b: seq<Entry>)
    requires !e.accepted
    ensures Collect(a + [e] + b) == Collect(a + b)
    decreases |b|
  {
    if b == [] {
      assert (a + [e] + b)[..|a|] == a;
      assert a + b == a;
    } else {
      var b' := b[..|b| - 1];
      RejectedEntryIgnored(a, e, b');
      assert (a + [e] + b)[..|a + [e] + b| - 1] == a + [e] + b';
      assert (a + b)[..|a + b| - 1] == a + b';
    }
  }

  /** The same for the walk: a file that is not an accepted `.d` file
      belongs to no cluster and changes nothing. */
  lemma RejectedFileIgnored(a: seq<WalkFile>, f: WalkFile, b: seq<WalkFile>, env: WalkEnv)
    requires !Accepted(f, env)
    ensures Group(a + [f] + b, env) == Group(a + b, env)
  {
    var g := (x: WalkFile) => Classify(x, env);
    MapSeqAppend(a + [f], b, g);
    MapSeqAppend(a, [f], g);
    MapSeqAppend(a, b, g);
    assert MapSeq([f], g) == [g(f)] by { assert [f][..0] == []; }
    RejectedEntryIgnored(Classified(a, env), Classify(f, env), Classified(b, env));
  }

  lemma {:induction false} MapSeqAt<A, B>(xs: seq<A>, g: A -> B, i: nat)
    requires i < |xs|
    ensures MapSeq(xs, g)[i] == g(xs[i])
    decreases |xs|
  {
    if i < |xs| - 1 {
      MapSeqAt(xs[..|xs| - 1], g, i);
    }
  }

  /** An accepted entry's record is among the files of its key. */
  lemma {:induction false} FilesWithKeyHas(es: seq<Entry>, i: nat)
    requires i < |es| && es[i].accepted
    ensures es[i].record in FilesWithKey(es, es[i].key)
    decreases |es|
  {
    if i < |es| - 1 {
      var init := es[..|es| - 1];
      assert init[i] == es[i];
      FilesWithKeyHas(init, i);
    }
  }

  /** Every `.d` file that is not ignored is filed: the dictionary has a
      cluster under the key of the file's directory, and the file's record
      is among that cluster's files. */
  lemma AcceptedFileFiled(walk: seq<WalkFile>, env: WalkEnv, i: nat)
    requires i < |walk| && Accepted(walk[i], env)
    ensures KeyOf(walk[i], env) in Group(walk, env).table
    ensures RecordOf(walk[i], env) in Group(walk, env).table[KeyOf(walk[i], env)].files
  {
    var g := (x: WalkFile) => Classify(x, env);
    var es := Classified(walk, env);
    assert es == MapSeq(walk, g);
    MapSeqAt(walk, g, i);
    var key := KeyOf(walk[i], env);
    assert es[i] == Entry(true, key, RelDir(walk[i], env), RecordOf(walk[i], env));
    CollectClusters(es, key);
    FilesWithKeyHas(es, i);
  }

  lemma ClassifyRejected(f: WalkFile, env: WalkEnv)
    requires !Accepted(f, env)
    ensures !Classify(f, env).accepted
  {
  }

  lemma ClassifyAccepted(f: WalkFile, env: WalkEnv, key: string, path: string, record: DepRecord)
    requires Accepted(f, env)
    requires key == KeyOf(f, env) && path == RelDir(f, env) && record == RecordOf(f, env)
    ensures Classify(f, env) == Entry(true, key, path, record)
  {
  }

  /** Lines 76-91: open the cluster if its key is new, then append the record. */
  method AddToCluster(c: Clusters, clusterKey: string, relativeDir: string, record: DepRecord) returns (next: Clusters)
    ensures next == Step(c, Entry(true, clusterKey, relativeDir, record))
  {
    var keys, table := c.keys, c.table;
    if clusterKey !in table {
      keys := keys + [clusterKey];
      table := table[clusterKey := Cluster(relativeDir, [])];
    }
    table := table[clusterKey := Cluster(table[clusterKey].path, table[clusterKey].files + [record])];
    next := Clusters(keys, table);
    if clusterKey !in c.table {
      assert [] + [record] == [record];
      assert table == c.table[clusterKey := Cluster(relativeDir, [record])];
    }
  }

  /** One more file seen by the walk is one more `Step`. */
  lemma CollectSnoc<A>(xs: seq<A>, i: int, g: A -> Entry)
    requires 0 <= i < |xs|
    ensures Collect(MapSeq(xs[..i + 1], g)) == Step(Collect(MapSeq(xs[..i], g)), g(xs[i]))
  {
    assert xs[..i + 1][..i] == xs[..i];
  }

  /** The loop body of lines 67-91 for one walked file. */
  method RecordFile(f: WalkFile, env: WalkEnv, c: Clusters) returns (next: Clusters)
    ensures next == Step(c, Classify(f, env))
  {
    next := c;
    if EndsWith(f.name, ".d") {
      var dFilePath := PathJoin(f.root, f.name);
      if !(env.ignoreDir.Some? && env.ignoreDir.value != "" && Contains(dFilePath, env.ignoreDir.value)) {
        var dependencies, sourceFile := ParseDFile(f.content, env.normpath);
        var relativeDir := env.relpath(f.root, env.depFilesDir);
        var clusterKey := ClusterKey(relativeDir, env.hexdigest);
        next := AddToCluster(c, clusterKey, relativeDir, DepRecord(dependencies, sourceFile));
        ClassifyAccepted(f, env, clusterKey, relativeDir, DepRecord(dependencies, sourceFile));
      } else {
        ClassifyRejected(f, env);
      }
    } else {
      ClassifyRejected(f, env);
    }
  }

  /** The grouping loop of generate_graphs_with_structure (lines 62-91). */
  method GroupDFiles(walk: seq<WalkFile>, env: WalkEnv) returns (clusters: Clusters)
    ensures clusters == Group(walk, env)
  {
    clusters := Clusters([], map[]);
    ghost var classify := (x: WalkFile) => Classify(x, env);
    assert Classified(walk, env) == MapSeq(walk, classify);
    for i := 0 to |walk|
      invariant clusters == Collect(MapSeq(walk[..i], classify))
    {
      CollectSnoc(walk, i, classify);
      clusters := RecordFile(walk[i], env, clusters);
    }
    assert walk[..|walk|] == walk;
  }

  // ---------------------------------------------------------------------
  // render_source_file_graph and render_dir_cluster_file_graph
  // ---------------------------------------------------------------------

  /** The node labels `os.path.basename(dep)` of the dependencies in `order`. */
  function DepLabels(order: seq<string>): (r: seq<string>)
    ensures |r| == |order|
  {
    if order == [] then [] else DepLabels(order[..|order| - 1]) + [Basename(order[|order| - 1])]
  }

  /** The edges `(source_label, dep_label)` for the dependencies in `order`. */
  function DepEdges(sourceLabel: string, order: seq<string>): (r: seq<Edge>)
    ensures |r| == |order|
  {
    if order == [] then [] else DepEdges(sourceLabel, order[..|order| - 1]) + [(sourceLabel, Basename(order[|order| - 1]))]
  }

  lemma {:induction false} DepLabelsAt(order: seq<string>, j: int)
    requires 0 <= j < |order|
    ensures DepLabels(order)[j] == Basename(order[j])
    decreases |order|
  {
    var init := order[..|order| - 1];
    if j < |init| {
      DepLabelsAt(init, j);
      assert init[j] == order[j];
      assert DepLabels(order)[j] == DepLabels(init)[j];
    }
  }

  lemma {:induction false} DepEdgesAt(sourceLabel: string, order: seq<string>, j: int)
    requires 0 <= j < |order|
    ensures DepEdges(sourceLabel, order)[j] == (sourceLabel, Basename(order[j]))
    decreases |order|
  {
    var init := order[..|order| - 1];
    if j < |init| {
      DepEdgesAt(sourceLabel, init, j);
      assert init[j] == order[j];
      assert DepEdges(sourceLabel, order)[j] == DepEdges(sourceLabel, init)[j];
    }
  }

  /** The node statements a record contributes: its source's label, then
      one per dependency. */
  function FileStmts(r: DepRecord, order: seq<string>): seq<string> {
    [Basename(r.source)] + DepLabels(order)
  }

  /** The edges a record contributes, one per dependency. */
  function FileEdges(r: DepRecord, order: seq<string>): seq<Edge> {
    DepEdges(Basename(r.source), order)
  }

  /** The nodes a record's graph has: the basenames of its source and of
      each dependency. */
  function FileNodes(r: DepRecord): set<string> {
    {Basename(r.source)} + (set d | d in r.deps :: Basename(d))
  }

  /** The edges a record's graph has, as a set. */
  function FileEdgeSet(r: DepRecord): set<Edge> {
    set d | d in r.deps :: (Basename(r.source), Basename(d))
  }

  /** There is one node per distinct label, and one edge per dependency,
      from the source's label to the dependency's. */
  lemma FileGraphFacts(r: DepRecord, order: seq<string>)
    requires Enumerates(order, r.deps)
    ensures NodeSet(FileStmts(r, order)) == FileNodes(r)
    ensures |FileEdges(r, order)| == |r.deps|
    ensures forall e :: e in FileEdges(r, order) <==> e in FileEdgeSet(r)
  {
    var sl := Basename(r.source);
    forall n
      ensures n in NodeSet(FileStmts(r, order)) <==> n in FileNodes(r)
    {
      if n in DepLabels(order) {
        var j :| 0 <= j < |order| && DepLabels(order)[j] == n;
        DepLabelsAt(order, j);
        assert order[j] in r.deps;
      }
      if n in (set d | d in r.deps :: Basename(d)) {
        var d :| d in r.deps && n == Basename(d);
        var j :| 0 <= j < |order| && order[j] == d;
        DepLabelsAt(order, j);
      }
    }
    forall e
      ensures e in FileEdges(r, order) <==> e in FileEdgeSet(r)
    {
      if e in FileEdges(r, order) {
        var j :| 0 <= j < |order| && FileEdges(r, order)[j] == e;
        DepEdgesAt(sl, order, j);
        assert order[j] in r.deps;
      }
      if e in FileEdgeSet(r) {
        var d :| d in r.deps && e == (sl, Basename(d));
        var j :| 0 <= j < |order| && order[j] == d;
        DepEdgesAt(sl, order, j);
        assert FileEdges(r, order)[j] == e;
      }
    }
  }

  /** render_source_file_graph (lines 142-162): the file's own graph, and
      the same nodes and edges added to the overall graph. The set of
      dependencies is visited in some order, returned as `order`. */
  method RenderSourceFileGraph(sourceFile: string, dependencies: set<string>, overallGraph: Digraph)
    returns (fileGraph: Graph, ghost order: seq<string>)
    modifies overallGraph
    ensures Enumerates(order, dependencies)
    ensures fileGraph.nodes == NodeSet(FileStmts(DepRecord(dependencies, sourceFile), order))
    ensures fileGraph.edges == FileEdges(DepRecord(dependencies, sourceFile), order)
    ensures overallGraph.nodeStmts == old(overallGraph.nodeStmts) + FileStmts(DepRecord(dependencies, sourceFile), order)
    ensures overallGraph.edges == old(overallGraph.edges) + FileEdges(DepRecord(dependencies, sourceFile), order)
  {
    var g := new Digraph();
    var sourceLabel := Basename(sourceFile);
    g.AddNode(sourceLabel);
    overallGraph.AddNode(sourceLabel);
    ghost var nodes0, edges0 := overallGraph.nodeStmts, overallGraph.edges;
    var deps := Elements(dependencies);
    order := deps;
    for i := 0 to |deps|
      modifies g, overallGraph
      invariant g != overallGraph
      invariant g.nodeStmts == [sourceLabel] + DepLabels(deps[..i])
      invariant g.edges == DepEdges(sourceLabel, deps[..i])
      invariant overallGraph.nodeStmts == nodes0 + DepLabels(deps[..i])
      invariant overallGraph.edges == edges0 + DepEdges(sourceLabel, deps[..i])
    {
      var dep := deps[i];
      var depLabel := Basename(dep);
      g.AddNode(depLabel);
      g.AddEdge(sourceLabel, depLabel);
      overallGraph.AddNode(depLabel);
      overallGraph.AddEdge(sourceLabel, depLabel);
      assert deps[..i + 1][..i] == deps[..i];
      ghost var labels, edges := DepLabels(deps[..i]), DepEdges(sourceLabel, deps[..i]);
      Regroup([sourceLabel], labels, [depLabel]);
      Regroup(nodes0, labels, [depLabel]);
      Regroup(edges0, edges, [(sourceLabel, depLabel)]);
    }
    assert deps[..|deps|] == deps;
    Regroup(old(overallGraph.nodeStmts), [sourceLabel], DepLabels(deps));
    fileGraph := g.Snapshot();
  }

  /** `orders[j]` is a visiting order of the dependencies of `files[j]`. */
  ghost predicate EnumeratesAll(files: seq<DepRecord>, orders: seq<seq<string>>) {
    |orders| == |files| && forall j :: 0 <= j < |files| ==> Enumerates(orders[j], files[j].deps)
  }

  /** The node statements for a list of records, each visited in its order. */
  function ClusterStmts(files: seq<DepRecord>, orders: seq<seq<string>>): seq<string>
    requires |orders| == |files|
  {
    if files == [] then []
    else ClusterStmts(files[..|files| - 1], orders[..|files| - 1]) + FileStmts(files[|files| - 1], orders[|files| - 1])
  }

  /** The edge statements for a list of records, each visited in its order. */
  function ClusterEdges(files: seq<DepRecord>, orders: seq<seq<string>>): seq<Edge>
    requires |orders| == |files|
  {
    if files == [] then []
    else ClusterEdges(files[..|files| - 1], orders[..|files| - 1]) + FileEdges(files[|files| - 1], orders[|files| - 1])
  }

  /** The nodes of a graph drawn from the records: every source's and every
      dependency's basename. */
  function ClusterNodes(files: seq<DepRecord>): set<string> {
    if files == [] then {} else ClusterNodes(files[..|files| - 1]) + FileNodes(files[|files| - 1])
  }

  /** The edges of a graph drawn from the records, as a set. */
  function ClusterEdgeSet(files: seq<DepRecord>): set<Edge> {
    if files == [] then {} else ClusterEdgeSet(files[..|files| - 1]) + FileEdgeSet(files[|files| - 1])
  }

  /** The number of dependencies over all the records. */
  function DepCount(files: seq<DepRecord>): nat {
    if files == [] then 0 else DepCount(files[..|files| - 1]) + |files[|files| - 1].deps|
  }

  /** Whatever the visiting orders, the graph drawn from the records has
      the basenames of all sources and dependencies as nodes, and one edge
      per dependency: node statements for a repeated label collapse, edge
      statements do not. */
  lemma {:induction false} ClusterGraphFacts(files: seq<DepRecord>, orders: seq<seq<string>>)
    requires EnumeratesAll(files, orders)
    ensures NodeSet(ClusterStmts(files, orders)) == ClusterNodes(files)
    ensures |ClusterEdges(files, orders)| == DepCount(files)
    ensures forall e :: e in ClusterEdges(files, orders) <==> e in ClusterEdgeSet(files)
    decreases |files|
  {
    if files != [] {
      var n := |files| - 1;
      var init, oinit := files[..n], orders[..n];
      assert EnumeratesAll(init, oinit) by {
        forall j | 0 <= j < n ensures Enumerates(oinit[j], init[j].deps) {
          assert oinit[j] == orders[j] && init[j] == files[j];
        }
      }
      ClusterGraphFacts(init, oinit);
      FileGraphFacts(files[n], orders[n]);
      NodeSetAppend(ClusterStmts(init, oinit), FileStmts(files[n], orders[n]));
    }
  }

  /** Lines 128-134 for one record: its source's node, then a node and an
      edge per dependency, added to the graph `g`. */
  method AddFileToGraph(g: Digraph, sourceFile: string, dependencies: set<string>) returns (ghost order: seq<string>)
    modifies g
    ensures Enumerates(order, dependencies)
    ensures g.nodeStmts == old(g.nodeStmts) + FileStmts(DepRecord(dependencies, sourceFile), order)
    ensures g.edges == old(g.edges) + FileEdges(DepRecord(dependencies, sourceFile), order)
  {
    var sourceLabel := Basename(sourceFile);
    g.AddNode(sourceLabel);
    ghost var nodes0, edges0 := g.nodeStmts, g.edges;
    var deps := Elements(dependencies);
    order := deps;
    for i := 0 to |deps|
      modifies g
      invariant g.nodeStmts == nodes0 + DepLabels(deps[..i])
      invariant g.edges == edges0 + DepEdges(sourceLabel, deps[..i])
    {
      var dep := deps[i];
      var depLabel := Basename(dep);
      g.AddNode(depLabel);
      g.AddEdge(sourceLabel, depLabel);
      assert deps[..i + 1][..i] == deps[..i];
      ghost var labels, edges := DepLabels(deps[..i]), DepEdges(sourceLabel, deps[..i]);
      Regroup(nodes0, labels, [depLabel]);
      Regroup(edges0, edges, [(sourceLabel, depLabel)]);
    }
    assert deps[..|deps|] == deps;
    Regroup(old(g.nodeStmts), [sourceLabel], DepLabels(deps));
  }

  /** The cluster graph of lines 119-134: emptied by `clear()`, then given
      the nodes and edges of every record of the cluster. */
  method BuildClusterGraph(files: seq<DepRecord>) returns (clusterGraph: Graph, ghost orders: seq<seq<string>>)
    ensures EnumeratesAll(files, orders)
    ensures clusterGraph.nodes == NodeSet(ClusterStmts(files, orders)) == ClusterNodes(files)
    ensures clusterGraph.edges == ClusterEdges(files, orders)
    ensures |clusterGraph.edges| == DepCount(files)
    ensures forall e :: e in clusterGraph.edges <==> e in ClusterEdgeSet(files)
  {
    var g := new Digraph();
    orders := [];
    for j := 0 to |files|
      modifies g
      invariant EnumeratesAll(files[..j], orders)
      invariant g.nodeStmts == ClusterStmts(files[..j], orders)
      invariant g.edges == ClusterEdges(files[..j], orders)
    {
      var order := AddFileToGraph(g, files[j].source, files[j].deps);
      assert files[..j + 1][..j] == files[..j] && (orders + [order])[..j] == orders;
      orders := orders + [order];
    }
    assert files[..|files|] == files;
    ClusterGraphFacts(files, orders);
    clusterGraph := g.Snapshot();
  }

  /** `g` is what one record draws: the basenames of its source and
      dependencies as nodes, and one edge per dependency, from the source's
      basename to the dependency's. */
  ghost predicate FileDrawnFrom(g: Graph, r: DepRecord) {
    && g.nodes == FileNodes(r)
    && |g.edges| == |r.deps|
    && forall e :: e in g.edges <==> e in FileEdgeSet(r)
  }

  /** One graph per record, each drawn from its record. */
  ghost predicate FilesDrawnFrom(gs: seq<Graph>, files: seq<DepRecord>) {
    |gs| == |files| && forall j :: 0 <= j < |files| ==> FileDrawnFrom(gs[j], files[j])
  }

  /** `g` is what the records draw together: all their basenames as nodes,
      one edge per dependency, and exactly their (source, dependency) pairs. */
  ghost predicate DrawnFrom(g: Graph, files: seq<DepRecord>) {
    && g.nodes == ClusterNodes(files)
    && |g.edges| == DepCount(files)
    && forall e :: e in g.edges <==> e in ClusterEdgeSet(files)
  }

  /** A cluster's graph and its records' own graphs. */
  ghost predicate ClusterDrawnFrom(clusterGraph: Graph, fileGraphs: seq<Graph>, files: seq<DepRecord>) {
    DrawnFrom(clusterGraph, files) && FilesDrawnFrom(fileGraphs, files)
  }

  /** Lines 112-134 for one cluster: every record's own graph, added also
      to the overall graph, then the cluster graph. */
  method RenderCluster(files: seq<DepRecord>, overallGraph: Digraph)
    returns (clusterGraph: Graph, fileGraphs: seq<Graph>, ghost orders: seq<seq<string>>)
    modifies overallGraph
    ensures EnumeratesAll(files, orders)
    ensures |fileGraphs| == |files|
    ensures forall j :: 0 <= j < |files| ==>
      fileGraphs[j] == Graph(NodeSet(FileStmts(files[j], orders[j])), FileEdges(files[j], orders[j]))
    ensures overallGraph.nodeStmts == old(overallGraph.nodeStmts) + ClusterStmts(files, orders)
    ensures overallGraph.edges == old(overallGraph.edges) + ClusterEdges(files, orders)
    ensures ClusterDrawnFrom(clusterGraph, fileGraphs, files)
  {
    fileGraphs, orders := [], [];
    for j := 0 to |files|
      modifies overallGraph
      invariant EnumeratesAll(files[..j], orders)
      invariant |fileGraphs| == j
      invariant forall k :: 0 <= k < j ==>
        fileGraphs[k] == Graph(NodeSet(FileStmts(files[k], orders[k])), FileEdges(files[k], orders[k]))
      invariant overallGraph.nodeStmts == old(overallGraph.nodeStmts) + ClusterStmts(files[..j], orders)
      invariant overallGraph.edges == old(overallGraph.edges) + ClusterEdges(files[..j], orders)
    {
      ghost var stmts, edges := ClusterStmts(files[..j], orders), ClusterEdges(files[..j], orders);
      var fileGraph, order := RenderSourceFileGraph(files[j].source, files[j].deps, overallGraph);
      assert files[..j + 1][..j] == files[..j] && (orders + [order])[..j] == orders;
      Regroup(old(overallGraph.nodeStmts), stmts, FileStmts(files[j], order));
      Regroup(old(overallGraph.edges), edges, FileEdges(files[j], order));
      fileGraphs, orders := fileGraphs + [fileGraph], orders + [order];
    }
    assert files[..|files|] == files;
    forall j | 0 <= j < |files|
      ensures FileDrawnFrom(fileGraphs[j], files[j])
    {
      FileGraphFacts(files[j], orders[j]);
    }
    ghost var clusterOrders;
    clusterGraph, clusterOrders := BuildClusterGraph(files);
  }

  /** Visiting orders for the records of every cluster `keys` names. */
  ghost predicate EnumeratesDir(keys: seq<string>, table: map<string, Cluster>, orders: seq<seq<seq<string>>>)
    requires forall k :: k in keys ==> k in table
  {
    |orders| == |keys| && forall i :: 0 <= i < |keys| ==> EnumeratesAll(table[keys[i]].files, orders[i])
  }

  /** Extending the clusters by one extends their visiting orders by one. */
  lemma EnumeratesDirSnoc(keys: seq<string>, i: nat, table: map<string, Cluster>, orders: seq<seq<seq<string>>>, o: seq<seq<string>>)
    requires i < |keys| && forall k :: k in keys ==> k in table
    requires EnumeratesDir(keys[..i], table, orders)
    requires EnumeratesAll(table[keys[i]].files, o)
    ensures EnumeratesDir(keys[..i + 1], table, orders + [o])
  {
    forall h | 0 <= h < i + 1
      ensures EnumeratesAll(table[keys[..i + 1][h]].files, (orders + [o])[h])
    {
      if h < i {
        assert keys[..i + 1][h] == keys[..i][h] && (orders + [o])[h] == orders[h];
      }
    }
  }

  /** The node statements issued for the clusters `keys` names, in order. */
  function DirStmts(keys: seq<string>, table: map<string, Cluster>, orders: seq<seq<seq<string>>>): seq<string>
    requires forall k :: k in keys ==> k in table
    requires |orders| == |keys|
    requires forall i :: 0 <= i < |keys| ==> |orders[i]| == |table[keys[i]].files|
  {
    if keys == [] then []
    else
      var n := |keys| - 1;
      DirStmts(keys[..n], table, orders[..n]) + ClusterStmts(table[keys[n]].files, orders[n])
  }

  /** The edge statements issued for the clusters `keys` names, in order. */
  function DirEdges(keys: seq<string>, table: map<string, Cluster>, orders: seq<seq<seq<string>>>): seq<Edge>
    requires forall k :: k in keys ==> k in table
    requires |orders| == |keys|
    requires forall i :: 0 <= i < |keys| ==> |orders[i]| == |table[keys[i]].files|
  {
    if keys == [] then []
    else
      var n := |keys| - 1;
      DirEdges(keys[..n], table, orders[..n]) + ClusterEdges(table[keys[n]].files, orders[n])
  }

  /** The basenames of every source and dependency in the clusters. */
  function DirNodes(keys: seq<string>, table: map<string, Cluster>): set<string>
    requires forall k :: k in keys ==> k in table
  {
    if keys == [] then {} else DirNodes(keys[..|keys| - 1], table) + ClusterNodes(table[keys[|keys| - 1]].files)
  }

  /** The parent/child pairs of every record in the clusters. */
  function DirEdgeSet(keys: seq<string>, table: map<string, Cluster>): set<Edge>
    requires forall k :: k in keys ==> k in table
  {
    if keys == [] then {} else DirEdgeSet(keys[..|keys| - 1], table) + ClusterEdgeSet(table[keys[|keys| - 1]].files)
  }

  /** The number of dependencies over every record in the clusters. */
  function DirDepCount(keys: seq<string>, table: map<string, Cluster>): nat
    requires forall k :: k in keys ==> k in table
  {
    if keys == [] then 0 else DirDepCount(keys[..|keys| - 1], table) + DepCount(table[keys[|keys| - 1]].files)
  }

  /** Whatever the visiting orders, the overall graph drawn from all the
      clusters has every basename as a node and one edge per dependency. */
  lemma {:induction false} DirGraphFacts(keys: seq<string>, table: map<string, Cluster>, orders: seq<seq<seq<string>>>)
    requires forall k :: k in keys ==> k in table
    requires EnumeratesDir(keys, table, orders)
    ensures NodeSet(DirStmts(keys, table, orders)) == DirNodes(keys, table)
    ensures |DirEdges(keys, table, orders)| == DirDepCount(keys, table)
    ensures forall e :: e in DirEdges(keys, table, orders) <==> e in DirEdgeSet(keys, table)
    decreases |keys|
  {
    if keys != [] {
      var n := |keys| - 1;
      var files := table[keys[n]].files;
      assert EnumeratesDir(keys[..n], table, orders[..n]) by {
        forall i | 0 <= i < n ensures EnumeratesAll(table[keys[..n][i]].files, orders[..n][i]) {
          assert keys[..n][i] == keys[i] && orders[..n][i] == orders[i];
        }
      }
      DirGraphFacts(keys[..n], table, orders[..n]);
      ClusterGraphFacts(files, orders[n]);
      NodeSetAppend(DirStmts(keys[..n], table, orders[..n]), ClusterStmts(files, orders[n]));
    }
  }

  /** One more cluster adds its statements after those of the earlier ones. */
  lemma DirSnoc(keys: seq<string>, i: nat, table: map<string, Cluster>, orders: seq<seq<seq<string>>>, o: seq<seq<string>>)
    requires i < |keys| && forall k :: k in keys ==> k in table
    requires EnumeratesDir(keys[..i], table, orders)
    requires EnumeratesAll(table[keys[i]].files, o)
    ensures EnumeratesDir(keys[..i + 1], table, orders + [o])
    ensures DirStmts(keys[..i + 1], table, orders + [o]) == DirStmts(keys[..i], table, orders) + ClusterStmts(table[keys[i]].files, o)
    ensures DirEdges(keys[..i + 1], table, orders + [o]) == DirEdges(keys[..i], table, orders) + ClusterEdges(table[keys[i]].files, o)
  {
    EnumeratesDirSnoc(keys, i, table, orders, o);
    assert keys[..i + 1][..i] == keys[..i] && keys[..i + 1][i] == keys[i];
    assert (orders + [o])[..i] == orders && (orders + [o])[i] == o;
  }

  /** One more cluster drawn extends the list of drawn clusters. */
  lemma ClusterDrawnSnoc(keys: seq<string>, table: map<string, Cluster>, i: nat,
                         clusterGraphs: seq<Graph>, fileGraphs: seq<seq<Graph>>, clusterGraph: Graph, clusterFileGraphs: seq<Graph>)
    requires i < |keys| && forall k :: k in keys ==> k in table
    requires |clusterGraphs| == i && |fileGraphs| == i
    requires forall h :: 0 <= h < i ==> ClusterDrawnFrom(clusterGraphs[h], fileGraphs[h], table[keys[h]].files)
    requires ClusterDrawnFrom(clusterGraph, clusterFileGraphs, table[keys[i]].files)
    ensures forall h :: 0 <= h < i + 1 ==>
      ClusterDrawnFrom((clusterGraphs + [clusterGraph])[h], (fileGraphs + [clusterFileGraphs])[h], table[keys[h]].files)
  {
    forall h | 0 <= h < i + 1
      ensures ClusterDrawnFrom((clusterGraphs + [clusterGraph])[h], (fileGraphs + [clusterFileGraphs])[h], table[keys[h]].files)
    {
      if h < i {
        assert (clusterGraphs + [clusterGraph])[h] == clusterGraphs[h];
        assert (fileGraphs + [clusterFileGraphs])[h] == fileGraphs[h];
      }
    }
  }

  /** render_dir_cluster_file_graph (lines 101-134): the clusters in
      insertion order, each rendered by `RenderCluster`. The overall graph
      receives every record's nodes and edges, cluster by cluster. */
  method RenderDirClusterFileGraph(clusters: Clusters, overallGraph: Digraph)
    returns (clusterGraphs: seq<Graph>, fileGraphs: seq<seq<Graph>>, ghost orders: seq<seq<seq<string>>>)
    requires forall k :: k in clusters.keys ==> k in clusters.table
    modifies overallGraph
    ensures EnumeratesDir(clusters.keys, clusters.table, orders)
    ensures overallGraph.nodeStmts == old(overallGraph.nodeStmts) + DirStmts(clusters.keys, clusters.table, orders)
    ensures overallGraph.edges == old(overallGraph.edges) + DirEdges(clusters.keys, clusters.table, orders)
    ensures |clusterGraphs| == |clusters.keys| && |fileGraphs| == |clusters.keys|
    ensures forall i :: 0 <= i < |clusters.keys| ==>
      ClusterDrawnFrom(clusterGraphs[i], fileGraphs[i], clusters.table[clusters.keys[i]].files)
  {
    var keys, table := clusters.keys, clusters.table;
    clusterGraphs, fileGraphs, orders := [], [], [];
    for i := 0 to |keys|
      modifies overallGraph
      invariant |clusterGraphs| == i && |fileGraphs| == i
      invariant forall h :: 0 <= h < i ==> ClusterDrawnFrom(clusterGraphs[h], fileGraphs[h], table[keys[h]].files)
      invariant EnumeratesDir(keys[..i], table, orders)
      invariant overallGraph.nodeStmts == old(overallGraph.nodeStmts) + DirStmts(keys[..i], table, orders)
      invariant overallGraph.edges == old(overallGraph.edges) + DirEdges(keys[..i], table, orders)
    {
      var files := table[keys[i]].files;
      ghost var stmts, edges := DirStmts(keys[..i], table, orders), DirEdges(keys[..i], table, orders);
      var clusterGraph, clusterFileGraphs, clusterOrders := RenderCluster(files, overallGraph);
      EnumeratesDirSnoc(keys, i, table, orders, clusterOrders);
      DirSnoc(keys, i, table, orders, clusterOrders);
      Regroup(old(overallGraph.nodeStmts), stmts, ClusterStmts(files, clusterOrders));
      Regroup(old(overallGraph.edges), edges, ClusterEdges(files, clusterOrders));
      ClusterDrawnSnoc(keys, table, i, clusterGraphs, fileGraphs, clusterGraph, clusterFileGraphs);
      clusterGraphs, fileGraphs := clusterGraphs + [clusterGraph], fileGraphs + [clusterFileGraphs];
      orders := orders + [clusterOrders];
    }
    assert keys[..|keys|] == keys;
  }

  /** generate_graphs_with_structure (lines 49-98) without the rendering to
      disk: the clusters, the cluster graphs in key order, and the overall
      graph, whose nodes are the basenames of every source and dependency
      recorded and which has one edge per recorded dependency. */
  method GenerateGraphsWithStructure(walk: seq<WalkFile>, env: WalkEnv)
    returns (clusters: Clusters, clusterGraphs: seq<Graph>, fileGraphs: seq<seq<Graph>>, overall: Graph)
    ensures clusters == Group(walk, env)
    ensures forall k :: k in clusters.keys ==> k in clusters.table
    ensures overall.nodes == DirNodes(clusters.keys, clusters.table)
    ensures |overall.edges| == DirDepCount(clusters.keys, clusters.table)
    ensures forall e :: e in overall.edges <==> e in DirEdgeSet(clusters.keys, clusters.table)
    ensures |clusterGraphs| == |clusters.keys| && |fileGraphs| == |clusters.keys|
    ensures forall i :: 0 <= i < |clusters.keys| ==>
      ClusterDrawnFrom(clusterGraphs[i], fileGraphs[i], clusters.table[clusters.keys[i]].files)
  {
    var overallGraph := new Digraph();
    clusters := GroupDFiles(walk, env);
    CollectKeys(Classified(walk, env));
    ghost var orders;
    clusterGraphs, fileGraphs, orders := RenderDirClusterFileGraph(clusters, overallGraph);
    DirGraphFacts(clusters.keys, clusters.table, orders);
    overall := overallGraph.Snapshot();
  }
}
