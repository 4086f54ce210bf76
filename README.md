# Include-graph reconstruction, modelled in Dafny

The repository's Python tools turn compiler text output into graphviz
include graphs, through two pipelines:

- **`python_tools/gen_full_inc_tree.py`** runs each compile command with
  `-H` added. `modify_command` does the rewriting and substitutes `@file`
  response files. `parse_dep_file` reads the resulting indented trace into
  `(depth, identifier)` entries. `generate_graph_for_dep_file` rebuilds the
  include tree from the depths alone, using an ancestor stack.
- **`python_tools/gen_flat_inc_tree.py`** parses flat Makefile `.d` rules
  (`parse_d_file`). `generate_graphs_with_structure` groups the parsed
  records into per-directory clusters keyed by `generate_cluster_key`.
  `render_source_file_graph` and `render_dir_cluster_file_graph` then draw
  one graph per source file, one per cluster and one overall graph.

The model lives in five modules:

- `Options`: an `Option` type.
- `PyStr`: the Python string, list and path builtins the scripts use, each
  with the facts the rest depends on — `str.strip`, `lstrip(".")`,
  `replace`, `split()`, `" ".join`, `in`, `list.index`, `list.insert`,
  `os.path.basename` and `os.path.join`, plus iteration over a set.
- `Graphs`: the graphviz `Digraph` object as a class recording its node and
  edge statements, and the `Graph` value it renders, which is a node set
  plus an edge sequence.
- `FullIncTree` and `FlatIncTree`: one module per script.

The scripts are imperative, and so is the model of their loops. Each loop
is a method whose contract ties its result, or the new state of the graph
objects, to a recursive specification function. Lemmas prove the scripts'
promises about those functions.

File, directory and process I/O are inputs:

- The lines of a trace file and the content of a `.d` file are parameters.
- The reading of a response file is the parameter `readFile`.
- The directory walk is a sequence of (directory, file name, content)
  entries.
- `os.path.normpath`, `os.path.relpath` and the SHA-256 hex digest are
  function parameters.

## Model

| member | source | states |
|---|---|---|
| PyStr.Strip | python_tools/gen_full_inc_tree.py:106 | `str.strip()`: the result is no longer than the input and begins and ends with no whitespace |
| PyStr.LStripRemovesSpace | python_tools/gen_full_inc_tree.py:109 | `lstrip()` removes exactly a leading run of whitespace: the result is a suffix of the input and every removed character is whitespace |
| PyStr.RStripRemovesSpace | python_tools/gen_full_inc_tree.py:109 | `rstrip()` removes exactly a trailing run of whitespace: the result is a prefix of the input and every removed character is whitespace |
| PyStr.StripEmpty | python_tools/gen_full_inc_tree.py:106 | `line.strip()` is empty exactly when every character of the line is whitespace |
| PyStr.StripStripped | python_tools/gen_flat_inc_tree.py:23 | stripping text that is already stripped leaves it unchanged |
| PyStr.LStripCharRemovesRun | python_tools/gen_full_inc_tree.py:107 | `lstrip(c)` removes exactly the leading run of `c`, and what is left does not start with `c` |
| PyStr.LStripCharRun | python_tools/gen_full_inc_tree.py:107-109 | `lstrip(c)` of a run of `c` followed by text not starting with `c` is that text |
| PyStr.LStripSpaceRun | python_tools/gen_full_inc_tree.py:109 | `lstrip()` of a whitespace run followed by text not starting with whitespace is that text |
| PyStr.RStripSpaceRun | python_tools/gen_full_inc_tree.py:109 | `rstrip()` of text not ending in whitespace followed by a whitespace run is that text |
| PyStr.ReplaceCharAt | python_tools/gen_full_inc_tree.py:15 | `replace(a, b)` keeps the length and changes each `a`, and only each `a`, into `b` |
| PyStr.ReplaceRemoves | python_tools/gen_full_inc_tree.py:109 | after `replace(a, b)` with `a != b`, no `a` is left |
| PyStr.ReplaceKeepsStripped | python_tools/gen_full_inc_tree.py:109 | replacing characters by a non-whitespace character keeps a stripped string stripped |
| PyStr.ReplaceAbsent | python_tools/gen_flat_inc_tree.py:19 | `replace(a, b)` leaves text without `a` unchanged |
| PyStr.FindChar | python_tools/gen_flat_inc_tree.py:21 | the position of the first occurrence of a character, or -1 exactly when it is absent |
| PyStr.ContainsExtend | python_tools/gen_flat_inc_tree.py:68 | text that contains `sub` still contains it with more text after it |
| PyStr.Words | python_tools/gen_flat_inc_tree.py:24 | `split()` yields only non-empty tokens free of whitespace |
| PyStr.WordsCons | python_tools/gen_full_inc_tree.py:21 | splitting a word followed by whitespace and more text gives that word, then the split of the rest |
| PyStr.WordsSkipSpace | python_tools/gen_flat_inc_tree.py:24 | `split()` skips a leading whitespace character of any kind: space, tab, newline and the rest |
| PyStr.WordsSkipRun | python_tools/gen_flat_inc_tree.py:24 | `split()` skips any leading run of whitespace |
| PyStr.WordsSep | python_tools/gen_flat_inc_tree.py:24 | a word, then any non-empty whitespace run (newlines included), then more text splits into the word followed by the words of the rest |
| PyStr.WordsOfJoin | python_tools/gen_full_inc_tree.py:21-35 | splitting the `" ".join` of whitespace-free, non-empty tokens gives back the tokens |
| PyStr.JoinExcludes | python_tools/gen_full_inc_tree.py:35 | a character other than space that is in none of the tokens is not in their `" ".join` |
| PyStr.IndexOf | python_tools/gen_full_inc_tree.py:33 | `list.index(x)`: a position holding `x` with no earlier `x` |
| PyStr.InsertSlot | python_tools/gen_full_inc_tree.py:34 | where `list.insert(i, x)` puts `x`: at `i` when `0 <= i <= n`, at `n + i` for a negative `i` within range, at 0 for `i < -n` and at `n` for `i > n` |
| PyStr.InsertShifts | python_tools/gen_full_inc_tree.py:34 | `list.insert` lengthens the list by one, puts `x` at its slot, and keeps every other element in order |
| PyStr.InsertMultiset | python_tools/gen_full_inc_tree.py:34 | `list.insert` adds exactly one `x` and removes nothing |
| PyStr.BasenameIsLastComponent | python_tools/gen_flat_inc_tree.py:44 | `os.path.basename` is the suffix after the last `/`: it has no `/`, and it is either the whole path or preceded by a `/` |
| PyStr.PathJoin | python_tools/gen_full_inc_tree.py:12 | `os.path.join(a, b)` is `b` itself when `b` is absolute; otherwise it starts with `a`, ends with `b`, and is `a + b` or `a + "/" + b`, the `/` being added exactly when `a` is non-empty and does not end in `/` |
| PyStr.Elements | python_tools/gen_flat_inc_tree.py:155 | iterating over a set visits each element exactly once, in some order |
| Graphs.NodeSetAppend | python_tools/gen_flat_inc_tree.py:159 | the nodes of two runs of node statements are the union of their nodes |
| Graphs.Digraph.AddNode | python_tools/gen_flat_inc_tree.py:152 | `node(name)` appends one node statement and leaves the edges alone |
| Graphs.Digraph.AddEdge | python_tools/gen_flat_inc_tree.py:158 | `edge(tail, head)` appends one edge and leaves the node statements alone |
| FullIncTree.ReadResponseFile | python_tools/gen_full_inc_tree.py:9-16 | the file named by the token without its `@`, under the build directory, with every newline (and nothing else) turned into a space; no newline is left |
| FullIncTree.SubstituteAll | python_tools/gen_full_inc_tree.py:22-29 | the list has one element per token: an `@` token becomes its response file's content, and any other token is kept |
| FullIncTree.HeaderFlagPlacement | python_tools/gen_full_inc_tree.py:32-34 | with the first `-o` at position `o > 0`, `-H` goes in at `o - 1`, before the token preceding `-o`; with `-o` first, index -1 puts it before the last token; exactly one `-H` is added and nothing else changes |
| FullIncTree.PlainCommandKeepsTokens | python_tools/gen_full_inc_tree.py:19-35 | a command with no `@` token and no `-o` comes back with exactly its own tokens |
| FullIncTree.ModifyCommand | python_tools/gen_full_inc_tree.py:19-35 | the loop and insertion compute the substituted tokens, with `-H` inserted when `-o` is present, rejoined with single spaces; with no `-o` it is just the rejoined substituted tokens |
| FullIncTree.Depth | python_tools/gen_full_inc_tree.py:107 | the depth never exceeds the line length |
| FullIncTree.DepthCountsDots | python_tools/gen_full_inc_tree.py:107 | a line's depth is exactly the number of `.` characters that start it |
| FullIncTree.NodeName | python_tools/gen_full_inc_tree.py:109 | the identifier is stripped of whitespace, contains no `:`, and is no longer than the line |
| FullIncTree.StripDots | python_tools/gen_full_inc_tree.py:109 | `strip().lstrip(".").strip()` gives a stripped string no longer than the line |
| FullIncTree.NodeNameAt | python_tools/gen_full_inc_tree.py:109 | the identifier has the length of the dot-stripped text, and each of its characters is `-` where that text has `:` and the same character elsewhere |
| FullIncTree.StripDotsOfHeaderLine | python_tools/gen_full_inc_tree.py:107-109 | for a line of dots, whitespace, a stripped path and trailing whitespace, the depth is the number of dots and the strip chain gives exactly the path, leading `../` kept |
| FullIncTree.ParseHeaderLine | python_tools/gen_full_inc_tree.py:106-110 | such a line parses to (number of dots, the path with each `:` turned into `-`) |
| FullIncTree.ParseLineShape | python_tools/gen_full_inc_tree.py:106-110 | a line yields an entry exactly when its strip is non-empty; the entry's depth counts the leading dots, and its identifier is stripped and free of `:` |
| FullIncTree.BlankAllSpace | python_tools/gen_full_inc_tree.py:106 | a line is blank exactly when all its characters are whitespace |
| FullIncTree.LinesBeforeSentinel | python_tools/gen_full_inc_tree.py:99-104 | the lines before the first sentinel line, none of which holds the sentinel |
| FullIncTree.SentinelInAppend | python_tools/gen_full_inc_tree.py:99-104 | two runs of lines hold the sentinel exactly when one of them does |
| FullIncTree.TraceAppend | python_tools/gen_full_inc_tree.py:98-110 | the entries of two runs of lines: those of the first, then those of the second unless the first reached the sentinel |
| FullIncTree.TraceSnoc | python_tools/gen_full_inc_tree.py:100-110 | one more line adds nothing once the sentinel has been seen, or when it is the sentinel; otherwise it adds its own entry, if any |
| FullIncTree.SentinelEndsTrace | python_tools/gen_full_inc_tree.py:99-106 | the sentinel line and every line after it contribute no entries, however well-formed |
| FullIncTree.BlankHasNoSentinel | python_tools/gen_full_inc_tree.py:102-106 | a whitespace-only line does not hold the sentinel |
| FullIncTree.BlankLineSkipped | python_tools/gen_full_inc_tree.py:106 | removing a whitespace-only line, wherever it is, does not change the entries |
| FullIncTree.TraceLength | python_tools/gen_full_inc_tree.py:100-110 | there are at most as many entries as lines before the sentinel |
| FullIncTree.TraceEntryOrigin | python_tools/gen_full_inc_tree.py:100-110 | every entry is what one line before the sentinel parses to, on its own |
| FullIncTree.TraceEntriesWellShaped | python_tools/gen_full_inc_tree.py:107-109 | every returned depth counts the leading dots of a line before the sentinel, and every identifier is stripped and free of `:` |
| FullIncTree.ParseDepFile | python_tools/gen_full_inc_tree.py:92-113 | the loop with its `include_guards_section` flag returns the entries of the lines before the sentinel, in order, at most one per line |
| FullIncTree.WellFormedIff | python_tools/gen_full_inc_tree.py:151-168 | the shape the stack loop assumes, position by position: the first depth is 1, every depth is at least 1, and each depth is at most one more than the previous |
| FullIncTree.WellFormedPrefix | python_tools/gen_full_inc_tree.py:146-168 | every prefix of a well-formed trace is well-formed |
| FullIncTree.LastIndexAt | python_tools/gen_full_inc_tree.py:151-168 | the most recent entry at a given depth, or -1 |
| FullIncTree.LastIndexAtIsLast | python_tools/gen_full_inc_tree.py:151-168 | no later entry is at that depth |
| FullIncTree.AncestorExists | python_tools/gen_full_inc_tree.py:151-168 | in a well-formed trace, every depth from 1 to the current one has an earlier entry |
| FullIncTree.Push | python_tools/gen_full_inc_tree.py:154-167 | one step on `node_stack`: a root resets it to exactly that entry; after an entry at depth D the stack has at least D slots and slot D-1 holds the entry |
| FullIncTree.PushKeeps | python_tools/gen_full_inc_tree.py:163-167 | a deeper entry leaves the slots above its own unchanged |
| FullIncTree.StackAfter | python_tools/gen_full_inc_tree.py:146-167 | after any entry at depth D, `len(node_stack) >= D` and `node_stack[D-1]` is that entry |
| FullIncTree.StackHoldsAncestors | python_tools/gen_full_inc_tree.py:146-167 | for every depth d up to the current entry's, slot d-1 holds the most recent entry at depth d, despite the stale deeper slots the overwrite leaves behind |
| FullIncTree.EdgesIntoNodes | python_tools/gen_full_inc_tree.py:155-168 | one edge per entry deeper than 1 and none per root; edge j leads into the j-th deeper entry |
| FullIncTree.ParentEdgesPrefix | python_tools/gen_full_inc_tree.py:146-168 | the edges of a prefix of the trace are a prefix of the edges |
| FullIncTree.Extend | python_tools/gen_full_inc_tree.py:146-168 | appending an entry that fits keeps the trace well-formed and adds that entry's edge |
| FullIncTree.LastEdge | python_tools/gen_full_inc_tree.py:161-168 | the edge of a deeper last entry comes from the most recent earlier entry one level up |
| FullIncTree.ParentEdgeOf | python_tools/gen_full_inc_tree.py:151-168 | for an entry at depth D > 1, its edge is (most recent earlier entry at depth D-1, this entry), at the position that counts the deeper entries before it |
| FullIncTree.ChainExample | python_tools/gen_full_inc_tree.py:151-168 | depths 1,2,3 over A,B,C give the edges (A,B),(B,C) |
| FullIncTree.ParentEdgesExample | python_tools/gen_full_inc_tree.py:151-168 | depths 1,2,3,2,3 over A..E give (A,B),(B,C),(A,D),(D,E) |
| FullIncTree.LoopStep | python_tools/gen_full_inc_tree.py:146-168 | one turn of the stack loop: the index it uses is in range, the stack becomes the `Push` of the old one, and the edge added joins stack slot D-2 to the entry |
| FullIncTree.NamesStep | python_tools/gen_full_inc_tree.py:141-157 | one more entry adds its node statement to the main graph or to the root subgraph, by its depth |
| FullIncTree.NamesAre | python_tools/gen_full_inc_tree.py:141-157 | the node statements name exactly the roots, or exactly the deeper entries |
| FullIncTree.RootSubgraph | python_tools/gen_full_inc_tree.py:136-145 | every depth-1 identifier, and nothing else, is declared in the root subgraph |
| FullIncTree.StackGraph | python_tools/gen_full_inc_tree.py:146-168 | for a well-formed trace, the stack loop draws the deeper entries as nodes and the reference parent edges, one per deeper entry |
| FullIncTree.IncludeGraph | python_tools/gen_full_inc_tree.py:133-168 | the root subgraph holds the roots; the main graph holds the deeper entries and their parent edges |
| FullIncTree.GenerateGraphForDepFile | python_tools/gen_full_inc_tree.py:127-168 | no graph exactly when the trace has no entries; otherwise the roots, the deeper nodes and the parent edges of the parsed trace |
| FlatIncTree.RemoveContinuations | python_tools/gen_flat_inc_tree.py:19 | removing `\`-newline pairs never lengthens the text |
| FlatIncTree.RemoveContinuationsSplit | python_tools/gen_flat_inc_tree.py:19 | a continuation between two pieces of text disappears, and each piece is cleaned on its own |
| FlatIncTree.RemoveContinuationsNoBackslash | python_tools/gen_flat_inc_tree.py:19 | text without a backslash has nothing removed |
| FlatIncTree.RemoveContinuationsKeeps | python_tools/gen_flat_inc_tree.py:19 | text in which no backslash is followed by a newline comes back unchanged: a lone backslash is kept for the second `replace` |
| FlatIncTree.CleanRule | python_tools/gen_flat_inc_tree.py:19 | no backslash survives the cleaning |
| FlatIncTree.CleanRulePlain | python_tools/gen_flat_inc_tree.py:19 | text without backslashes comes out of the cleaning unchanged |
| FlatIncTree.CleanRuleKeeps | python_tools/gen_flat_inc_tree.py:19 | without continuations the cleaning only turns each backslash into `/`, dropping none |
| FlatIncTree.WindowsPath | python_tools/gen_flat_inc_tree.py:19 | the Windows-style path `C:\x\a.h` is cleaned to `C:/x/a.h` |
| FlatIncTree.CleanDeps | python_tools/gen_flat_inc_tree.py:25-26 | one cleaned path per dependency token |
| FlatIncTree.CleanDepsAt | python_tools/gen_flat_inc_tree.py:26 | each token is stripped and normalised |
| FlatIncTree.HeaderDepsAre | python_tools/gen_flat_inc_tree.py:24-28 | a path is kept exactly when it is some token's cleaned form and ends in `.h` or `.hpp` |
| FlatIncTree.DRecordShape | python_tools/gen_flat_inc_tree.py:14-34 | cleaned content with no `:` yields ("", empty set); otherwise only the first `:` divides the target from the dependency tokens |
| FlatIncTree.FirstColon | python_tools/gen_flat_inc_tree.py:21 | `split(":", 1)` cuts at the `:` after a target free of `:`, whatever follows |
| FlatIncTree.WordsAfterSpace | python_tools/gen_flat_inc_tree.py:24 | leading whitespace does not change the dependency tokens |
| FlatIncTree.ParseRule | python_tools/gen_flat_inc_tree.py:19-28 | a one-line rule `target:rest` gives the normalised target and the header tokens of `rest` |
| FlatIncTree.RuleOfTokens | python_tools/gen_flat_inc_tree.py:19-28 | a one-line rule `target: tok ...` with no backslash gives the normalised target and the header paths among its tokens |
| FlatIncTree.RuleExample | python_tools/gen_flat_inc_tree.py:14-28 | the rule `a.o: a.cpp a.h b/b.hpp obj/x.o` gives the record with source `a.o` and dependencies {`a.h`, `b/b.hpp`} |
| FlatIncTree.HeaderExample | python_tools/gen_flat_inc_tree.py:24-28 | of a source, two headers and an object file, only the two headers are kept, as in `a.o: a.cpp a.h b/b.hpp obj/x.o` |
| FlatIncTree.CollectHeaders | python_tools/gen_flat_inc_tree.py:25-28 | the loop adding to `dependencies` collects the header paths of the tokens |
| FlatIncTree.ParseDFile | python_tools/gen_flat_inc_tree.py:9-34 | the function returns the (dependencies, source) record of the file's content, with an unreadable file giving the empty record |
| FlatIncTree.Prefix | python_tools/gen_flat_inc_tree.py:43 | the slice `[:8]`: the first eight characters, or all of a shorter string |
| FlatIncTree.ClusterKeyShape | python_tools/gen_flat_inc_tree.py:37-46 | a key is `cluster_`, the directory's basename, `_`, and the first (at most) eight characters of the digest |
| FlatIncTree.ClusterKeyEqual | python_tools/gen_flat_inc_tree.py:37-46 | with full-length digests, two directories share a key exactly when their basenames and their digest prefixes agree |
| FlatIncTree.MapSeq | python_tools/gen_flat_inc_tree.py:65-66 | one result per walked file |
| FlatIncTree.MapSeqAppend | python_tools/gen_flat_inc_tree.py:65-66 | walking two runs of files classifies them one after the other |
| FlatIncTree.MapSeqAt | python_tools/gen_flat_inc_tree.py:65-66 | the i-th classification is that of the i-th file |
| FlatIncTree.Classified | python_tools/gen_flat_inc_tree.py:65-74 | one classification per walked file |
| FlatIncTree.FirstWithKey | python_tools/gen_flat_inc_tree.py:76-81 | the first accepted file with the key, or -1 exactly when there is none |
| FlatIncTree.CollectKeys | python_tools/gen_flat_inc_tree.py:76-81 | the dictionary's keys are listed once each, and they are exactly the keys of its entries |
| FlatIncTree.KeysInFirstOrder | python_tools/gen_flat_inc_tree.py:76-81 | the dictionary lists its keys in insertion order: each key's first accepted file comes before that of every later key |
| FlatIncTree.CollectClusters | python_tools/gen_flat_inc_tree.py:76-91 | a key has a cluster exactly when some accepted file has that key; the cluster's files are those files' records in walk order; its `"path"` is set by the first of them |
| FlatIncTree.EmptyFilesWithKey | python_tools/gen_flat_inc_tree.py:91 | with no accepted file for a key, no record has that key |
| FlatIncTree.FilesWithKeyHas | python_tools/gen_flat_inc_tree.py:91 | an accepted file's record is among the files of its key |
| FlatIncTree.AcceptedFileFiled | python_tools/gen_flat_inc_tree.py:65-91 | every `.d` file that is not ignored is filed in the cluster keyed by its directory |
| FlatIncTree.RejectedEntryIgnored | python_tools/gen_flat_inc_tree.py:67-70 | an entry that is not accepted changes nothing, wherever it appears |
| FlatIncTree.RejectedFileIgnored | python_tools/gen_flat_inc_tree.py:67-70 | a non-`.d` file, or one whose path contains `ignore_dir`, is in no cluster and changes the dictionary not at all |
| FlatIncTree.ClassifyRejected | python_tools/gen_flat_inc_tree.py:67-70 | a file the filters reject is classified as not accepted |
| FlatIncTree.IgnoredUnderRoot | python_tools/gen_flat_inc_tree.py:67-69 | a non-empty `ignore_dir` occurring in the walked directory rejects every relative file name under it, because the joined path starts with the directory |
| FlatIncTree.ClassifyAccepted | python_tools/gen_flat_inc_tree.py:67-74 | the classification of an accepted file carries its key, directory and record |
| FlatIncTree.AddToCluster | python_tools/gen_flat_inc_tree.py:76-91 | a new key opens a cluster with this directory as `"path"`; the record is appended to that key's `"files"`; no other cluster changes |
| FlatIncTree.CollectSnoc | python_tools/gen_flat_inc_tree.py:65-91 | grouping one more file is one more recording step |
| FlatIncTree.RecordFile | python_tools/gen_flat_inc_tree.py:67-91 | the body of the walk loop records one file as the classification says |
| FlatIncTree.GroupDFiles | python_tools/gen_flat_inc_tree.py:62-91 | the loop over the walk builds the dictionary the walk determines |
| FlatIncTree.DepLabels | python_tools/gen_flat_inc_tree.py:156-157 | one node statement per dependency |
| FlatIncTree.DepEdges | python_tools/gen_flat_inc_tree.py:158 | one edge statement per dependency |
| FlatIncTree.DepLabelsAt | python_tools/gen_flat_inc_tree.py:156-157 | the j-th dependency node is the basename of the j-th dependency visited |
| FlatIncTree.DepEdgesAt | python_tools/gen_flat_inc_tree.py:158 | the j-th edge runs from the source's basename to the j-th dependency's basename |
| FlatIncTree.FileGraphFacts | python_tools/gen_flat_inc_tree.py:151-162 | whatever the visiting order, a file graph's nodes are the source's and dependencies' basenames, and it has exactly \|deps\| edges, namely the (source, dependency) basename pairs |
| FlatIncTree.RenderSourceFileGraph | python_tools/gen_flat_inc_tree.py:142-162 | each dependency, visited once, adds (basename(source), basename(dep)) to both the file graph and the overall graph, which only grows, by exactly those statements |
| FlatIncTree.ClusterGraphFacts | python_tools/gen_flat_inc_tree.py:120-134 | a cluster graph's node set is the basenames of all its sources and dependencies, and its edge count is the sum of \|deps\| over its files: repeated nodes collapse, edges do not |
| FlatIncTree.AddFileToGraph | python_tools/gen_flat_inc_tree.py:128-134 | one record adds its source node, then a node and an edge per dependency |
| FlatIncTree.BuildClusterGraph | python_tools/gen_flat_inc_tree.py:119-134 | the cleared cluster graph receives exactly its files' basenames as nodes and one edge per dependency |
| FlatIncTree.RenderCluster | python_tools/gen_flat_inc_tree.py:111-134 | for one cluster, every file graph and the overall graph's growth are as above; the cluster graph has the cluster's nodes, one edge per dependency and exactly the (source, dependency) basename pairs as edges, and each file graph has its file's nodes, \|deps\| edges and its basename pairs as edges |
| FlatIncTree.EnumeratesDirSnoc | python_tools/gen_flat_inc_tree.py:106-115 | one more cluster adds its files' visiting orders |
| FlatIncTree.DirSnoc | python_tools/gen_flat_inc_tree.py:106-115 | one more cluster appends its own node and edge statements after those of the earlier clusters |
| FlatIncTree.DirGraphFacts | python_tools/gen_flat_inc_tree.py:106-115 | the overall graph drawn from all clusters has every basename as a node and one edge per dependency |
| FlatIncTree.RenderDirClusterFileGraph | python_tools/gen_flat_inc_tree.py:101-134 | clusters are processed in insertion order; the overall graph grows by every record's statements, cluster by cluster; one cluster graph and one list of file graphs per cluster, each with its cluster's (or file's) nodes, edge count and set of basename-pair edges |
| FlatIncTree.GenerateGraphsWithStructure | python_tools/gen_flat_inc_tree.py:49-98 | the clusters are those the walk determines; the overall graph's nodes are every recorded basename, with one edge per recorded dependency and exactly the basename-pair edges; one cluster graph and one list of per-file graphs per cluster, each matching its cluster's or file's records |

## Left out

- Process execution and the `ProcessPoolExecutor` dispatch
  (`generate_dependency_trees`, `process_compile_command`) are not modelled.
  This is external process I/O and concurrency. Reading
  `compile_commands.json` is left out for the same reason.
- File and directory I/O becomes inputs:
  - `open`/`readlines`/`read` become the parameters `lines`, `content` and
    `readFile`;
  - `os.walk` becomes a sequence of walked files;
  - `os.makedirs` and the output file naming (`splitext`, `os.path.join`
    of output paths) are left out;
  - `print` messages are left out.
- `ReadResponseFile` assumes the read succeeds. A missing response file
  raises in the script; the model has no error path for it.
- The `try`/`except` in `parse_d_file`, which prints the error and returns
  the empty record, is modelled by the content `None` ("unreadable"). The
  cause of the failure is not modelled.
- `os.path.normpath`, `os.path.relpath` and SHA-256 are opaque function
  parameters. Their library behaviour is not modelled.
- Graphviz rendering, `GRAPH_STYLE`, the `attr` calls, `rank=source`, node
  labels and the `svg` output are left out. A graph is its node statements
  and its edge statements. Rendering collapses repeated node statements into
  one node and draws every edge statement.
- The cluster's `"graph"` entry is created when the cluster is created
  (line 78) and cleared before use (line 120). It is modelled as a fresh
  graph at line 119, since nothing is added to it before the `clear()`. The
  `Cluster` value therefore has no graph field.
- Python's set iteration order is left open. Each method that iterates a
  set returns a ghost visiting order, proved to list every element exactly
  once, and its contract holds for any such order.
- `StackGraph`, `IncludeGraph` and `GenerateGraphForDepFile` require what
  the script assumes but never checks: the trace is well-formed (first
  depth 1, every depth >= 1, each at most one more than the previous).
  Without it the script either raises `IndexError`, or indexes from the end
  of the stack (a depth of 0), or silently draws an edge from the wrong
  parent. For example, the depths 1,2,3,2,4 over A..E raise nothing at
  lines 164-168. After D the stack is [A, D, C], E is appended, and line 168
  draws (C, E) from the stale slot that C left behind. The model does not
  describe the graph drawn for such traces.
- `HeaderFlagPlacement` follows the code: `-H` is inserted at the index of
  `-o` minus one, so it goes before the token preceding `-o`, not
  immediately before `-o` as the comment on line 34 says.
- The `__main__` blocks (argument handling) are not modelled.
