/**
  The Python string and list builtins the two scripts rely on, written out
  so that their edge cases are those of CPython: `str.isspace`, `strip`,
  `lstrip`, `split()` with no argument, `" ".join`, `replace`, `in` on
  strings, `str.split(":", 1)`, `list.index`, `list.insert`, and the pure
  parts of `posixpath` (`basename`, two-argument `join`).
 */
module PyStr {

  /** `c.isspace()` in Python 3: the ASCII controls 9..13 and 28..31, space
      and the Unicode whitespace characters. */
  predicate IsSpace(c: char) {
    c == ' ' || ('\t' <= c <= '\r') || ('\U{1c}' <= c <= '\U{1f}')
    || c == '\U{85}' || c == '\U{a0}' || c == '\U{1680}'
    || ('\U{2000}' <= c <= '\U{200a}') || c == '\U{2028}' || c == '\U{2029}'
    || c == '\U{202f}' || c == '\U{205f}' || c == '\U{3000}'
  }

  /** Neither end of `s` is whitespace (what `strip()` leaves). */
  predicate IsStripped(s: string) {
    s == [] || (!IsSpace(s[0]) && !IsSpace(s[|s| - 1]))
  }

  /** `s.lstrip()`: `s` without its leading whitespace. */
  function LStrip(s: string): (r: string)
    ensures |r| <= |s|
    ensures r == [] || !IsSpace(r[0])
  {
    if s != [] && IsSpace(s[0]) then LStrip(s[1..]) else s
  }

  /** What `lstrip()` removes is a run of whitespace, and what it keeps is a
      suffix of `s`. */
  lemma {:induction false} LStripRemovesSpace(s: string)
    ensures LStrip(s) == s[|s| - |LStrip(s)|..]
    ensures forall i :: 0 <= i < |s| - |LStrip(s)| ==> IsSpace(s[i])
    decreases |s|
  {
    if s != [] && IsSpace(s[0]) {
      LStripRemovesSpace(s[1..]);
      assert forall i :: 1 <= i < |s| ==> s[1..][i - 1] == s[i];
    }
  }

  /** `s.rstrip()`: `s` without its trailing whitespace. */
  function RStrip(s: string): (r: string)
    ensures |r| <= |s|
    ensures r == [] || !IsSpace(r[|r| - 1])
  {
    if s != [] && IsSpace(s[|s| - 1]) then RStrip(s[..|s| - 1]) else s
  }

  /** What `rstrip()` removes is a run of whitespace, and what it keeps is a
      prefix of `s`. */
  lemma {:induction false} RStripRemovesSpace(s: string)
    ensures RStrip(s) == s[..|RStrip(s)|]
    ensures forall i :: |RStrip(s)| <= i < |s| ==> IsSpace(s[i])
    decreases |s|
  {
    if s != [] && IsSpace(s[|s| - 1]) {
      var p := s[..|s| - 1];
      RStripRemovesSpace(p);
      assert forall i :: 0 <= i < |p| ==> p[i] == s[i];
      assert p[..|RStrip(p)|] == s[..|RStrip(p)|];
    }
  }

  /** `s.strip()`: `s` with whitespace removed at both ends. */
  function Strip(s: string): (r: string)
    ensures |r| <= |s|
    ensures IsStripped(r)
  {
    var l := LStrip(s);
    RStripRemovesSpace(l);
    RStrip(l)
  }

  /** `s.strip()` is empty exactly when `s` is all whitespace. */
  lemma StripEmpty(s: string)
    ensures Strip(s) == [] <==> forall i :: 0 <= i < |s| ==> IsSpace(s[i])
  {
    var l := LStrip(s);
    LStripRemovesSpace(s);
    RStripRemovesSpace(l);
    if l != [] {
      assert !IsSpace(s[|s| - |l|]);
      assert RStrip(l) != [];
    }
  }

  /** Stripping text that has no whitespace at either end changes nothing. */
  lemma StripStripped(s: string)
    requires IsStripped(s)
    ensures Strip(s) == s
  {
    assert LStrip(s) == s;
  }

  /** `lstrip()` removes exactly a whitespace run followed by a non-space. */
  lemma {:induction false} LStripSpaceRun(w: string, p: string)
    requires forall i :: 0 <= i < |w| ==> IsSpace(w[i])
    requires p == [] || !IsSpace(p[0])
    ensures LStrip(w + p) == p
    decreases |w|
  {
    if w == [] {
      assert w + p == p;
    } else {
      assert (w + p)[1..] == w[1..] + p;
      LStripSpaceRun(w[1..], p);
    }
  }

  /** `rstrip()` removes exactly a whitespace run after a non-space. */
  lemma {:induction false} RStripSpaceRun(x: string, t: string)
    requires forall i :: 0 <= i < |t| ==> IsSpace(t[i])
    requires x == [] || !IsSpace(x[|x| - 1])
    ensures RStrip(x + t) == x
    decreases |t|
  {
    if t == [] {
      assert x + t == x;
    } else {
      var t' := t[..|t| - 1];
      assert (x + t)[..|x + t| - 1] == x + t';
      RStripSpaceRun(x, t');
    }
  }

  /** `s.lstrip(c)` for a one-character argument: `s` without its leading run of `c`. */
  function LStripChar(s: string, c: char): (r: string)
    ensures |r| <= |s|
    ensures r == [] || r[0] != c
  {
    if s != [] && s[0] == c then LStripChar(s[1..], c) else s
  }

  /** What `lstrip(c)` removes is a run of `c`, and what it keeps is a
      suffix of `s`. */
  lemma {:induction false} LStripCharRemovesRun(s: string, c: char)
    ensures LStripChar(s, c) == s[|s| - |LStripChar(s, c)|..]
    ensures forall i :: 0 <= i < |s| - |LStripChar(s, c)| ==> s[i] == c
    decreases |s|
  {
    if s != [] && s[0] == c {
      LStripCharRemovesRun(s[1..], c);
      assert forall i :: 1 <= i < |s| ==> s[1..][i - 1] == s[i];
    }
  }

  /** `lstrip(c)` removes exactly a run of `c` followed by another character. */
  lemma {:induction false} LStripCharRun(d: string, c: char, y: string)
    requires forall i :: 0 <= i < |d| ==> d[i] == c
    requires y == [] || y[0] != c
    ensures LStripChar(d + y, c) == y
    decreases |d|
  {
    if d == [] {
      assert d + y == y;
    } else {
      assert (d + y)[1..] == d[1..] + y;
      LStripCharRun(d[1..], c, y);
    }
  }

  /** `s.replace(a, b)` for one-character arguments. */
  function ReplaceChar(s: string, a: char, b: char): (r: string)
    ensures |r| == |s|
  {
    if s == [] then [] else [if s[0] == a then b else s[0]] + ReplaceChar(s[1..], a, b)
  }

  /** Each character of `s.replace(a, b)` is the one of `s`, or `b` where
      `s` has `a`. */
  lemma {:induction false} ReplaceCharAt(s: string, a: char, b: char)
    ensures forall i :: 0 <= i < |s| ==> ReplaceChar(s, a, b)[i] == if s[i] == a then b else s[i]
    decreases |s|
  {
    if s != [] {
      ReplaceCharAt(s[1..], a, b);
      assert forall i :: 1 <= i < |s| ==> s[1..][i - 1] == s[i];
    }
  }

  /** Replacing by a non-whitespace character keeps both ends non-whitespace. */
  lemma ReplaceKeepsStripped(s: string, a: char, b: char)
    requires IsStripped(s) && !IsSpace(b)
    ensures IsStripped(ReplaceChar(s, a, b))
  {
    ReplaceCharAt(s, a, b);
  }

  /** After `replace(a, b)` with `a != b`, no `a` is left. */
  lemma ReplaceRemoves(s: string, a: char, b: char)
    requires a != b
    ensures a !in ReplaceChar(s, a, b)
  {
    ReplaceCharAt(s, a, b);
  }

  /** Replacing a character that does not occur changes nothing. */
  lemma ReplaceAbsent(s: string, a: char, b: char)
    requires a !in s
    ensures ReplaceChar(s, a, b) == s
  {
    ReplaceCharAt(s, a, b);
  }

  /** `sub in s` for strings. */
  predicate Contains(s: string, sub: string)
    decreases |s|
  {
    |sub| <= |s| && (s[..|sub|] == sub || Contains(s[1..], sub))
  }

  /** Text that holds `sub` still holds it with more text after it. */
  lemma {:induction false} ContainsExtend(s: string, z: string, sub: string)
    requires Contains(s, sub)
    ensures Contains(s + z, sub)
    decreases |s|
  {
    assert (s + z)[..|sub|] == s[..|sub|];
    if s[..|sub|] != sub {
      ContainsExtend(s[1..], z, sub);
      assert (s + z)[1..] == s[1..] + z;
    }
  }

  /** `s.startswith(p)`. */
  predicate StartsWith(s: string, p: string) {
    |p| <= |s| && s[..|p|] == p
  }

  /** `s.endswith(p)`. */
  predicate EndsWith(s: string, p: string) {
    |p| <= |s| && s[|s| - |p|..] == p
  }

  /** `s.find(c)`: the index of the first `c` in `s`, or -1. */
  function FindChar(s: string, c: char): (r: int)
    ensures -1 <= r < |s|
    ensures r >= 0 ==> s[r] == c && c !in s[..r]
    ensures r == -1 <==> c !in s
  {
    if s == [] then -1
    else if s[0] == c then 0
    else
      var k := FindChar(s[1..], c);
      assert s[1..][..if k < 0 then 0 else k] == s[1..1 + if k < 0 then 0 else k];
      if k < 0 then -1 else k + 1
  }

  /** Length of the run of non-whitespace characters that starts `s`. */
  function NonSpaceRun(s: string): (n: nat)
    ensures n <= |s|
    ensures forall i :: 0 <= i < n ==> !IsSpace(s[i])
    ensures n == |s| || IsSpace(s[n])
  {
    if s == [] || IsSpace(s[0]) then 0 else 1 + NonSpaceRun(s[1..])
  }

  /** A token as `split()` yields it: non-empty and free of whitespace. */
  predicate IsWord(w: string) {
    w != [] && forall i :: 0 <= i < |w| ==> !IsSpace(w[i])
  }

  /** `s.split()` with no separator: the maximal runs of non-whitespace characters. */
  function Words(s: string): (r: seq<string>)
    ensures forall i :: 0 <= i < |r| ==> IsWord(r[i])
    decreases |s|
  {
    if s == [] then []
    else if IsSpace(s[0]) then Words(s[1..])
    else
      var n := NonSpaceRun(s);
      [s[..n]] + Words(s[n..])
  }

  /** Any whitespace character before the text is skipped by `split()`. */
  lemma WordsSkipSpace(c: char, s: string)
    requires IsSpace(c)
    ensures Words([c] + s) == Words(s)
  {
    assert ([c] + s)[1..] == s;
  }

  /** So is any run of whitespace, whatever its characters. */
  lemma {:induction false} WordsSkipRun(sp: string, s: string)
    requires forall i :: 0 <= i < |sp| ==> IsSpace(sp[i])
    ensures Words(sp + s) == Words(s)
    decreases |sp|
  {
    if sp == [] {
      assert sp + s == s;
    } else {
      assert forall i :: 0 <= i < |sp| - 1 ==> sp[1..][i] == sp[i + 1];
      WordsSkipRun(sp[1..], s);
      assert sp + s == [sp[0]] + (sp[1..] + s);
      WordsSkipSpace(sp[0], sp[1..] + s);
    }
  }

  /** A word, then any non-empty run of whitespace (spaces, tabs,
      newlines, ...), then more text: the word, then the words of the rest. */
  lemma WordsSep(w: string, sp: string, rest: string)
    requires IsWord(w) && sp != []
    requires forall i :: 0 <= i < |sp| ==> IsSpace(sp[i])
    ensures Words(w + sp + rest) == [w] + Words(rest)
  {
    assert w + sp + rest == w + (sp + rest);
    WordsCons(w, sp + rest);
    WordsSkipRun(sp, rest);
  }

  /** `" ".join(xs)`. */
  function Join(xs: seq<string>): string {
    if xs == [] then ""
    else if |xs| == 1 then xs[0]
    else xs[0] + " " + Join(xs[1..])
  }

  /** Splitting a word followed by whitespace-led text yields the word first. */
  lemma {:induction false} WordsCons(w: string, rest: string)
    requires IsWord(w)
    requires rest == [] || IsSpace(rest[0])
    ensures Words(w + rest) == [w] + Words(rest)
  {
    var s := w + rest;
    assert s[0] == w[0];
    NonSpaceRunPrefix(w, rest);
    assert s[..|w|] == w;
    assert s[|w|..] == rest;
  }

  lemma {:induction false} NonSpaceRunPrefix(w: string, rest: string)
    requires forall i :: 0 <= i < |w| ==> !IsSpace(w[i])
    requires rest == [] || IsSpace(rest[0])
    ensures NonSpaceRun(w + rest) == |w|
    decreases |w|
  {
    if w == [] {
      assert w + rest == rest;
    } else {
      assert (w + rest)[1..] == w[1..] + rest;
      NonSpaceRunPrefix(w[1..], rest);
    }
  }

  /** Round trip: splitting the space-joined words gives the words back. */
  lemma {:induction false} WordsOfJoin(ws: seq<string>)
    requires forall i :: 0 <= i < |ws| ==> IsWord(ws[i])
    ensures Words(Join(ws)) == ws
    decreases |ws|
  {
    if ws == [] {
    } else if |ws| == 1 {
      WordsCons(ws[0], "");
      assert ws[0] + "" == ws[0];
    } else {
      var tail := " " + Join(ws[1..]);
      assert Join(ws) == ws[0] + tail;
      WordsCons(ws[0], tail);
      assert tail[1..] == Join(ws[1..]);
      WordsOfJoin(ws[1..]);
      assert ws == [ws[0]] + ws[1..];
    }
  }

  /** A character other than the space that no word holds is not in their join. */
  lemma {:induction false} JoinExcludes(ws: seq<string>, c: char)
    requires c != ' '
    requires forall i :: 0 <= i < |ws| ==> c !in ws[i]
    ensures c !in Join(ws)
    decreases |ws|
  {
    if |ws| > 1 {
      JoinExcludes(ws[1..], c);
      assert c !in ws[0];
    }
  }

  /** Python's `list.index(x)`: the position of the first `x`. */
  function IndexOf<T(==)>(xs: seq<T>, x: T): (r: nat)
    requires x in xs
    ensures r < |xs| && xs[r] == x && x !in xs[..r]
  {
    if xs[0] == x then 0
    else
      var k := IndexOf(xs[1..], x);
      assert xs[1..][..k] == xs[1..k + 1];
      k + 1
  }

  /** The slot where Python's `list.insert(i, x)` places `x` in a list of
      length `n`: a negative `i` counts from the end, and the result is
      clamped to `0..n`. */
  function InsertSlot(n: nat, i: int): (p: nat)
    ensures p <= n
    ensures 0 <= i <= n ==> p == i
    ensures i < 0 && n + i >= 0 ==> p == n + i
    ensures i < 0 && n + i < 0 ==> p == 0
    ensures i > n ==> p == n
  {
    if i < 0 then (if i + n < 0 then 0 else i + n) else if i > n then n else i
  }

  /** Python's `list.insert(i, x)`, returning the new list. */
  function Insert<T>(xs: seq<T>, i: int, x: T): (r: seq<T>)
    ensures |r| == |xs| + 1
    ensures r[InsertSlot(|xs|, i)] == x
  {
    var p := InsertSlot(|xs|, i);
    xs[..p] + [x] + xs[p..]
  }

  /** The elements before the slot stay in place; those after it move up by one. */
  lemma InsertShifts<T>(xs: seq<T>, i: int, x: T)
    ensures forall k :: 0 <= k < |xs| + 1 && k != InsertSlot(|xs|, i) ==>
      Insert(xs, i, x)[k] == if k < InsertSlot(|xs|, i) then xs[k] else xs[k - 1]
  {
    var p := InsertSlot(|xs|, i);
    var r := Insert(xs, i, x);
    assert r == xs[..p] + [x] + xs[p..];
    forall k | 0 <= k < |xs| + 1 && k != p
      ensures r[k] == if k < p then xs[k] else xs[k - 1]
    {
      if k < p {
        assert r[k] == xs[..p][k];
      } else {
        assert r[k] == xs[p..][k - p - 1];
      }
    }
  }

  /** `list.insert` adds exactly one element and drops none. */
  lemma InsertMultiset<T>(xs: seq<T>, i: int, x: T)
    ensures multiset(Insert(xs, i, x)) == multiset(xs) + multiset{x}
  {
    var p := InsertSlot(|xs|, i);
    assert Insert(xs, i, x) == xs[..p] + [x] + xs[p..];
    assert xs == xs[..p] + xs[p..];
  }

  /** POSIX `os.path.basename(p)`: the text after the last `/`. */
  function Basename(p: string): string {
    if p == [] || p[|p| - 1] == '/' then "" else Basename(p[..|p| - 1]) + [p[|p| - 1]]
  }

  /** The basename is the longest suffix without `/`: it has no `/`, and
      either it is the whole path or a `/` precedes it. */
  lemma {:induction false} BasenameIsLastComponent(p: string)
    ensures '/' !in Basename(p)
    ensures |Basename(p)| <= |p| && Basename(p) == p[|p| - |Basename(p)|..]
    ensures |Basename(p)| == |p| || p[|p| - |Basename(p)| - 1] == '/'
    decreases |p|
  {
    if p != [] && p[|p| - 1] != '/' {
      var q := p[..|p| - 1];
      var c := p[|p| - 1];
      BasenameIsLastComponent(q);
      var r := Basename(q);
      assert Basename(p) == r + [c];
      assert r == q[|q| - |r|..];
      assert q[|q| - |r|..] + [c] == p[|p| - |r| - 1..];
      if |r| < |q| {
        assert q[|q| - |r| - 1] == p[|p| - |r| - 2];
      }
    }
  }

  /** POSIX `os.path.join(a, b)` for two components. */
  function PathJoin(a: string, b: string): (r: string)
    ensures StartsWith(b, "/") ==> r == b
    ensures !StartsWith(b, "/") ==> EndsWith(r, b)
    ensures !StartsWith(b, "/") ==> StartsWith(r, a) && (r == a + b || r == a + "/" + b)
    ensures !StartsWith(b, "/") && a != [] && a[|a| - 1] != '/' ==> r == a + "/" + b
  {
    if StartsWith(b, "/") then b
    else if a == [] || a[|a| - 1] == '/' then a + b
    else a + "/" + b
  }

  /** `order` lists the set `s` once each: an order in which a Python
      `for x in s` loop may visit it. */
  ghost predicate Enumerates<T(!new)>(order: seq<T>, s: set<T>) {
    && |order| == |s|
    && (forall x :: x in order <==> x in s)
    && (forall i, j :: 0 <= i < j < |order| ==> order[i] != order[j])
  }

  /** The elements of a set in the (unspecified) order iteration visits them. */
  method Elements<T(!new)>(s: set<T>) returns (order: seq<T>)
    ensures Enumerates(order, s)
  {
    var rest := s;
    order := [];
    while rest != {}
      invariant forall x :: x in s <==> x in rest || x in order
      invariant forall x :: x in rest ==> x !in order
      invariant forall i, j :: 0 <= i < j < |order| ==> order[i] != order[j]
      invariant |rest| + |order| == |s|
      decreases |rest|
    {
      var x :| x in rest;
      rest := rest - {x};
      order := order + [x];
    }
  }
}
