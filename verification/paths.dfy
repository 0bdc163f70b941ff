/** Slash-separated path strings: the parts of Go's `strings`, `path` and
    `path/filepath` packages that the matcher and the watchers rely on,
    written for a Unix host (the separator is always '/'). */
module Paths {

  predicate HasPrefix(s: string, p: string) {
    |p| <= |s| && s[..|p|] == p
  }

  predicate HasSuffix(s: string, p: string) {
    |p| <= |s| && s[|s| - |p|..] == p
  }

  predicate NoSlash(s: string) {
    forall i :: 0 <= i < |s| ==> s[i] != '/'
  }

  /** A directory entry name as the filesystem hands it out: not empty,
      without a separator, and neither "." nor "..". */
  predicate IsName(n: string) {
    n != [] && NoSlash(n) && n != "." && n != ".."
  }

  predicate AllNames(segs: seq<string>) {
    forall k :: 0 <= k < |segs| ==> IsName(segs[k])
  }

  /** The segments a cleaned path is built from: none empty, none holding '/'. */
  predicate SolidSegments(segs: seq<string>) {
    forall k :: 0 <= k < |segs| ==> segs[k] != [] && NoSlash(segs[k])
  }

  /** A directory path with exactly one trailing '/' added when missing. */
  function WithSlash(s: string): (r: string)
    ensures r != [] && r[|r| - 1] == '/'
    ensures HasPrefix(r, s) && |r| <= |s| + 1
  {
    if HasSuffix(s, "/") then s else s + "/"
  }

  /** `d` is `s` up to and including its last '/': a prefix of `s` that is
      empty or ends in '/', after which `s` holds no '/'. */
  predicate DirPart(s: string, d: string) {
    HasPrefix(s, d) && (d == [] || d[|d| - 1] == '/') && NoSlash(s[|d|..])
  }

  /** A string has only one such directory part. */
  lemma DirPartUnique(s: string, d1: string, d2: string)
    requires DirPart(s, d1) && DirPart(s, d2)
    ensures d1 == d2
  {
  }

  /** `strings.LastIndex(s, "/")`: -1 when `s` holds no '/'. */
  function LastSlash(s: string): (i: int)
    ensures -1 <= i < |s|
    ensures i >= 0 ==> s[i] == '/'
    ensures forall j :: i < j < |s| ==> s[j] != '/'
  {
    LastSlashBefore(s, |s|)
  }

  /** The last '/' among the first `k` characters of `s`. */
  function LastSlashBefore(s: string, k: nat): (i: int)
    requires k <= |s|
    ensures -1 <= i < k
    ensures i >= 0 ==> s[i] == '/'
    ensures forall j :: i < j < k ==> s[j] != '/'
  {
    if k == 0 then -1
    else if s[k - 1] == '/' then k - 1
    else LastSlashBefore(s, k - 1)
  }

  /** `strings.Index(s, "/")`: -1 when `s` holds no '/'. */
  function FirstSlash(s: string): (i: int)
    ensures -1 <= i < |s|
    ensures i >= 0 ==> s[i] == '/'
  {
    FirstSlashFrom(s, 0)
  }

  /** The first '/' of `s` at or after position `k`. */
  function FirstSlashFrom(s: string, k: nat): (i: int)
    requires k <= |s|
    ensures -1 <= i < |s|
    ensures i >= 0 ==> k <= i && s[i] == '/'
    decreases |s| - k
  {
    if k == |s| then -1
    else if s[k] == '/' then k
    else FirstSlashFrom(s, k + 1)
  }

  /** No '/' comes before the one `FirstSlash` finds. */
  lemma FirstSlashFirst(s: string)
    ensures var i := FirstSlash(s);
      forall j :: 0 <= j < |s| && (i < 0 || j < i) ==> s[j] != '/'
  {
    FirstSlashFromFirst(s, 0);
  }

  lemma {:induction false} FirstSlashFromFirst(s: string, k: nat)
    requires k <= |s|
    ensures var i := FirstSlashFrom(s, k);
      forall j :: k <= j < |s| && (i < 0 || j < i) ==> s[j] != '/'
    decreases |s| - k
  {
    if k < |s| && s[k] != '/' {
      FirstSlashFromFirst(s, k + 1);
    }
  }

  /** Removes every trailing '/'. */
  function TrimTrailingSlashes(s: string): (r: string)
    ensures HasPrefix(s, r)
    ensures r == [] || r[|r| - 1] != '/'
    ensures forall j :: |r| <= j < |s| ==> s[j] == '/'
  {
    if |s| > 0 && s[|s| - 1] == '/' then TrimTrailingSlashes(s[..|s| - 1]) else s
  }

  /** `filepath.Base`: the last element of the path once trailing slashes
      are removed; "." for the empty path and "/" for a path of slashes. */
  function Base(s: string): (r: string)
    ensures r != []
    ensures r == "/" || NoSlash(r)
    ensures s == [] ==> r == "."
    ensures s != [] && NoSlash(s) ==> r == s
  {
    if s == [] then "."
    else
      var t := TrimTrailingSlashes(s);
      if t == [] then "/" else t[LastSlash(t) + 1..]
  }

  /** `isHidden` of watcher/watch.go, and the hidden test inside both
      matchers: the base name starts with a dot. */
  predicate IsHidden(p: string) {
    HasPrefix(Base(p), ".")
  }

  /** `strings.Join(segs, "/")`. */
  function JoinSegs(segs: seq<string>): (r: string)
    ensures segs == [] ==> r == []
    ensures SolidSegments(segs) && segs != [] ==> r != [] && r[0] != '/' && r[|r| - 1] != '/'
  {
    if |segs| == 0 then ""
    else if |segs| == 1 then segs[0]
    else segs[0] + "/" + JoinSegs(segs[1..])
  }

  /** `strings.Split(s, "/")`: the pieces between separators, which join
      back to `s`. */
  function Split(s: string): (r: seq<string>)
    ensures |r| >= 1
    ensures forall k :: 0 <= k < |r| ==> NoSlash(r[k])
    decreases |s|
  {
    var i := FirstSlash(s);
    FirstSlashFirst(s);
    if i < 0 then [s] else [s[..i]] + Split(s[i + 1..])
  }

  /** The element loop of `path.Clean`: empty and "." elements vanish, ".."
      removes the last kept element unless that is itself "..", and at the
      root a ".." that has nothing to remove is dropped. */
  function Resolve(segs: seq<string>, rooted: bool, acc: seq<string>): (r: seq<string>)
    ensures SolidSegments(acc) && (forall k :: 0 <= k < |segs| ==> NoSlash(segs[k])) ==> SolidSegments(r)
    ensures AllNames(segs) ==> r == acc + segs
    decreases |segs|
  {
    if segs == [] then acc
    else
      var e := segs[0];
      if e == "" || e == "." then Resolve(segs[1..], rooted, acc)
      else if e == ".." then
        if |acc| > 0 && acc[|acc| - 1] != ".." then Resolve(segs[1..], rooted, acc[..|acc| - 1])
        else if rooted then Resolve(segs[1..], rooted, acc)
        else Resolve(segs[1..], rooted, acc + [".."])
      else
        var r := Resolve(segs[1..], rooted, acc + [e]);
        assert AllNames(segs) ==> acc + [e] + segs[1..] == acc + segs;
        r
  }

  /** `path.Clean`. */
  function Clean(s: string): (r: string)
    ensures r != []
    ensures HasSuffix(r, "/") ==> r == "/"
    ensures (s != [] && s[0] == '/') <==> r[0] == '/'
  {
    if s == [] then "."
    else
      var rooted := s[0] == '/';
      var body := JoinSegs(CleanElements(s, rooted));
      if rooted then
        var r := "/" + body;
        assert body != [] ==> r[|r| - 1] == body[|body| - 1];
        r
      else if body == [] then "." else body
  }

  /** The elements `Clean` keeps, with their "." and ".." resolved. */
  function CleanElements(s: string, rooted: bool): (elems: seq<string>)
    ensures SolidSegments(elems)
  {
    var segs := Split(s);
    assert SolidSegments([]);
    Resolve(segs, rooted, [])
  }

  /** `path.Join(a, b)`: empty elements are ignored, the rest are joined by
      '/' and cleaned; two empty elements give the empty string. */
  function Join(a: string, b: string): (r: string)
    ensures r == [] <==> a == [] && b == []
    ensures HasSuffix(r, "/") ==> r == "/"
  {
    if a == [] && b == [] then []
    else if a == [] then Clean(b)
    else Clean(a + "/" + b)
  }

  /** The absolute path whose elements are `segs`. */
  function AbsPath(segs: seq<string>): string {
    "/" + JoinSegs(segs)
  }

  /** `Split` loses nothing: its pieces join back to the input. */
  lemma {:induction false} JoinSegsSplit(s: string)
    ensures JoinSegs(Split(s)) == s
    decreases |s|
  {
    var i := FirstSlash(s);
    if i >= 0 {
      var rest := Split(s[i + 1..]);
      assert Split(s) == [s[..i]] + rest;
      calc {
        JoinSegs(Split(s));
        JoinSegs([s[..i]] + rest);
        { JoinSegsCons(s[..i], rest); }
        s[..i] + "/" + JoinSegs(rest);
        { JoinSegsSplit(s[i + 1..]); }
        s[..i] + "/" + s[i + 1..];
        { SliceAroundSlash(s, i); }
        s;
      }
    }
  }

  lemma SliceAroundSlash(s: string, i: int)
    requires 0 <= i < |s| && s[i] == '/'
    ensures s[..i] + "/" + s[i + 1..] == s
  {
    assert [s[i]] == "/";
    assert s == s[..i] + [s[i]] + s[i + 1..];
  }

  lemma JoinSegsCons(a: string, rest: seq<string>)
    requires rest != []
    ensures JoinSegs([a] + rest) == a + "/" + JoinSegs(rest)
  {
    assert ([a] + rest)[1..] == rest;
  }

  lemma {:induction false} SplitJoinSegs(segs: seq<string>)
    requires segs != []
    requires forall k :: 0 <= k < |segs| ==> NoSlash(segs[k])
    ensures Split(JoinSegs(segs)) == segs
    decreases |segs|
  {
    if |segs| == 1 {
      FirstSlashNone(segs[0]);
    } else {
      JoinSegsCons(segs[0], segs[1..]);
      assert [segs[0]] + segs[1..] == segs;
      SplitAppendFirst(segs[0], JoinSegs(segs[1..]));
      SplitJoinSegs(segs[1..]);
    }
  }


  lemma FirstSlashAt(s: string, i: int)
    requires 0 <= i < |s| && s[i] == '/'
    requires forall j :: 0 <= j < i ==> s[j] != '/'
    ensures FirstSlash(s) == i
  {
    FirstSlashFromAt(s, 0, i);
  }

  lemma {:induction false} FirstSlashFromAt(s: string, k: nat, i: int)
    requires k <= i < |s| && s[i] == '/'
    requires forall j :: k <= j < i ==> s[j] != '/'
    ensures FirstSlashFrom(s, k) == i
    decreases i - k
  {
    if k < i {
      FirstSlashFromAt(s, k + 1, i);
    }
  }

  /** Dropping a common first character keeps prefixes and what follows them. */
  lemma PrefixCons(s: string, w: string)
    requires s != [] && w != [] && s[0] == w[0]
    ensures HasPrefix(s, w) <==> HasPrefix(s[1..], w[1..])
    ensures |w| <= |s| ==> s[1..][|w| - 1..] == s[|w|..]
  {
    if HasPrefix(s[1..], w[1..]) {
      assert s[..|w|] == [s[0]] + s[1..][..|w| - 1];
      assert w == [w[0]] + w[1..];
    }
    if HasPrefix(s, w) {
      assert s[1..][..|w| - 1] == s[..|w|][1..];
    }
  }

  /** `s[..LastSlash(s) + 1]` is the directory part of `s`. */
  lemma LastSlashDirPart(s: string)
    ensures DirPart(s, s[..LastSlash(s) + 1])
  {
    var i := LastSlash(s);
    var t := s[i + 1..];
    forall j | 0 <= j < |t|
      ensures t[j] != '/'
    {
      assert t[j] == s[i + 1 + j];
    }
  }

  lemma LastSlashAt(s: string, i: int)
    requires 0 <= i < |s| && s[i] == '/'
    requires forall j :: i < j < |s| ==> s[j] != '/'
    ensures LastSlash(s) == i
  {
  }

  lemma FirstSlashNone(s: string)
    requires NoSlash(s)
    ensures FirstSlash(s) == -1
  {
  }

  lemma {:induction false} SplitAppend(x: string, y: string)
    ensures Split(x + "/" + y) == Split(x) + Split(y)
    decreases |x|
  {
    var s := x + "/" + y;
    var i := FirstSlash(x);
    FirstSlashFirst(x);
    if i < 0 {
      SplitAppendFirst(x, y);
    } else {
      var x' := x[i + 1..];
      SplitAppendLater(x, y, i);
      SplitAppend(x', y);
      assert Split(x) == [x[..i]] + Split(x');
      calc {
        Split(s);
        [x[..i]] + Split(x' + "/" + y);
        [x[..i]] + (Split(x') + Split(y));
        ([x[..i]] + Split(x')) + Split(y);
      }
    }
  }

  lemma SplitAppendFirst(x: string, y: string)
    requires NoSlash(x)
    ensures Split(x + "/" + y) == [x] + Split(y)
  {
    var s := x + "/" + y;
    assert forall j :: 0 <= j < |x| ==> s[j] == x[j];
    FirstSlashAt(s, |x|);
    assert s[..|x|] == x;
    assert s[|x| + 1..] == y;
  }

  lemma SplitAppendLater(x: string, y: string, i: int)
    requires 0 <= i < |x| && i == FirstSlash(x)
    ensures Split(x + "/" + y) == [x[..i]] + Split(x[i + 1..] + "/" + y)
  {
    var s := x + "/" + y;
    assert forall j :: 0 <= j < |x| ==> s[j] == x[j];
    FirstSlashFirst(x);
    FirstSlashAt(s, i);
    assert s[..i] == x[..i];
    assert s[i + 1..] == x[i + 1..] + "/" + y;
  }

  lemma {:induction false} ResolveAppend(xs: seq<string>, ys: seq<string>, rooted: bool, acc: seq<string>)
    ensures Resolve(xs + ys, rooted, acc) == Resolve(ys, rooted, Resolve(xs, rooted, acc))
    decreases |xs|
  {
    if xs == [] {
      assert xs + ys == ys;
    } else {
      assert (xs + ys)[0] == xs[0];
      assert (xs + ys)[1..] == xs[1..] + ys;
      var e := xs[0];
      if e == "" || e == "." {
        ResolveAppend(xs[1..], ys, rooted, acc);
      } else if e == ".." {
        if |acc| > 0 && acc[|acc| - 1] != ".." {
          ResolveAppend(xs[1..], ys, rooted, acc[..|acc| - 1]);
        } else if rooted {
          ResolveAppend(xs[1..], ys, rooted, acc);
        } else {
          ResolveAppend(xs[1..], ys, rooted, acc + [".."]);
        }
      } else {
        ResolveAppend(xs[1..], ys, rooted, acc + [e]);
      }
    }
  }

  /** The elements of an absolute path given by `segs`, as `Split` sees them. */
  lemma SplitAbsChild(segs: seq<string>, n: string)
    requires AllNames(segs)
    requires IsName(n)
    ensures Split(AbsPath(segs) + "/" + n) == [""] + Split(JoinSegs(segs)) + [n]
  {
    var j := JoinSegs(segs);
    var t := j + "/" + n;
    LeadingSlash(j, n);
    SplitAppendFirst("", t);
    SplitAppend(j, n);
    FirstSlashNone(n);
  }

  lemma AppendAssoc(a: seq<string>, b: seq<string>, c: seq<string>)
    ensures a + (b + c) == a + b + c
  {
  }

  lemma LeadingSlash(j: string, n: string)
    ensures "/" + j + "/" + n == "" + "/" + (j + "/" + n)
  {
  }

  lemma ResolveAbs(segs: seq<string>)
    requires AllNames(segs)
    ensures Resolve([""] + Split(JoinSegs(segs)), true, []) == segs
  {
    ResolveAppend([""], Split(JoinSegs(segs)), true, []);
    assert Resolve([""], true, []) == [];
    if segs == [] {
      FirstSlashNone("");
      assert Split(JoinSegs(segs)) == [""];
    } else {
      SplitJoinSegs(segs);
    }
  }

  /** Joining an absolute clean path with an entry name appends one element:
      the result is again an absolute clean path. */
  lemma JoinName(segs: seq<string>, n: string)
    requires AllNames(segs)
    requires IsName(n)
    ensures Join(AbsPath(segs), n) == AbsPath(segs + [n])
  {
    var s := AbsPath(segs) + "/" + n;
    var front := [""] + Split(JoinSegs(segs));
    SplitAbsChild(segs, n);
    ResolveAppend(front, [n], true, []);
    ResolveAbs(segs);
    assert Resolve(Split(s), true, []) == segs + [n];
    assert s[0] == '/';
  }

  /** Joining an absolute clean path with a relative clean path appends
      the relative path's elements. */
  lemma JoinRel(segs: seq<string>, rel: seq<string>)
    requires AllNames(segs) && AllNames(rel) && rel != []
    ensures Join(AbsPath(segs), JoinSegs(rel)) == AbsPath(segs + rel)
  {
    var j := JoinSegs(segs);
    var r := JoinSegs(rel);
    var s := AbsPath(segs) + "/" + r;
    LeadingSlash(j, r);
    SplitAppendFirst("", j + "/" + r);
    SplitAppend(j, r);
    SplitJoinSegs(rel);
    AppendAssoc([""], Split(j), rel);
    assert Split(s) == [""] + Split(j) + rel;
    ResolveAppend([""] + Split(j), rel, true, []);
    ResolveAbs(segs);
    assert Resolve(Split(s), true, []) == segs + rel;
    assert s[0] == '/';
  }

  /** The same with a trailing '/' on the relative path: `Clean` drops it. */
  lemma JoinRelDir(segs: seq<string>, rel: seq<string>)
    requires AllNames(segs) && AllNames(rel) && rel != []
    ensures Join(AbsPath(segs), JoinSegs(rel) + "/") == AbsPath(segs + rel)
  {
    var s := AbsPath(segs) + "/" + (JoinSegs(rel) + "/");
    SplitRelDir(segs, rel);
    ResolveAppend([""] + Split(JoinSegs(segs)), rel + [""], true, []);
    ResolveAbs(segs);
    ResolveAppend(rel, [""], true, segs);
    assert Resolve([""], true, segs + rel) == segs + rel;
    assert s[0] == '/';
  }

  lemma SplitRelDir(segs: seq<string>, rel: seq<string>)
    requires AllNames(segs) && AllNames(rel) && rel != []
    ensures Split(AbsPath(segs) + "/" + (JoinSegs(rel) + "/")) == [""] + Split(JoinSegs(segs)) + (rel + [""])
  {
    var j := JoinSegs(segs);
    var r := JoinSegs(rel);
    var t := r + "/" + "";
    assert t == r + "/";
    LeadingSlash(j, t);
    SplitAppendFirst("", j + "/" + t);
    SplitAppend(j, t);
    SplitAppend(r, "");
    SplitJoinSegs(rel);
    FirstSlashNone("");
    AppendAssoc([""], Split(j), rel + [""]);
  }

  /** The base name of `d + "/" + n` is `n` for any name without a slash. */
  lemma BaseOfChild(d: string, n: string)
    requires n != [] && NoSlash(n)
    ensures Base(d + "/" + n) == n
  {
    var s := d + "/" + n;
    assert s[|s| - 1] == n[|n| - 1];
    assert TrimTrailingSlashes(s) == s;
    var i := LastSlash(s);
    assert s[|d|] == '/';
    assert forall j :: |d| < j < |s| ==> s[j] == n[j - |d| - 1];
    assert i == |d|;
    assert s[|d| + 1..] == n;
  }

  /** A slash appended to a path does not change its base name. */
  lemma BaseIgnoresTrailingSlash(s: string)
    requires s != []
    ensures Base(s + "/") == Base(s)
  {
    var t := s + "/";
    assert t[..|t| - 1] == s;
    assert TrimTrailingSlashes(t) == TrimTrailingSlashes(s);
  }
}
