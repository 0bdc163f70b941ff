/** The pattern language of both matchers. A pattern is read left to right:
    every "/**/" becomes one `All` token, every remaining '*' a `Star`, and
    every other character stands for itself. A match is a whole-string
    match: `Star` consumes a non-empty run of characters other than '/',
    `All` consumes '/' followed by zero or more `name/` groups. */
module Glob {
  import opened Paths

  datatype Token = Lit(c: char) | Star | All

  /** The pattern text a token is read from. */
  function TokenText(t: Token): string {
    match t
    case Lit(c) => [c]
    case Star => "*"
    case All => "/**/"
  }

  function Render(ts: seq<Token>): string
    decreases |ts|
  {
    if ts == [] then "" else TokenText(ts[0]) + Render(ts[1..])
  }

  /** Every character of `w` as a literal token. */
  function Lits(w: string): (ts: seq<Token>)
    ensures |ts| == |w|
    ensures forall i :: 0 <= i < |w| ==> ts[i] == Lit(w[i])
    decreases |w|
  {
    if w == [] then [] else [Lit(w[0])] + Lits(w[1..])
  }

  lemma RenderCons(t: Token, ts: seq<Token>)
    ensures Render([t] + ts) == TokenText(t) + Render(ts)
  {
    assert ([t] + ts)[1..] == ts;
  }

  /** Reads a pattern into tokens, left to right: "/**/" first, then '*',
      then any other character. */
  function Tokenize(p: string): (ts: seq<Token>)
    decreases |p|
  {
    if p == [] then []
    else if HasPrefix(p, "/**/") then [All] + Tokenize(p[4..])
    else if p[0] == '*' then [Star] + Tokenize(p[1..])
    else [Lit(p[0])] + Tokenize(p[1..])
  }

  /** The tokens render back to the pattern: nothing of the pattern is lost
      or invented. */
  lemma {:induction false} TokenizeRenders(p: string)
    ensures Render(Tokenize(p)) == p
    decreases |p|
  {
    if p != [] {
      var n := if HasPrefix(p, "/**/") then 4 else 1;
      var t := Tokenize(p)[0];
      assert Tokenize(p) == [t] + Tokenize(p[n..]);
      TokenizeRenders(p[n..]);
      RenderCons(t, Tokenize(p[n..]));
      assert TokenText(t) == p[..n];
      assert p == p[..n] + p[n..];
    }
  }

  /** The executable matcher: does the whole of `s` match `ts`? */
  function Match(ts: seq<Token>, s: string): bool
    decreases |ts|, |s|, 1, 0
  {
    if ts == [] then s == []
    else
      match ts[0]
      case Lit(c) => s != [] && s[0] == c && Match(ts[1..], s[1..])
      case Star => MatchStar(ts[1..], s, 1)
      case All => s != [] && s[0] == '/' && MatchDeep(ts[1..], s[1..])
  }

  /** A star that has consumed `s[..k - 1]` consumes `s[k - 1]` too and then
      either stops or goes on. */
  function MatchStar(rest: seq<Token>, s: string, k: nat): bool
    requires k >= 1
    decreases |rest| + 1, |s|, 0, |s| - k
  {
    k <= |s| && s[k - 1] != '/' && (Match(rest, s[k..]) || MatchStar(rest, s, k + 1))
  }

  /** After the leading '/' of "/**/": either stop, or consume the next
      `name/` group (the name must be non-empty) and try again. */
  function MatchDeep(rest: seq<Token>, t: string): bool
    decreases |rest| + 1, |t|, 0, 0
  {
    Match(rest, t) || (var i := FirstSlash(t); i > 0 && MatchDeep(rest, t[i + 1..]))
  }

  /** A pattern string matches a path. */
  function GlobMatch(pattern: string, s: string): bool {
    Match(Tokenize(pattern), s)
  }

  // ---------------------------------------------------------------------
  // Reference semantics: the language of each token, and concatenation.

  /** Zero or more groups `name/`, every name non-empty and free of '/':
      the text up to the first '/' is a non-empty name, and the rest after
      that '/' is again such groups. */
  predicate Segments(u: string)
    decreases |u|
  {
    u == [] || (var i := FirstSlash(u); i > 0 && Segments(u[i + 1..]))
  }

  /** The words a single token stands for. */
  ghost predicate Word(t: Token, w: string) {
    match t
    case Lit(c) => w == [c]
    case Star => w != [] && NoSlash(w)
    case All => w != [] && w[0] == '/' && Segments(w[1..])
  }

  /** The first `k` characters of `s`, and the rest: the two sides of a
      split point. */
  ghost function Before(s: string, k: int): string
    requires 0 <= k <= |s|
  {
    s[..k]
  }

  ghost function After(s: string, k: int): string
    requires 0 <= k <= |s|
  {
    s[k..]
  }

  /** `s` splits into consecutive words, one per token. */
  ghost predicate Spec(ts: seq<Token>, s: string)
    decreases |ts|
  {
    if ts == [] then s == []
    else exists k :: 0 <= k <= |s| && Word(ts[0], Before(s, k)) && Spec(ts[1..], After(s, k))
  }

  ghost predicate StarSpec(rest: seq<Token>, s: string, k: nat) {
    exists j :: k <= j <= |s| && NoSlash(Before(s, j)) && Spec(rest, After(s, j))
  }

  ghost predicate DeepSpec(rest: seq<Token>, t: string) {
    exists k :: 0 <= k <= |t| && Segments(Before(t, k)) && Spec(rest, After(t, k))
  }

  /** A split point whose two sides fit makes a `Spec` word. */
  lemma SpecAt(ts: seq<Token>, s: string, k: int)
    requires ts != [] && 0 <= k <= |s| && Word(ts[0], s[..k]) && Spec(ts[1..], s[k..])
    ensures Spec(ts, s)
  {
    assert Before(s, k) == s[..k] && After(s, k) == s[k..];
  }

  /** A split point whose two sides fit makes a `StarSpec` word. */
  lemma StarSpecAt(rest: seq<Token>, s: string, k: nat, j: int)
    requires k <= j <= |s| && NoSlash(s[..j]) && Spec(rest, s[j..])
    ensures StarSpec(rest, s, k)
  {
    assert Before(s, j) == s[..j] && After(s, j) == s[j..];
  }

  /** A split point whose two sides fit makes a `DeepSpec` word. */
  lemma DeepSpecAt(rest: seq<Token>, t: string, k: int)
    requires 0 <= k <= |t| && Segments(t[..k]) && Spec(rest, t[k..])
    ensures DeepSpec(rest, t)
  {
    assert Before(t, k) == t[..k] && After(t, k) == t[k..];
  }

  lemma {:induction false} StarAgrees(rest: seq<Token>, s: string, k: nat)
    requires 1 <= k && k - 1 <= |s| && NoSlash(s[..k - 1])
    requires forall x :: Match(rest, x) <==> Spec(rest, x)
    ensures MatchStar(rest, s, k) <==> StarSpec(rest, s, k)
    decreases |s| - k + 1
  {
    if k <= |s| && s[k - 1] != '/' {
      assert s[..k] == s[..k - 1] + [s[k - 1]];
      assert NoSlash(s[..k]);
      StarAgrees(rest, s, k + 1);
      if StarSpec(rest, s, k) {
        var j :| k <= j <= |s| && NoSlash(Before(s, j)) && Spec(rest, After(s, j));
        if j > k {
          StarSpecAt(rest, s, k + 1, j);
        }
      }
      if Match(rest, s[k..]) {
        StarSpecAt(rest, s, k, k);
      }
    }
  }

  lemma {:induction false} DeepAgrees(rest: seq<Token>, t: string)
    requires forall x :: Match(rest, x) <==> Spec(rest, x)
    ensures MatchDeep(rest, t) <==> DeepSpec(rest, t)
    decreases |t|
  {
    var i := FirstSlash(t);
    if i > 0 {
      DeepAgrees(rest, t[i + 1..]);
      if MatchDeep(rest, t[i + 1..]) {
        DeepSpecCons(rest, t, i);
      }
    }
    if Match(rest, t) {
      assert t[..0] == [] && t[0..] == t;
      DeepSpecAt(rest, t, 0);
    }
    if DeepSpec(rest, t) {
      DeepSpecCases(rest, t);
    }
  }

  /** A `DeepSpec` word either has no groups, or its first group can be
      taken off. */
  lemma DeepSpecCases(rest: seq<Token>, t: string)
    requires DeepSpec(rest, t)
    ensures Spec(rest, t) || (0 < FirstSlash(t) && DeepSpec(rest, t[FirstSlash(t) + 1..]))
  {
    var k :| 0 <= k <= |t| && Segments(Before(t, k)) && Spec(rest, After(t, k));
    if k == 0 {
      assert After(t, k) == t;
    } else {
      DeepSpecUncons(rest, t, k);
    }
  }

  /** Groups that end at a split point `k > 0` lose their first group to
      the first '/' of `t`. */
  lemma DeepSpecUncons(rest: seq<Token>, t: string, k: int)
    requires 0 < k <= |t| && Segments(Before(t, k)) && Spec(rest, After(t, k))
    ensures 0 < FirstSlash(t) && DeepSpec(rest, t[FirstSlash(t) + 1..])
  {
    var i := FirstSlash(t);
    assert Segments(t[..k]) by {
      assert Before(t, k) == t[..k];
    }
    assert Spec(rest, t[k..]) by {
      assert After(t, k) == t[k..];
    }
    SegmentsUncons(t, k, i);
    DeepSpecAt(rest, t[i + 1..], k - i - 1);
  }

  /** One more `name/` group in front keeps a `DeepSpec` word. */
  lemma DeepSpecCons(rest: seq<Token>, t: string, i: int)
    requires 0 < i < |t| && i == FirstSlash(t)
    requires DeepSpec(rest, t[i + 1..])
    ensures DeepSpec(rest, t)
  {
    var t' := t[i + 1..];
    var k' :| 0 <= k' <= |t'| && Segments(Before(t', k')) && Spec(rest, After(t', k'));
    var k := i + 1 + k';
    SegmentsGrowBefore(t, i, k');
    AfterShift(rest, t, i + 1, k');
    assert Before(t, k) == t[..k] && After(t, k) == t[k..];
  }

  lemma SegmentsGrowBefore(t: string, i: int, k: int)
    requires 0 < i < |t| && i == FirstSlash(t)
    requires 0 <= k <= |t| - i - 1 && Segments(Before(t[i + 1..], k))
    ensures Segments(t[..i + 1 + k])
  {
    assert Before(t[i + 1..], k) == t[i + 1..i + 1 + k];
    SegmentsGrow(t, i, i + 1 + k);
  }

  /** A split point of a suffix of `s` is one of `s` as well. */
  lemma AfterShift(rest: seq<Token>, s: string, j: int, k: int)
    requires 0 <= j <= |s| && 0 <= k <= |s| - j && Spec(rest, After(s[j..], k))
    ensures Spec(rest, s[j + k..])
  {
    assert s[j + k..] == After(s[j..], k);
  }

  /** Groups after the first '/' of `t`, with the name before it, are groups. */
  lemma SegmentsGrow(t: string, i: int, k: int)
    requires 0 < i < |t| && i == FirstSlash(t)
    requires i + 1 <= k <= |t| && Segments(t[i + 1..k])
    ensures Segments(t[..k])
  {
    var u := t[..k];
    FirstSlashFirst(t);
    FirstSlashAt(u, i);
    assert u[i + 1..] == t[i + 1..k];
  }

  /** Non-empty groups at the front of `t` start with the name before the
      first '/' of `t`; what follows that '/' up to `k` is groups again. */
  lemma SegmentsUncons(t: string, k: int, i: int)
    requires 0 < k <= |t| && Segments(t[..k]) && i == FirstSlash(t)
    ensures 0 < i < k
    ensures Segments(t[i + 1..][..k - i - 1]) && t[i + 1..][k - i - 1..] == t[k..]
  {
    var u := t[..k];
    assert forall j :: 0 <= j < k ==> u[j] == t[j];
    FirstSlashFirst(u);
    FirstSlashAt(t, FirstSlash(u));
    assert u[i + 1..] == t[i + 1..][..k - i - 1];
  }

  /** The executable matcher decides exactly the reference semantics. */
  lemma {:induction false} MatchIsSpec(ts: seq<Token>, s: string)
    ensures Match(ts, s) <==> Spec(ts, s)
    decreases |ts|
  {
    if ts != [] {
      var rest := ts[1..];
      forall x
        ensures Match(rest, x) <==> Spec(rest, x)
      {
        MatchIsSpec(rest, x);
      }
      match ts[0]
      case Lit(c) => LitAgrees(ts, s);
      case Star => StarHeadAgrees(ts, s);
      case All => AllHeadAgrees(ts, s);
    }
  }

  lemma LitAgrees(ts: seq<Token>, s: string)
    requires ts != [] && ts[0].Lit?
    requires forall x :: Match(ts[1..], x) <==> Spec(ts[1..], x)
    ensures Match(ts, s) <==> Spec(ts, s)
  {
    if Match(ts, s) {
      assert s[..1] == [ts[0].c];
      SpecAt(ts, s, 1);
    }
    if Spec(ts, s) {
      var k :| 0 <= k <= |s| && Word(ts[0], Before(s, k)) && Spec(ts[1..], After(s, k));
      assert k == 1 && s[0] == Before(s, k)[0];
    }
  }

  lemma StarHeadAgrees(ts: seq<Token>, s: string)
    requires ts != [] && ts[0] == Star
    requires forall x :: Match(ts[1..], x) <==> Spec(ts[1..], x)
    ensures Match(ts, s) <==> Spec(ts, s)
  {
    var rest := ts[1..];
    assert s[..0] == [];
    StarAgrees(rest, s, 1);
    if Spec(ts, s) {
      var k :| 0 <= k <= |s| && Word(ts[0], Before(s, k)) && Spec(rest, After(s, k));
      StarSpecAt(rest, s, 1, k);
    }
    if StarSpec(rest, s, 1) {
      var j :| 1 <= j <= |s| && NoSlash(Before(s, j)) && Spec(rest, After(s, j));
      SpecAt(ts, s, j);
    }
  }

  lemma AllHeadAgrees(ts: seq<Token>, s: string)
    requires ts != [] && ts[0] == All
    requires forall x :: Match(ts[1..], x) <==> Spec(ts[1..], x)
    ensures Match(ts, s) <==> Spec(ts, s)
  {
    if s != [] && s[0] == '/' {
      DeepAgrees(ts[1..], s[1..]);
      if DeepSpec(ts[1..], s[1..]) {
        AllToSpec(ts, s);
      }
    }
    if Spec(ts, s) {
      SpecToAll(ts, s);
    }
  }

  lemma AllToSpec(ts: seq<Token>, s: string)
    requires ts != [] && ts[0] == All
    requires s != [] && s[0] == '/' && DeepSpec(ts[1..], s[1..])
    ensures Spec(ts, s)
  {
    var t := s[1..];
    var k :| 0 <= k <= |t| && Segments(Before(t, k)) && Spec(ts[1..], After(t, k));
    GroupsAt(ts, s, k);
  }

  /** '/' and groups up to `k + 1` make an `All` word. */
  lemma GroupsAt(ts: seq<Token>, s: string, k: int)
    requires ts != [] && ts[0] == All && s != [] && s[0] == '/'
    requires 0 <= k < |s| && Segments(Before(s[1..], k)) && Spec(ts[1..], After(s[1..], k))
    ensures Spec(ts, s)
  {
    AllWord(s, k);
    AfterShift(ts[1..], s, 1, k);
    SpecAt(ts, s, k + 1);
  }

  lemma AllWord(s: string, k: int)
    requires 0 <= k < |s| && s[0] == '/' && Segments(Before(s[1..], k))
    ensures Word(All, s[..k + 1])
  {
    assert s[..k + 1][1..] == Before(s[1..], k);
  }


  lemma SpecToAll(ts: seq<Token>, s: string)
    requires ts != [] && ts[0] == All && Spec(ts, s)
    ensures s != [] && s[0] == '/' && DeepSpec(ts[1..], s[1..])
  {
    var k :| 0 <= k <= |s| && Word(ts[0], Before(s, k)) && Spec(ts[1..], After(s, k));
    AllWordAt(ts[1..], s, k);
  }

  /** An `All` word ending at `k` is '/' and groups up to `k`. */
  lemma AllWordAt(rest: seq<Token>, s: string, k: int)
    requires 0 <= k <= |s| && Word(All, Before(s, k)) && Spec(rest, After(s, k))
    ensures s != [] && s[0] == '/' && DeepSpec(rest, s[1..])
  {
    var t := s[1..];
    var u := Before(s, k);
    assert u == s[..k];
    assert 0 < k && s[0] == u[0];
    assert Segments(t[..k - 1]) by {
      assert u[1..] == t[..k - 1];
    }
    assert Spec(rest, t[k - 1..]) by {
      assert After(s, k) == t[k - 1..];
    }
    DeepSpecAt(rest, t, k - 1);
  }

  // ---------------------------------------------------------------------
  // What the pattern syntax promises.

  predicate NoStar(w: string) {
    forall i :: 0 <= i < |w| ==> w[i] != '*'
  }

  /** A `*` consumes a non-empty run of characters other than '/', and
      nothing else: it never reaches across a '/'. */
  lemma StarStaysInSegment(rest: seq<Token>, s: string)
    ensures Match([Star] + rest, s) <==>
            exists j :: 1 <= j <= |s| && NoSlash(s[..j]) && Match(rest, s[j..])
  {
    var ts := [Star] + rest;
    assert ts[0] == Star && ts[1..] == rest;
    MatchIsSpec(ts, s);
    forall x
      ensures Match(rest, x) <==> Spec(rest, x)
    {
      MatchIsSpec(rest, x);
    }
    if Spec(ts, s) {
      var k :| 0 <= k <= |s| && Word(Star, Before(s, k)) && Spec(rest, After(s, k));
      assert 1 <= k <= |s| && NoSlash(s[..k]) && Match(rest, s[k..]);
    }
    if exists j :: 1 <= j <= |s| && NoSlash(s[..j]) && Match(rest, s[j..]) {
      var j :| 1 <= j <= |s| && NoSlash(s[..j]) && Match(rest, s[j..]);
      SpecAt(ts, s, j);
    }
  }

  /** A pattern that is a single `*` matches exactly the non-empty names. */
  lemma StarAlone(s: string)
    ensures Match([Star], s) <==> s != [] && NoSlash(s)
  {
    StarStaysInSegment([], s);
    assert [Star] + [] == [Star];
    if s != [] && NoSlash(s) {
      assert s[..|s|] == s && s[|s|..] == [];
    }
    if exists j :: 1 <= j <= |s| && NoSlash(s[..j]) && Match([], s[j..]) {
      var j :| 1 <= j <= |s| && NoSlash(s[..j]) && Match([], s[j..]);
      assert j == |s| && s[..j] == s;
    }
  }

  /** Literal tokens match only their own characters, in order. */
  lemma {:induction false} LitsPrefix(w: string, rest: seq<Token>, s: string)
    ensures Match(Lits(w) + rest, s) <==> HasPrefix(s, w) && Match(rest, s[|w|..])
    decreases |w|
  {
    var ts := Lits(w) + rest;
    if w == [] {
      assert ts == rest;
    } else {
      assert ts[0] == Lit(w[0]);
      assert ts[1..] == Lits(w[1..]) + rest;
      if s != [] && s[0] == w[0] {
        LitsPrefix(w[1..], rest, s[1..]);
        PrefixCons(s, w);
      } else if |w| <= |s| {
        assert s[..|w|][0] == s[0];
      }
    }
  }

  /** A pattern without `*` matches exactly itself: '/', '.', '$', '^' and
      every other character stand for themselves, and the match is anchored
      at both ends. */
  lemma LiteralPattern(w: string, s: string)
    requires NoStar(w)
    ensures GlobMatch(w, s) <==> s == w
  {
    TokenizeLiteral(w, []);
    assert w + [] == w;
    assert Lits(w) + [] == Lits(w);
    LitsPrefix(w, [], s);
    assert HasPrefix(s, w) && s[|w|..] == [] ==> s == s[..|w|];
  }

  /** Reading a star-free prefix produces its literal tokens, as long as the
      text after it does not start with '*' (which could complete a "/**/"). */
  lemma {:induction false} TokenizeLiteral(w: string, q: string)
    requires NoStar(w)
    requires q == [] || q[0] != '*'
    ensures Tokenize(w + q) == Lits(w) + Tokenize(q)
    decreases |w|
  {
    if w == [] {
      assert w + q == q;
      assert Lits(w) + Tokenize(q) == Tokenize(q);
    } else {
      var p := w + q;
      assert p[0] == w[0];
      assert |p| >= 2 ==> p[1] != '*';
      assert p[1..] == w[1..] + q;
      calc {
        Tokenize(p);
        { TokenizeLitHead(p); }
        [Lit(w[0])] + Tokenize(w[1..] + q);
        { TokenizeLiteral(w[1..], q); }
        [Lit(w[0])] + (Lits(w[1..]) + Tokenize(q));
        ([Lit(w[0])] + Lits(w[1..])) + Tokenize(q);
        Lits(w) + Tokenize(q);
      }
    }
  }

  lemma TokenizeLitHead(p: string)
    requires p != [] && p[0] != '*' && (|p| < 2 || p[1] != '*')
    ensures Tokenize(p) == [Lit(p[0])] + Tokenize(p[1..])
  {
    assert !HasPrefix(p, "/**/");
  }

  lemma LitsExact(b: string, x: string)
    ensures Match(Lits(b), x) <==> x == b
  {
    LitsPrefix(b, [], x);
    assert Lits(b) + [] == Lits(b);
    assert HasPrefix(x, b) && x[|b|..] == [] ==> x == x[..|b|];
  }

  /** Under the literal tokens of `b`, the part after the leading '/' of a
      "/**/" is zero or more `name/` groups followed by `b`. */
  lemma {:induction false} DeepThenLiteral(b: string, u: string)
    ensures MatchDeep(Lits(b), u) <==> DeepTail(b, u)
    decreases |u|
  {
    LitsExact(b, u);
    var i := FirstSlash(u);
    if i > 0 {
      var v := u[i + 1..];
      DeepThenLiteral(b, v);
      if DeepTail(b, v) {
        DeepTailGrow(b, u, i);
      }
    }
    if DeepTail(b, u) && |u| > |b| {
      DeepTailShrink(b, u, i);
    }
    if DeepTail(b, u) && |u| == |b| {
      assert u[..0] == [];
    }
  }

  /** `u` is zero or more `name/` groups followed by `b`. */
  predicate DeepTail(b: string, u: string) {
    |b| <= |u| && HasSuffix(u, b) && Segments(u[..|u| - |b|])
  }

  lemma DeepTailGrow(b: string, u: string, i: int)
    requires 0 < i < |u| && i == FirstSlash(u) && DeepTail(b, u[i + 1..])
    ensures DeepTail(b, u)
  {
    var v := u[i + 1..];
    var m := |u| - |b|;
    assert u[i + 1..m] == v[..|v| - |b|];
    SegmentsGrow(u, i, m);
    assert u[m..] == v[|v| - |b|..];
  }

  lemma DeepTailShrink(b: string, u: string, i: int)
    requires DeepTail(b, u) && |u| > |b| && i == FirstSlash(u)
    ensures 0 < i && DeepTail(b, u[i + 1..])
  {
    var m := |u| - |b|;
    assert u[..m] == u[..m];
    SegmentsUncons(u, m, i);
    var v := u[i + 1..];
    assert v[..|v| - |b|] == v[..m - i - 1];
    assert v[|v| - |b|..] == u[m..];
  }

  /** Literal tokens stand for their own characters in the reference
      semantics too. */
  lemma LitsSpec(b: string, x: string)
    ensures Spec(Lits(b), x) <==> x == b
  {
    MatchIsSpec(Lits(b), x);
    LitsExact(b, x);
  }

  lemma TokenizeDeep(a: string, b: string)
    requires NoStar(a) && NoStar(b)
    ensures Tokenize(a + "/**/" + b) == Lits(a) + ([All] + Lits(b))
  {
    var q := "/**/" + b;
    assert a + "/**/" + b == a + q;
    TokenizeLiteral(a, q);
    assert HasPrefix(q, "/**/") && q[4..] == b;
    TokenizeLiteral(b, []);
    assert b + [] == b;
    assert Lits(b) + [] == Lits(b);
  }

  lemma MatchAllHead(rest: seq<Token>, t: string)
    ensures Match([All] + rest, t) == (t != [] && t[0] == '/' && MatchDeep(rest, t[1..]))
  {
    assert ([All] + rest)[0] == All && ([All] + rest)[1..] == rest;
  }

  lemma AllThenLits(b: string, t: string)
    ensures Match([All] + Lits(b), t) <==> t != [] && t[0] == '/' && DeepTail(b, t[1..])
  {
    MatchAllHead(Lits(b), t);
    if t != [] && t[0] == '/' {
      DeepThenLiteral(b, t[1..]);
    }
  }

  /** "/**/" between two star-free parts stands for '/' followed by any
      number (zero included) of whole `name/` groups: `a/**/b` accepts both
      `a/b` and `a/x/y/b`, and nothing that is not of that shape. */
  lemma AnyDepth(a: string, b: string, s: string)
    requires NoStar(a) && NoStar(b)
    ensures GlobMatch(a + "/**/" + b, s) <==> DeepShape(a, b, s)
  {
    TokenizeDeep(a, b);
    LitsPrefix(a, [All] + Lits(b), s);
    if HasPrefix(s, a) {
      var t := s[|a|..];
      AllThenLits(b, t);
      DeepShapeAfterPrefix(a, b, s);
    } else {
      PrefixOfPrefix(s, a, "/");
    }
  }

  lemma PrefixOfPrefix(s: string, a: string, x: string)
    ensures HasPrefix(s, a + x) ==> HasPrefix(s, a)
  {
    if HasPrefix(s, a + x) {
      assert s[..|a|] == (a + x)[..|a|];
    }
  }

  /** `s` is `a`, then '/', then zero or more `name/` groups, then `b`. */
  predicate DeepShape(a: string, b: string, s: string) {
    HasPrefix(s, a + "/") && DeepTail(b, s[|a| + 1..])
  }

  lemma DeepShapeAfterPrefix(a: string, b: string, s: string)
    requires HasPrefix(s, a)
    ensures var t := s[|a|..];
            DeepShape(a, b, s) <==> t != [] && t[0] == '/' && DeepTail(b, t[1..])
  {
    var t := s[|a|..];
    if |a| + 1 <= |s| {
      assert t[0] == s[|a|];
      assert s[..|a| + 1] == s[..|a|] + [s[|a|]];
      assert a + "/" == a + ['/'];
      assert t[1..] == s[|a| + 1..];
    }
  }

  /** A group `name/` in front of groups gives groups again. */
  lemma SegmentsCons(name: string, u: string)
    requires name != [] && NoSlash(name) && Segments(u)
    ensures Segments(name + "/" + u)
  {
    var v := name + "/" + u;
    assert forall j :: 0 <= j < |name| ==> v[j] == name[j];
    FirstSlashAt(v, |name|);
    assert v[|name| + 1..] == u;
  }

  lemma Reassociate(a: string, b: string, c: string, d: string)
    ensures a + b + c + d == a + b + (c + d)
  {
  }

  /** A star right after `a/` accepts exactly the names directly inside
      `a`. */
  lemma StarFile(a: string, s: string)
    requires NoStar(a)
    ensures GlobMatch(a + "/*", s) <==>
            HasPrefix(s, a + "/") && s[|a| + 1..] != [] && NoSlash(s[|a| + 1..])
  {
    TokenizeSlashStar(a);
    LitsPrefix(a + "/", [Star], s);
    if HasPrefix(s, a + "/") {
      StarAlone(s[|a| + 1..]);
    }
  }

  /** A pattern `a/**/b` requires its literal head `a/`, whatever `b`. */
  lemma DeepNeedsHead(a: string, b: string, f: string)
    requires NoStar(a)
    ensures GlobMatch(a + "/**/" + b, f) ==> HasPrefix(f, a + "/")
  {
    if GlobMatch(a + "/**/" + b, f) {
      TokenizeDeepAny(a, b);
      LitsPrefix(a, [All] + Tokenize(b), f);
      var t := f[|a|..];
      MatchAllHead(Tokenize(b), t);
      assert f[..|a| + 1] == f[..|a|] + [t[0]];
    }
  }

  lemma TokenizeSlashStar(a: string)
    requires NoStar(a)
    ensures Tokenize(a + "/*") == Lits(a + "/") + [Star]
  {
    TokenizeLiteral(a, "/*");
    assert a + "/*" == a + "/*";
    assert !HasPrefix("/*", "/**/");
    assert "/*"[1..] == "*";
    TokenizeStarHead("*");
    assert Tokenize("*"[1..]) == [];
    assert Tokenize("/*") == [Lit('/')] + [Star];
    assert Lits(a + "/") == Lits(a) + [Lit('/')];
  }

  /** What `a/**/` accepts: `a/` followed by groups. */
  lemma DeepDirShape(a: string, x: string) returns (u: string)
    requires NoStar(a) && GlobMatch(a + "/**/", x)
    ensures x == a + "/" + u && Segments(u)
  {
    assert a + "/**/" + "" == a + "/**/";
    AnyDepth(a, "", x);
    u := x[|a| + 1..];
    assert u[..|u| - 0] == u;
    assert x == x[..|a| + 1] + u;
  }

  /** Groups followed by groups are groups. */
  lemma {:induction false} SegmentsAppend(u: string, v: string)
    requires Segments(u) && Segments(v)
    ensures Segments(u + v)
    decreases |u|
  {
    if u != [] {
      var i := FirstSlash(u);
      FirstSlashFirst(u);
      var name := u[..i];
      var tail := u[i + 1..];
      SegmentsAppend(tail, v);
      SegmentsCons(name, tail + v);
      assert u == name + "/" + tail;
      Reassociate(name, "/", tail, v);
    } else {
      assert u + v == v;
    }
  }

  /** `a/**/b` accepts `a/` + groups + `b` whenever the middle is groups. */
  lemma AnyDepthWith(a: string, b: string, mid: string, s: string)
    requires NoStar(a) && NoStar(b) && Segments(mid)
    requires s == a + "/" + mid + b
    ensures GlobMatch(a + "/**/" + b, s)
  {
    DeepShapeOf(a, b, mid, s);
    AnyDepth(a, b, s);
  }

  lemma DeepShapeOf(a: string, b: string, mid: string, s: string)
    requires Segments(mid)
    requires s == a + "/" + mid + b
    ensures DeepShape(a, b, s)
  {
    var u := s[|a| + 1..];
    assert s[..|a| + 1] == a + "/";
    assert u == mid + b;
    assert u[..|u| - |b|] == mid;
    assert u[|u| - |b|..] == b;
  }

  /** After the leading '/' of "/**/", any run of whole groups may be
      skipped before the rest of the pattern takes over. */
  lemma {:induction false} DeepSkip(rest: seq<Token>, mid: string, w: string)
    requires Segments(mid) && Match(rest, w)
    ensures MatchDeep(rest, mid + w)
    decreases |mid|
  {
    if mid == [] {
      assert mid + w == w;
    } else {
      var i := FirstSlash(mid);
      FirstSlashFirst(mid);
      var v := mid + w;
      assert forall j :: 0 <= j <= i ==> v[j] == mid[j];
      FirstSlashAt(v, i);
      assert v[i + 1..] == mid[i + 1..] + w;
      DeepSkip(rest, mid[i + 1..], w);
    }
  }

  lemma TokenizeAllHead(q: string)
    requires HasPrefix(q, "/**/")
    ensures Tokenize(q) == [All] + Tokenize(q[4..])
  {
  }

  lemma TokenizeStarHead(q: string)
    requires q != [] && q[0] == '*'
    ensures Tokenize(q) == [Star] + Tokenize(q[1..])
  {
    assert !HasPrefix(q, "/**/");
  }

  lemma TokenizeDeepStar(a: string, ext: string)
    requires NoStar(a) && NoStar(ext)
    ensures Tokenize(a + "/**/*" + ext) == Lits(a) + ([All] + ([Star] + Lits(ext)))
  {
    var r := "*" + ext;
    var q := "/**/" + r;
    assert a + "/**/*" + ext == a + q by {
      assert "/**/*" == "/**/" + "*";
    }
    TokenizeLiteral(a, q);
    assert q[4..] == r;
    TokenizeAllHead(q);
    assert r[1..] == ext;
    TokenizeStarHead(r);
    TokenizeLiteral(ext, []);
    assert ext + [] == ext;
    assert Lits(ext) + [] == Lits(ext);
  }

  /** `a/**/*ext` accepts `a/`, then any groups, then a non-empty name
      followed by `ext`. */
  lemma DeepStarFile(a: string, ext: string, mid: string, name: string, s: string)
    requires NoStar(a) && NoStar(ext) && Segments(mid)
    requires name != [] && NoSlash(name)
    requires s == a + "/" + mid + name + ext
    ensures GlobMatch(a + "/**/*" + ext, s)
  {
    TokenizeDeepStar(a, ext);
    var rest := [Star] + Lits(ext);
    var w := name + ext;
    StarStaysInSegment(Lits(ext), w);
    assert w[..|name|] == name && w[|name|..] == ext;
    LitsExact(ext, ext);
    assert Match(rest, w);
    DeepSkip(rest, mid, w);
    var t := "/" + (mid + w);
    MatchAllHead(rest, t);
    assert t[1..] == mid + w;
    LitsPrefix(a, [All] + rest, s);
    Regroup(a, "/", mid, name, ext);
    assert s[..|a|] == a && s[|a|..] == t;
  }

  lemma Regroup(a: string, b: string, c: string, d: string, e: string)
    ensures a + b + c + d + e == a + (b + (c + (d + e)))
  {
  }

  lemma AnyDepthFlat()
    ensures GlobMatch("a/**/b", "a/b")
  {
    AnyDepthWith("a", "b", "", "a/b");
    assert "a" + "/**/" + "b" == "a/**/b";
  }

  lemma AnyDepthNested()
    ensures GlobMatch("a/**/b", "a/x/y/b")
  {
    SegmentsCons("y", "");
    assert "y" + "/" + "" == "y/";
    SegmentsCons("x", "y/");
    assert "x" + "/" + "y/" == "x/y/";
    AnyDepthWith("a", "b", "x/y/", "a/x/y/b");
    assert "a" + "/**/" + "b" == "a/**/b";
  }

  lemma AnyDepthNoEmptyGroup()
    ensures !GlobMatch("a/**/b", "a//b")
  {
    var s := "a//b";
    FirstSlashAt("/", 0);
    assert !Segments("/");
    assert s[2..] == "/b" && "/b"[..1] == "/";
    assert !DeepShape("a", "b", s);
    AnyDepth("a", "b", s);
    assert "a" + "/**/" + "b" == "a/**/b";
  }
  // ---------------------------------------------------------------------
  // Patterns whose last part is a single segment.

  /** Tokens that only ever stand for text inside one path segment. */
  predicate Flat(ts: seq<Token>) {
    forall i :: 0 <= i < |ts| ==> ts[i] != All && ts[i] != Lit('/')
  }

  lemma {:induction false} TokenizeFlat(b: string)
    requires NoSlash(b)
    ensures Flat(Tokenize(b)) && (b != [] ==> Tokenize(b) != [])
    decreases |b|
  {
    if b != [] {
      if |b| >= 4 {
        assert b[..4][0] != "/**/"[0];
      }
      var r := b[1..];
      assert NoSlash(r);
      TokenizeFlat(r);
      var t := if b[0] == '*' then Star else Lit(b[0]);
      assert Tokenize(b) == [t] + Tokenize(r);
      assert forall i :: 0 < i < |Tokenize(b)| ==> Tokenize(b)[i] == Tokenize(r)[i - 1];
    }
  }

  /** A word read by flat tokens lies inside one segment, and it is empty
      only when there are no tokens. */
  lemma {:induction false} FlatWord(ts: seq<Token>, w: string)
    requires Flat(ts) && Spec(ts, w)
    ensures NoSlash(w) && (ts != [] ==> w != [])
    decreases |ts|
  {
    if ts != [] {
      var k :| 0 <= k <= |w| && Word(ts[0], Before(w, k)) && Spec(ts[1..], After(w, k));
      assert forall i :: 0 <= i < |ts| - 1 ==> ts[1..][i] == ts[i + 1];
      FlatWord(ts[1..], w[k..]);
      assert ts[0] != All && ts[0] != Lit('/');
      assert k > 0 && NoSlash(w[..k]);
      assert forall j :: 0 <= j < k ==> w[j] == w[..k][j];
      assert forall j :: k <= j < |w| ==> w[j] == w[k..][j - k];
    }
  }

  /** Splits a `MatchDeep` word into its groups and the rest. */
  lemma {:induction false} DeepSplit(rest: seq<Token>, u: string) returns (k: int)
    requires MatchDeep(rest, u)
    ensures 0 <= k <= |u| && Segments(u[..k]) && Match(rest, u[k..])
    decreases |u|
  {
    if Match(rest, u) {
      k := 0;
      assert u[..0] == [] && u[0..] == u;
    } else {
      var i := FirstSlash(u);
      var k' := DeepSplit(rest, u[i + 1..]);
      k := i + 1 + k';
      assert u[i + 1..][..k'] == u[i + 1..k];
      SegmentsGrow(u, i, k);
      assert u[i + 1..][k'..] == u[k..];
    }
  }

  /** Groups cut right after one of their '/' are groups again. */
  lemma {:induction false} SegmentsCut(u: string, k: int)
    requires Segments(u) && 0 < k <= |u| && u[k - 1] == '/'
    ensures Segments(u[..k])
    decreases |u|
  {
    var i := FirstSlash(u);
    FirstSlashFirst(u);
    if k - 1 > i {
      var t := u[i + 1..];
      assert t[k - i - 2] == u[k - 1];
      SegmentsCut(t, k - i - 1);
      assert t[..k - i - 1] == u[i + 1..k];
    } else {
      assert u[i + 1..k] == [];
    }
    SegmentsGrow(u, i, k);
  }

  lemma TokenizeDeepAny(a: string, b: string)
    requires NoStar(a)
    ensures Tokenize(a + "/**/" + b) == Lits(a) + ([All] + Tokenize(b))
  {
    var q := "/**/" + b;
    assert a + "/**/" + b == a + q;
    TokenizeLiteral(a, q);
    assert q[4..] == b;
    TokenizeAllHead(q);
  }

  /** A path matched by `a/**/b`, where `b` is a pattern for one segment, is
      `a/`, then whole groups, then one non-empty name. */
  lemma DeepMatchShape(a: string, b: string, f: string) returns (mid: string, w: string)
    requires NoStar(a) && NoSlash(b) && b != []
    requires GlobMatch(a + "/**/" + b, f)
    ensures f == a + "/" + mid + w && Segments(mid) && w != [] && NoSlash(w)
  {
    TokenizeDeepAny(a, b);
    LitsPrefix(a, [All] + Tokenize(b), f);
    var t := f[|a|..];
    mid, w := AllMatchSplit(Tokenize(b), t);
    FlatMatch(b, w);
    assert f == f[..|a|] + t;
    Regroup4(a, "/", mid, w);
  }

  /** What an `All` token and the tokens after it consume. */
  lemma AllMatchSplit(rest: seq<Token>, t: string) returns (mid: string, w: string)
    requires Match([All] + rest, t)
    ensures t == "/" + (mid + w) && Segments(mid) && Match(rest, w)
  {
    MatchAllHead(rest, t);
    var u := t[1..];
    var k := DeepSplit(rest, u);
    mid := u[..k];
    w := u[k..];
    assert u == mid + w;
    assert t == [t[0]] + u;
  }

  /** A one-segment pattern matches only non-empty names. */
  lemma FlatMatch(b: string, w: string)
    requires NoSlash(b) && b != [] && Match(Tokenize(b), w)
    ensures w != [] && NoSlash(w)
  {
    MatchIsSpec(Tokenize(b), w);
    TokenizeFlat(b);
    FlatWord(Tokenize(b), w);
  }

  lemma Regroup4(a: string, b: string, c: string, d: string)
    ensures a + (b + (c + d)) == a + b + c + d
  {
  }

  /** Every directory prefix (ending in '/') of a path that `a/**/b`
      matches either leads toward the pattern (the pattern text starts with
      it) or is matched by the directory part `a/**/`. */
  lemma DeepMatchAncestor(a: string, b: string, f: string, x: string)
    requires NoStar(a) && NoSlash(b) && b != []
    requires GlobMatch(a + "/**/" + b, f)
    requires x != [] && x[|x| - 1] == '/' && HasPrefix(f, x)
    ensures HasPrefix(a + "/**/" + b, x) || GlobMatch(a + "/**/", x)
  {
    var mid, w := DeepMatchShape(a, b, f);
    if |x| <= |a| + 1 {
      AncestorOnPattern(a, b, a + "/" + mid + w, x);
    } else {
      AncestorInGroups(a, mid, w, x);
    }
  }

  /** A directory prefix no longer than `a/` is a prefix of the pattern. */
  lemma AncestorOnPattern(a: string, b: string, f: string, x: string)
    requires HasPrefix(f, a + "/") && |x| <= |a| + 1 && HasPrefix(f, x)
    ensures HasPrefix(a + "/**/" + b, x)
  {
    var p := a + "/**/" + b;
    assert forall j :: 0 <= j < |x| ==> x[j] == f[j];
    assert forall j :: 0 <= j <= |a| ==> f[j] == p[j];
    assert x == p[..|x|];
  }

  /** A directory prefix reaching into the groups is `a/` and whole groups. */
  lemma AncestorInGroups(a: string, mid: string, w: string, x: string)
    requires NoStar(a) && Segments(mid) && NoSlash(w)
    requires x != [] && x[|x| - 1] == '/' && |a| + 1 < |x|
    requires HasPrefix(a + "/" + mid + w, x)
    ensures GlobMatch(a + "/**/", x)
  {
    var f := a + "/" + mid + w;
    var n := |a| + 1 + |mid|;
    assert f[|x| - 1] == '/';
    assert forall j :: n <= j < |f| ==> f[j] == w[j - n];
    var k := |x| - |a| - 1;
    assert mid[k - 1] == f[|x| - 1];
    SegmentsCut(mid, k);
    assert x == a + "/" + mid[..k] + "";
    AnyDepthWith(a, "", mid[..k], x);
    assert a + "/**/" + "" == a + "/**/";
  }
}
