/**
 Lexical paths of the VFS (src/vfs.cpp:357-491, with strtok_r of src/libc/libc.cpp:447-468).
 */
module Paths {
  import opened Bytes

  const SLASH: Byte := 47
  const DOT: Byte := 46

  /** A path component. */
  type Name = seq<Byte>

  predicate IsName(c: Name) {
    c != [] && SLASH !in c
  }

  predicate IsClean(c: Name) {
    IsName(c) && c != [DOT] && c != [DOT, DOT]
  }

  ghost predicate AllNames(l: seq<Name>) {
    forall k | 0 <= k < |l| :: IsName(l[k])
  }

  ghost predicate AllClean(l: seq<Name>) {
    forall k | 0 <= k < |l| :: IsClean(l[k])
  }

  /** The first position from `i` on with a separator, or the end. */
  function SlashFrom(s: seq<Byte>, i: nat): (k: nat)
    requires i <= |s|
    ensures i <= k <= |s| && (k < |s| ==> s[k] == SLASH) && SLASH !in s[i..k]
    decreases |s| - i
  {
    if i == |s| || s[i] == SLASH then i else SlashFrom(s, i + 1)
  }

  /** The components of a path: what separators separate, empty ones left out. */
  function Tokens(s: seq<Byte>): seq<Name>
    decreases |s|
  {
    if s == [] then [] else if s[0] == SLASH then Tokens(s[1..])
    else [s[..SlashFrom(s, 0)]] + Tokens(s[SlashFrom(s, 0)..])
  }

  lemma {:induction false} TokensAreNames(s: seq<Byte>)
    ensures AllNames(Tokens(s))
    decreases |s|
  {
    if s == [] {
    } else if s[0] == SLASH {
      TokensAreNames(s[1..]);
    } else {
      TokensAreNames(s[SlashFrom(s, 0)..]);
      assert s[0..SlashFrom(s, 0)] == s[..SlashFrom(s, 0)];
      assert s[..SlashFrom(s, 0)][0] == s[0];
    }
  }

  /** Components joined again, each after a separator; nothing but the separator for none. */
  function Joined(l: seq<Name>): seq<Byte> {
    if l == [] then [] else [SLASH] + l[0] + Joined(l[1..])
  }

  function Path(l: seq<Name>): seq<Byte> {
    if l == [] then [SLASH] else Joined(l)
  }

  lemma NoSlash(s: seq<Byte>, i: nat, k: nat)
    requires i <= k <= |s| && SLASH !in s[i..k]
    ensures forall j | i <= j < k :: s[j] != SLASH
  {
    forall j | i <= j < k ensures s[j] != SLASH {
      assert s[i..k][j - i] == s[j];
    }
  }

  lemma SlashIsAt(s: seq<Byte>, k: nat)
    requires k <= |s| && (k < |s| ==> s[k] == SLASH) && SLASH !in s[0..k]
    ensures SlashFrom(s, 0) == k
  {
    NoSlash(s, 0, k);
    NoSlash(s, 0, SlashFrom(s, 0));
  }

  /** Parsing a joined list gives the list back. */
  lemma {:induction false} TokensOfJoined(l: seq<Name>)
    requires AllNames(l)
    ensures Tokens(Joined(l)) == l
  {
    if l != [] {
      var s, rest := Joined(l), Joined(l[1..]);
      assert AllNames(l[1..]);
      TokensOfJoined(l[1..]);
      assert s[1..] == l[0] + rest;
      var t := l[0] + rest;
      assert t[..|l[0]|] == l[0] && t[|l[0]|..] == rest;
      assert IsName(l[0]) && t[0] == l[0][0] && t[0] in l[0];
      SlashIsAt(t, |l[0]|);
    }
  }

  lemma TokensOfPath(l: seq<Name>)
    requires AllNames(l)
    ensures Tokens(Path(l)) == l
  {
    if l == [] {
      assert Path(l)[1..] == [];
    } else {
      TokensOfJoined(l);
    }
  }

  lemma {:induction false} JoinedAppend(a: seq<Name>, b: seq<Name>)
    ensures Joined(a + b) == Joined(a) + Joined(b)
  {
    if a == [] {
      assert a + b == b;
    } else {
      assert (a + b)[1..] == a[1..] + b;
      JoinedAppend(a[1..], b);
    }
  }

  /** Tokens before and after a separator. */
  lemma {:induction false} TokensAppend(s: seq<Byte>, t: seq<Byte>)
    requires t == [] || t[0] == SLASH
    ensures Tokens(s + t) == Tokens(s) + Tokens(t)
    decreases |s|
  {
    if s == [] {
      assert s + t == t;
    } else if s[0] == SLASH {
      assert (s + t)[1..] == s[1..] + t;
      TokensAppend(s[1..], t);
    } else {
      var k := SlashFrom(s, 0);
      assert (s + t)[..k] == s[..k] == s[0..k];
      assert (s + t)[k..] == s[k..] + t;
      SlashIsAt(s + t, k);
      TokensAppend(s[k..], t);
    }
  }

  // ---------- Canonicalisation ----------

  /** What the components of an input do to the stack. */
  function Resolve(stack: seq<Name>, tokens: seq<Name>): seq<Name>
    decreases |tokens|
  {
    if tokens == [] then stack
    else if tokens[0] == [DOT, DOT] then Resolve(if stack == [] then [] else stack[..|stack| - 1], tokens[1..])
    else if tokens[0] == [DOT] then Resolve(stack, tokens[1..])
    else Resolve(stack + [tokens[0]], tokens[1..])
  }

  /** Where the resolution begins: at the working directory for a relative path, at the root otherwise. */
  function Start(cwd: seq<Byte>, input: seq<Byte>): seq<Name> {
    if input != [] && input[0] != SLASH then Tokens(cwd) else []
  }

  function Canonical(cwd: seq<Byte>, input: seq<Byte>): seq<Byte> {
    Path(Resolve(Start(cwd, input), Tokens(input)))
  }

  lemma {:induction false} ResolveAppend(stack: seq<Name>, a: seq<Name>, b: seq<Name>)
    ensures Resolve(stack, a + b) == Resolve(Resolve(stack, a), b)
    decreases |a|
  {
    if a == [] {
      assert a + b == b;
    } else {
      assert (a + b)[1..] == a[1..] + b;
      ResolveAppend(if a[0] == [DOT, DOT] then (if stack == [] then [] else stack[..|stack| - 1])
        else if a[0] == [DOT] then stack else stack + [a[0]], a[1..], b);
    }
  }

  /** Clean components are pushed, one after the other. */
  lemma {:induction false} ResolveClean(stack: seq<Name>, l: seq<Name>)
    requires AllClean(l)
    ensures Resolve(stack, l) == stack + l
    decreases |l|
  {
    if l != [] {
      assert IsClean(l[0]) && AllClean(l[1..]);
      ResolveClean(stack + [l[0]], l[1..]);
      assert stack + [l[0]] + l[1..] == stack + l;
    }
  }

  /**
   How many components at the bottom of a stack of height `h` are never popped; `low` is the
   lowest height so far.
   */
  function Low(h: nat, low: nat, tokens: seq<Name>): (r: nat)
    requires low <= h
    ensures r <= low
    decreases |tokens|
  {
    if tokens == [] then low
    else if tokens[0] == [DOT, DOT] then
      var less := if h == 0 then 0 else h - 1;
      Low(less, if less < low then less else low, tokens[1..])
    else if tokens[0] == [DOT] then Low(h, low, tokens[1..])
    else Low(h + 1, low, tokens[1..])
  }

  ghost predicate CleanIn(l: seq<Name>, from: nat, to: nat) {
    from <= to <= |l| && forall k | from <= k < to :: IsClean(l[k])
  }

  /** Nothing but clean components is ever pushed: the result is clean exactly if what is never popped is. */
  lemma {:induction false} ResolvedIsClean(stack: seq<Name>, low: nat, tokens: seq<Name>)
    requires CleanIn(stack, low, |stack|) && AllNames(stack) && AllNames(tokens)
    ensures AllClean(Resolve(stack, tokens)) <==> CleanIn(stack, 0, Low(|stack|, low, tokens))
    ensures AllNames(Resolve(stack, tokens))
    decreases |tokens|
  {
    if tokens != [] {
      assert IsName(tokens[0]) && AllNames(tokens[1..]);
      if tokens[0] == [DOT, DOT] {
        var less: nat := if stack == [] then 0 else |stack| - 1;
        assert (if stack == [] then [] else stack[..|stack| - 1]) == stack[..less];
        ResolvedIsClean(stack[..less], if less < low then less else low, tokens[1..]);
      } else if tokens[0] == [DOT] {
        ResolvedIsClean(stack, low, tokens[1..]);
      } else {
        var more := stack + [tokens[0]];
        ResolvedIsClean(more, low, tokens[1..]);
        var kept := Low(|more|, low, tokens[1..]);
        assert forall k | 0 <= k < kept :: more[k] == stack[k];
      }
    }
  }

  /** The components of the working directory that the input leaves in place. */
  function KeptOfStart(cwd: seq<Byte>, input: seq<Byte>): seq<Name> {
    var start := Start(cwd, input);
    start[..Low(|start|, |start|, Tokens(input))]
  }

  /**
   The result is always `/` or a list of components, which parsing gives back.  It is free of
   dots exactly if the components of the working directory that the input leaves in place are:
   those are not resolved themselves.
   */
  lemma CanonicalIsClean(cwd: seq<Byte>, input: seq<Byte>)
    ensures Canonical(cwd, input) == Path(Tokens(Canonical(cwd, input))) && AllNames(Tokens(Canonical(cwd, input)))
    ensures AllClean(Tokens(Canonical(cwd, input))) <==> AllClean(KeptOfStart(cwd, input))
  {
    TokensAreNames(input);
    TokensAreNames(cwd);
    var start := Start(cwd, input);
    ResolvedIsClean(start, |start|, Tokens(input));
    TokensOfPath(Resolve(start, Tokens(input)));
  }

  /** So it is for every absolute input, and for every input in a clean directory. */
  lemma CleanInCleanDirectory(cwd: seq<Byte>, input: seq<Byte>)
    requires input == [] || input[0] == SLASH || AllClean(Tokens(cwd))
    ensures AllClean(Tokens(Canonical(cwd, input)))
  {
    CanonicalIsClean(cwd, input);
    var start, kept := Start(cwd, input), KeptOfStart(cwd, input);
    forall k | 0 <= k < |kept| ensures IsClean(kept[k]) {
      assert IsClean(start[k]);
    }
  }

  /** Dots are never pushed. */
  lemma {:induction false} DotsAreLost(stack: seq<Name>, tokens: seq<Name>)
    requires AllNames(tokens)
    ensures |Resolve(stack, tokens)| <= |stack| + |tokens|
    ensures |Resolve(stack, tokens)| == |stack| + |tokens| ==> AllClean(tokens)
    decreases |tokens|
  {
    if tokens != [] {
      assert IsName(tokens[0]) && AllNames(tokens[1..]);
      var next := if tokens[0] == [DOT, DOT] then (if stack == [] then [] else stack[..|stack| - 1])
        else if tokens[0] == [DOT] then stack else stack + [tokens[0]];
      DotsAreLost(next, tokens[1..]);
      forall k | 0 <= k < |tokens| && |Resolve(stack, tokens)| == |stack| + |tokens| ensures IsClean(tokens[k]) {
        if k > 0 {
          assert IsClean(tokens[1..][k - 1]);
        }
      }
    }
  }

  /** Canonicalising the result again, from wherever, changes nothing exactly if it is clean. */
  lemma CanonicalIsIdempotent(cwd: seq<Byte>, input: seq<Byte>, other: seq<Byte>)
    ensures Canonical(other, Canonical(cwd, input)) == Canonical(cwd, input) <==>
      AllClean(Tokens(Canonical(cwd, input)))
  {
    CanonicalIsClean(cwd, input);
    var l := Tokens(Canonical(cwd, input));
    StartsWithSlash(l);
    var again := Resolve([], l);
    if AllClean(l) {
      ResolveClean([], l);
      assert [] + l == l;
    } else if Path(again) == Path(l) {
      var none: seq<Name> := [];
      ResolvedIsClean(none, 0, l);
      TokensOfPath(again);
      DotsAreLost([], l);
    }
  }

  lemma StartsWithSlash(l: seq<Name>)
    ensures Path(l) != [] && Path(l)[0] == SLASH
  {
  }

  /** In a directory given as `/..` the path `b` becomes `/../b`. */
  lemma DotsInCwdStay()
    ensures Canonical([SLASH, DOT, DOT], [98]) == [SLASH, DOT, DOT, SLASH, 98]
    ensures !AllClean(Tokens(Canonical([SLASH, DOT, DOT], [98])))
  {
    var up: seq<Name> := [[DOT, DOT]];
    var b: seq<Byte> := [98];
    assert up[1..] == [] && Joined(up[1..]) == [];
    assert [SLASH] + [DOT, DOT] + [] == [SLASH, DOT, DOT];
    TokensOfPath(up);
    TokenAt(b, 0, 1);
    assert b[0..] == b == b[0..1] && b[1..] == [];
    var bs := [b];
    assert IsClean(b) && Tokens(b) == bs;
    ResolveClean(up, bs);
    var l := up + bs;
    assert l[1..] == bs && bs[1..] == [] && Joined(bs[1..]) == [];
    assert Joined(bs) == [SLASH] + b + [];
    assert Path(l) == [SLASH] + [DOT, DOT] + Joined(bs);
    TokensOfPath(l);
    assert !IsClean(l[0]);
  }

  // ---------- The program ----------

  /** The tokens from the one just found on. */
  function Rest(s: seq<Byte>, save: nat, found: bool, token: Name): seq<Name>
    requires save <= |s|
  {
    if found then [token] + Tokens(s[save..]) else []
  }

  lemma OneTokenOn(out: seq<Name>, token: Name, rest: seq<Name>)
    ensures (out + [token]) + rest == out + ([token] + rest)
  {
  }

  /** `strtok_r` with the separator as only delimiter: the next token of `s` from `save` on. */
  method StrTok(s: seq<Byte>, save: nat) returns (found: bool, token: Name, next: nat)
    requires save <= |s|
    ensures save <= next <= |s|
    ensures Tokens(s[save..]) == Rest(s, next, found, token) && (found ==> save < next)
  {
    hide Tokens;
    var p := save;
    while p < |s| && s[p] == SLASH
      invariant save <= p <= |s| && Tokens(s[p..]) == Tokens(s[save..])
    {
      SeparatorSkipped(s, p);
      p := p + 1;
    }
    if p == |s| {
      NoMoreTokens(s);
      return false, [], p;
    }
    var q := p;
    while q < |s| && s[q] != SLASH
      invariant p <= q <= |s| && SLASH !in s[p..q]
    {
      assert s[p..q + 1] == s[p..q] + [s[q]];
      q := q + 1;
    }
    TokenAt(s, p, q);
    found, token := true, s[p..q];
    if q < |s| {
      SeparatorSkipped(s, q);
      next := q + 1;
    } else {
      next := q;
    }
  }

  lemma SeparatorSkipped(s: seq<Byte>, p: nat)
    requires p < |s| && s[p] == SLASH
    ensures Tokens(s[p..]) == Tokens(s[p + 1..])
  {
    assert s[p..][1..] == s[p + 1..];
  }

  lemma NoMoreTokens(s: seq<Byte>)
    ensures Tokens(s[|s|..]) == []
  {
  }

  lemma TokenAt(s: seq<Byte>, p: nat, q: nat)
    requires p < q <= |s| && SLASH !in s[p..q] && (q < |s| ==> s[q] == SLASH)
    ensures Tokens(s[p..]) == [s[p..q]] + Tokens(s[q..])
  {
    var t := s[p..];
    assert t[..q - p] == s[p..q] == t[0..q - p] && t[q - p..] == s[q..];
    SlashIsAt(t, q - p);
    NoSlash(s, p, q);
  }

  /** The working directory goes onto the stack as it is. */
  method PushTokens(cwd: seq<Byte>) returns (out: seq<Name>)
    ensures out == Tokens(cwd)
  {
    out := [];
    var found, token, save := StrTok(cwd, 0);
    assert cwd[0..] == cwd;
    while found
      invariant save <= |cwd| && Tokens(cwd) == out + Rest(cwd, save, found, token)
      decreases |cwd| - save, found
    {
      OneTokenOn(out, token, Tokens(cwd[save..]));
      out := out + [token];
      found, token, save := StrTok(cwd, save);
    }
  }

  /** One component of the input. */
  method Step(stack: seq<Name>, pch: Name) returns (out: seq<Name>)
    ensures out == Resolve(stack, [pch])
  {
    ghost var one: seq<Name> := [pch];
    assert one[1..] == [];
    out := stack;
    if pch == [DOT, DOT] {
      if out != [] {
        out := out[..|out| - 1];
      }
    } else if pch == [DOT] {
    } else {
      out := out + [pch];
    }
  }

  /** `canonicalize_path` */
  method CanonicalizePath(cwd: seq<Byte>, input: seq<Byte>) returns (output: seq<Byte>)
    ensures output == Canonical(cwd, input)
  {
    var out: seq<Name> := [];
    if input != [] && input[0] != SLASH {
      out := PushTokens(cwd);
    }
    ghost var start := out;
    var found, pch, save := StrTok(input, 0);
    assert input[0..] == input;
    ghost var done: seq<Name> := [];
    hide Resolve;
    NothingResolved(start);
    while found
      invariant save <= |input| && Tokens(input) == done + Rest(input, save, found, pch)
      invariant out == Resolve(start, done)
      decreases |input| - save, found
    {
      ResolveAppend(start, done, [pch]);
      out := Step(out, pch);
      OneTokenOn(done, pch, Tokens(input[save..]));
      done := done + [pch];
      found, pch, save := StrTok(input, save);
    }
    assert Tokens(input) == done;
    output := Join(out);
  }

  lemma NothingResolved(stack: seq<Name>)
    ensures Resolve(stack, []) == stack
  {
  }

  /** The join of the components; a path without any is the root. */
  method Join(out: seq<Name>) returns (output: seq<Byte>)
    ensures output == Path(out)
  {
    if out == [] {
      return [SLASH];
    }
    output := [];
    var k := 0;
    assert out[..0] == [];
    while k < |out|
      invariant 0 <= k <= |out| && output == Joined(out[..k])
    {
      JoinedAppend(out[..k], [out[k]]);
      assert out[..k + 1] == out[..k] + [out[k]] && Joined([out[k]]) == [SLASH] + out[k];
      output := output + [SLASH] + out[k];
      k := k + 1;
    }
    assert out[..|out|] == out;
  }

  /** `get_parent`: the path handed to the lookup of the parent, and where the last component begins. */
  method GetParent(path: seq<Byte>, ghost l: seq<Name>) returns (parentPath: seq<Byte>, fPath: nat)
    requires AllClean(l) && l != [] && path == Path(l)
    ensures fPath <= |path| && path[fPath..] == l[|l| - 1]
    ensures forall cwd :: Canonical(cwd, parentPath) == Path(l[..|l| - 1])
  {
    ghost var front, last := l[..|l| - 1], l[|l| - 1];
    parentPath := path + [SLASH, DOT, DOT];
    ParentOf(l, parentPath);
    JoinedAppend(front, [last]);
    assert l == front + [last] && Joined([last]) == [SLASH] + last;
    ghost var at := |Joined(front)| + 1;
    assert path == Joined(front) + [SLASH] + last;
    assert path[at..] == last && path[at - 1] == SLASH && IsClean(last);
    fPath := |path| - 1;
    while fPath > 0
      invariant at - 1 <= fPath < |path|
      invariant forall k | fPath < k < |path| :: path[k] != SLASH
      decreases fPath
    {
      if path[fPath] == SLASH {
        LastSlash(path, last, at, fPath);
        fPath := fPath + 1;
        break;
      }
      if fPath >= at {
        assert path[fPath] == last[fPath - at];
      }
      fPath := fPath - 1;
    }
    if path[fPath] == SLASH {
      LastSlash(path, last, at, fPath);
      fPath := fPath + 1;
    }
  }

  lemma LastSlash(path: seq<Byte>, last: Name, at: nat, k: nat)
    requires 0 < at <= |path| && path[at..] == last && SLASH !in last && k < |path| && path[k] == SLASH && at - 1 <= k
    ensures k == at - 1
  {
    assert path[at..] == path[at..|path|];
    NoSlash(path, at, |path|);
  }

  /** Going up from a canonical path leaves all but the last component. */
  lemma ParentOf(l: seq<Name>, parentPath: seq<Byte>)
    requires AllClean(l) && l != [] && parentPath == Path(l) + [SLASH, DOT, DOT]
    ensures forall cwd :: Canonical(cwd, parentPath) == Path(l[..|l| - 1])
  {
    var up: seq<Byte> := [SLASH, DOT, DOT];
    forall k | 0 <= k < |l| ensures IsName(l[k]) {
      assert IsClean(l[k]);
    }
    TokensOfPath(l);
    TokensAppend(Path(l), up);
    var twoDots: seq<Name> := [[DOT, DOT]];
    assert twoDots[1..] == [];
    assert up == Joined(twoDots);
    TokensOfJoined(twoDots);
    ResolveAppend([], l, twoDots);
    ResolveClean([], l);
    assert [] + l == l;
    assert parentPath[0] == SLASH;
  }
}
