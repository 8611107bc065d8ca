/**
 What canonical paths are, said by paths alone (src/vfs.cpp:357-465): how relative inputs, dots
 and separators count.
 */
module PathLaws {
  import opened Bytes
  import opened Paths

  /** A relative input means what it means behind the working directory, if that is clean. */
  lemma RelativeIsAppended(cwd: seq<Byte>, input: seq<Byte>, other: seq<Byte>)
    requires cwd != [] && cwd[0] == SLASH && AllClean(Tokens(cwd)) && input != [] && input[0] != SLASH
    ensures Canonical(cwd, input) == Canonical(other, cwd + [SLASH] + input)
  {
    var whole, tail := cwd + [SLASH] + input, [SLASH] + input;
    assert whole == cwd + tail && tail[1..] == input;
    TokensAppend(cwd, tail);
    ResolveAppend([], Tokens(cwd), Tokens(input));
    ResolveClean([], Tokens(cwd));
    assert [] + Tokens(cwd) == Tokens(cwd);
  }

  /** For an absolute input the working directory does not matter, and no input at all is the root. */
  lemma AbsoluteAlone(cwd: seq<Byte>, input: seq<Byte>, other: seq<Byte>)
    requires input != [] ==> input[0] == SLASH
    ensures Canonical(cwd, input) == Canonical(other, input)
    ensures input == [] ==> Canonical(cwd, input) == [47]
  {
  }

  /** A relative path of clean components comes behind the directory. */
  lemma CleanIsAppended(l: seq<Name>, m: seq<Name>)
    requires AllNames(l) && AllClean(m) && m != []
    ensures Joined(m) != [] && Canonical(Path(l), Joined(m)[1..]) == Path(l + m)
  {
    hide Tokens, Joined, Resolve, Path;
    TokensOfPath(l);
    RelativeTokens(m);
    ResolveClean(l, m);
  }

  lemma RelativeTokens(m: seq<Name>)
    requires AllClean(m) && m != []
    ensures var input := Joined(m)[1..]; Joined(m) != [] && input != [] && input[0] != SLASH && Tokens(input) == m
  {
    forall k | 0 <= k < |m| ensures IsName(m[k]) {
      assert IsClean(m[k]);
    }
    TokensOfJoined(m);
    hide Tokens;
    var input := m[0] + Joined(m[1..]);
    assert Joined(m) == [SLASH] + input by {
      assert [SLASH] + m[0] + Joined(m[1..]) == [SLASH] + input;
    }
    hide Joined;
    assert IsName(m[0]) && input[0] == m[0][0] && m[0][0] in m[0];
    SeparatorFirst(input);
  }

  lemma SeparatorFirst(t: seq<Byte>)
    ensures ([SLASH] + t)[1..] == t && Tokens([SLASH] + t) == Tokens(t)
  {
  }

  lemma JoinedFew(x: Name, y: Name, z: Name)
    ensures Joined([x]) == [SLASH] + x && Joined([x, y]) == [SLASH] + x + [SLASH] + y
    ensures Joined([x, y, z]) == [SLASH] + x + [SLASH] + y + [SLASH] + z
  {
    var one: seq<Name>, two: seq<Name>, three: seq<Name> := [z], [y, z], [x, y, z];
    JoinedOne(x);
    JoinedOne(y);
    JoinedOne(z);
    hide Joined;
    JoinedAppend([x], [y]);
    assert [x] + [y] == [x, y] && [x, y] + [z] == [x, y, z];
    JoinedAppend([x, y], [z]);
  }

  lemma JoinedOne(x: Name)
    ensures Joined([x]) == [SLASH] + x
  {
    assert [x][1..] == [];
  }

  /** What stands between two parts of an input. */
  lemma Parts(cwd: seq<Byte>, a: seq<Byte>, mid: seq<Byte>, b: seq<Byte>)
    requires mid != [] && mid[0] == SLASH && (b == [] || b[0] == SLASH) && (a != [] || b != [])
    ensures Start(cwd, a + mid + b) == Start(cwd, a + b)
    ensures Tokens(a + mid + b) == Tokens(a) + (Tokens(mid) + Tokens(b)) && Tokens(a + b) == Tokens(a) + Tokens(b)
  {
    assert a + mid + b == a + (mid + b);
    TokensAppend(a, mid + b);
    TokensAppend(mid, b);
    TokensAppend(a, b);
  }

  /** If the components between two parts leave every stack as it is, they may as well not be there. */
  lemma Neutral(cwd: seq<Byte>, a: seq<Byte>, mid: seq<Byte>, b: seq<Byte>)
    requires mid != [] && mid[0] == SLASH && (b == [] || b[0] == SLASH) && (a != [] || b != [])
    requires forall stack :: Resolve(stack, Tokens(mid)) == stack
    ensures Canonical(cwd, a + mid + b) == Canonical(cwd, a + b)
  {
    hide Resolve, Tokens;
    Parts(cwd, a, mid, b);
    var start := Start(cwd, a + b);
    ResolveAppend(start, Tokens(a), Tokens(mid) + Tokens(b));
    ResolveAppend(Resolve(start, Tokens(a)), Tokens(mid), Tokens(b));
    ResolveAppend(start, Tokens(a), Tokens(b));
  }

  /** The component `.` changes nothing, wherever it stands. */
  lemma DotChangesNothing(cwd: seq<Byte>, a: seq<Byte>, b: seq<Byte>)
    requires (b == [] || b[0] == SLASH) && (a != [] || b != [])
    ensures Canonical(cwd, a + [SLASH, DOT] + b) == Canonical(cwd, a + b)
  {
    var names: seq<Name> := [[DOT]];
    assert names[1..] == [] && Joined(names) == [SLASH, DOT];
    TokensOfJoined(names);
    forall stack ensures Resolve(stack, Tokens([SLASH, DOT])) == stack {
    }
    Neutral(cwd, a, [SLASH, DOT], b);
  }

  /** A component and `..` behind it change nothing. */
  lemma UpTakesNameBack(cwd: seq<Byte>, a: seq<Byte>, x: Name, b: seq<Byte>)
    requires IsClean(x) && (b == [] || b[0] == SLASH) && (a != [] || b != [])
    ensures Canonical(cwd, a + ([SLASH] + x + [SLASH, DOT, DOT]) + b) == Canonical(cwd, a + b)
  {
    var names: seq<Name> := [x, [DOT, DOT]];
    var mid := [SLASH] + x + [SLASH, DOT, DOT];
    assert names[1..] == [[DOT, DOT]] && names[1..][1..] == [];
    assert Joined(names[1..]) == [SLASH, DOT, DOT];
    assert Joined(names) == mid;
    TokensOfJoined(names);
    forall stack ensures Resolve(stack, Tokens(mid)) == stack {
      assert (stack + [x])[..|stack|] == stack;
      assert Resolve(stack + [x], names[1..]) == Resolve(stack, names[1..][1..]);
    }
    Neutral(cwd, a, mid, b);
  }

  /** At the root, `..` changes nothing. */
  lemma UpFromRoot(cwd: seq<Byte>, b: seq<Byte>)
    requires b == [] || b[0] == SLASH
    ensures Canonical(cwd, [SLASH, DOT, DOT] + b) == Canonical(cwd, [SLASH] + b)
  {
    var names: seq<Name> := [[DOT, DOT]];
    assert names[1..] == [] && Joined(names) == [SLASH, DOT, DOT];
    TokensOfJoined(names);
    TokensAppend([SLASH, DOT, DOT], b);
    TokensAppend([SLASH], b);
    assert [SLASH][1..] == [];
    ResolveAppend([], names, Tokens(b));
    assert Resolve([], names) == [];
    assert [] + Tokens(b) == Tokens(b);
  }

  /** A separator more changes nothing, between components or at the end. */
  lemma SeparatorChangesNothing(cwd: seq<Byte>, a: seq<Byte>, b: seq<Byte>)
    requires (b == [] || b[0] == SLASH) && (a != [] || b != [])
    ensures Canonical(cwd, a + [SLASH] + b) == Canonical(cwd, a + b)
  {
    assert [SLASH][1..] == [];
    forall stack ensures Resolve(stack, Tokens([SLASH])) == stack {
    }
    Neutral(cwd, a, [SLASH], b);
  }

  /** In the directory `/a/b`, `c` is `/a/b/c`, and `./../c` is `/a/c`. */
  lemma Examples()
    ensures Canonical([47, 97, 47, 98], [99]) == [47, 97, 47, 98, 47, 99]
    ensures Canonical([47, 97, 47, 98], [46, 47, 46, 46, 47, 99]) == [47, 97, 47, 99]
  {
    hide Joined, Canonical, Path;
    PathOf([97], [98], [99]);
    PathOf([97], [99], [99]);
    RelativeOf([99]);
    CleanIsAppended([[97], [98]], [[99]]);
    assert [[97], [98]] + [[99]] == [[97], [98], [99]];
    DotsExample([97], [98], [99]);
  }

  lemma PathOf(x: Name, y: Name, z: Name)
    requires |x| == |y| == |z| == 1
    ensures Path([x, y]) == [47, x[0], 47, y[0]] && Path([x, y, z]) == [47, x[0], 47, y[0], 47, z[0]]
  {
    JoinedFew(x, y, z);
  }

  lemma RelativeOf(x: Name)
    ensures Joined([x]) != [] && Joined([x])[1..] == x
  {
    JoinedOne(x);
  }

  lemma DotsExample(a: Name, b: Name, c: Name)
    requires a == [97] && b == [98] && c == [99]
    ensures Canonical(Path([a, b]), [46, 47, 46, 46, 47, 99]) == Path([a, c])
  {
    hide Joined, Tokens;
    var names: seq<Name> := [[DOT], [DOT, DOT], c];
    var rest: seq<Name> := [[DOT, DOT], c];
    var input: seq<Byte> := [46, 47, 46, 46, 47, 99];
    JoinedFew([DOT], [DOT, DOT], c);
    assert Joined(names) == [SLASH] + input;
    TokensOfJoined(names);
    SeparatorFirst(input);
    TokensOfPath([a, b]);
    assert names[1..] == rest && rest[1..] == [c];
    assert [a, b][..1] == [a] && [a] + [c] == [a, c];
    ResolveClean([a], [c]);
    assert Resolve([a, b], rest) == Resolve([a], [c]);
    assert Resolve([a, b], names) == Resolve([a, b], rest);
  }
}
