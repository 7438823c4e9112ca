/**
 resolve_path of kernel/core/kernel.c: a path typed at the shell becomes an absolute path without `.`, `..`
 or empty components. The buffer-editing loop refines a stack of components.
 */
module ShellPaths {
  import opened Bytes
  import opened Ext2Dir
  import opened Ext2Paths

  const SPACE: byte := 32
  const BUFFER: nat := 127

  type Name = seq<byte>

  // -------------------------------------------------------------------- stack

  /** One component: `.` stays, `..` goes up if it can, a name goes down. */
  function Step(stack: seq<Name>, name: Name): seq<Name> {
    if name == DOT then stack
    else if name == DOTDOT then (if stack == [] then [] else stack[..|stack| - 1])
    else stack + [name]
  }

  function Walk(stack: seq<Name>, names: seq<Name>): seq<Name>
    decreases |names|
  {
    if names == [] then stack else Walk(Step(stack, names[0]), names[1..])
  }

  /** Each component behind a slash. */
  function Joined(stack: seq<Name>): seq<byte>
    decreases |stack|
  {
    if stack == [] then [] else Joined(stack[..|stack| - 1]) + [SLASH] + stack[|stack| - 1]
  }

  function Render(stack: seq<Name>): (p: seq<byte>)
    ensures p != [] && p[0] == SLASH
  {
    JoinedStarts(stack);
    if stack == [] then [SLASH] else Joined(stack)
  }

  lemma {:induction false} JoinedStarts(stack: seq<Name>)
    ensures stack != [] ==> Joined(stack) != [] && Joined(stack)[0] == SLASH
    decreases |stack|
  {
    if stack != [] { JoinedStarts(stack[..|stack| - 1]); }
  }

  /** A component: not empty, without slashes. */
  predicate IsName(name: Name) { name != [] && SLASH !in name }

  predicate AllNames(stack: seq<Name>) { forall i :: 0 <= i < |stack| ==> IsName(stack[i]) }

  predicate Canonical(stack: seq<Name>) {
    AllNames(stack) && forall i :: 0 <= i < |stack| ==> stack[i] != DOT && stack[i] != DOTDOT
  }

  // ------------------------------------------------------------- specification

  function Trimmed(input: seq<byte>): seq<byte> {
    if input != [] && input[0] == SPACE then Trimmed(input[1..]) else input
  }

  /** The path before normalisation: relative input goes behind the working directory. */
  function Raw(cwd: seq<byte>, input: seq<byte>): seq<byte> {
    var rest := Trimmed(input);
    if rest != [] && rest[0] == SLASH then rest
    else cwd + (if |cwd| > 1 && cwd[|cwd| - 1] != SLASH then [SLASH] else []) + rest
  }

  /** What the buffer holds of it. */
  function Cut(raw: seq<byte>): seq<byte> { if |raw| > BUFFER then raw[..BUFFER] else raw }

  function Resolved(cwd: seq<byte>, input: seq<byte>): seq<byte> {
    Render(Walk([], Names(Cut(Raw(cwd, input)))))
  }

  /** The slash behind the working directory has a place in the buffer. */
  predicate SlashFits(cwd: seq<byte>, input: seq<byte>) {
    var rest := Trimmed(input);
    (rest != [] && rest[0] == SLASH) || |cwd| < BUFFER || (|cwd| == BUFFER && cwd[|cwd| - 1] == SLASH)
  }

  // -------------------------------------------------------------------- lemmas

  lemma {:induction false} NamesAreNames(path: seq<byte>)
    ensures AllNames(Names(path))
    decreases |path|
  {
    if path != [] {
      if path[0] == SLASH { NamesAreNames(path[1..]); } else { NamesAreNames(path[NameLength(path)..]); }
    }
  }

  lemma StepKeeps(stack: seq<Name>, name: Name)
    requires Canonical(stack) && IsName(name)
    ensures Canonical(Step(stack, name))
  {
  }

  lemma {:induction false} WalkKeeps(stack: seq<Name>, names: seq<Name>)
    requires Canonical(stack) && AllNames(names)
    ensures Canonical(Walk(stack, names))
    decreases |names|
  {
    hide Step, Canonical, IsName;
    if names != [] {
      StepKeeps(stack, names[0]);
      WalkKeeps(Step(stack, names[0]), names[1..]);
    }
  }

  /** Canonical components only push. */
  lemma {:induction false} WalkPushes(stack: seq<Name>, names: seq<Name>)
    requires Canonical(names)
    ensures Walk(stack, names) == stack + names
    decreases |names|
  {
    if names == [] {
      assert stack + names == stack;
    } else {
      WalkPushes(stack + [names[0]], names[1..]);
      assert stack + [names[0]] + names[1..] == stack + names;
    }
  }

  lemma {:induction false} NameLengthIs(name: Name, rest: seq<byte>)
    requires SLASH !in name
    ensures NameLength(name + [SLASH] + rest) == |name| && NameLength(name) == |name|
  {
    if name != [] {
      assert (name + [SLASH] + rest)[1..] == name[1..] + [SLASH] + rest;
      NameLengthIs(name[1..], rest);
    }
  }

  lemma FirstIsName(path: seq<byte>)
    requires path != [] && path[0] != SLASH
    ensures NameLength(path) > 0
  {
  }

  lemma {:induction false} NameLengthSame(path: seq<byte>, name: Name)
    ensures NameLength(path + [SLASH] + name) == NameLength(path)
  {
    if path != [] && path[0] != SLASH {
      assert (path + [SLASH] + name)[1..] == path[1..] + [SLASH] + name;
      NameLengthSame(path[1..], name);
    }
  }

  /** A slash separates the components before it from those behind it. */
  lemma {:induction false} NamesConcat(a: seq<byte>, b: seq<byte>)
    ensures Names(a + [SLASH] + b) == Names(a) + Names(b)
    decreases |a|
  {
    hide NameLength;
    var p := a + [SLASH] + b;
    if a == [] {
      assert p[1..] == b && Names(a) + Names(b) == Names(b);
    } else if a[0] == SLASH {
      assert p[1..] == a[1..] + [SLASH] + b;
      NamesConcat(a[1..], b);
    } else {
      var k := NameLength(a);
      NameLengthSame(a, b);
      FirstIsName(a);
      assert p[..k] == a[..k] && p[k..] == a[k..] + [SLASH] + b;
      NamesConcat(a[k..], b);
      assert [a[..k]] + (Names(a[k..]) + Names(b)) == [a[..k]] + Names(a[k..]) + Names(b);
    }
  }

  lemma OneName(name: Name)
    requires IsName(name)
    ensures Names(name) == [name]
  {
    NameLengthIs(name, []);
    assert name[|name|..] == [] && name[..|name|] == name;
  }

  /** The components of a rendered stack are the stack. */
  lemma {:induction false} RenderedNames(stack: seq<Name>)
    requires AllNames(stack)
    ensures Names(Render(stack)) == stack
    decreases |stack|
  {
    if stack == [] {
      assert [SLASH][1..] == [];
    } else {
      var below, top := stack[..|stack| - 1], stack[|stack| - 1];
      RenderedNames(below);
      NamesConcat(Joined(below), top);
      OneName(top);
      if below == [] { assert Names(Joined(below)) == []; }
      assert below + [top] == stack;
    }
  }

  /** The result is absolute and canonical: its components are exactly what the stack holds. */
  lemma ResolvedCanonical(cwd: seq<byte>, input: seq<byte>)
    ensures var p := Resolved(cwd, input); p != [] && p[0] == SLASH && Canonical(Names(p)) && p == Render(Names(p))
  {
    hide Names, Walk, Render, Raw, Canonical;
    var names := Names(Cut(Raw(cwd, input)));
    NamesAreNames(Cut(Raw(cwd, input)));
    Empty();
    WalkKeeps([], names);
    CanonicalNames(Walk([], names));
    RenderedNames(Walk([], names));
  }

  lemma Empty()
    ensures Canonical([])
  {
  }

  lemma CanonicalNames(stack: seq<Name>)
    requires Canonical(stack)
    ensures AllNames(stack)
  {
  }

  // ------------------------------------------------------------------- lengths

  /** Bytes of the components, each with its slash. */
  function Total(names: seq<Name>): nat {
    if names == [] then 0 else 1 + |names[0]| + Total(names[1..])
  }

  lemma {:induction false} TotalAppend(names: seq<Name>, name: Name)
    ensures Total(names + [name]) == Total(names) + 1 + |name|
  {
    if names == [] {
      assert [name][1..] == [];
    } else {
      TotalAppend(names[1..], name);
      assert (names + [name])[1..] == names[1..] + [name];
    }
  }

  /** A path holds its components and a slash before each, but perhaps the first. */
  lemma {:induction false} NamesTotal(path: seq<byte>)
    ensures Total(Names(path)) <= |path| + 1 && (path != [] && path[0] == SLASH ==> Total(Names(path)) <= |path|)
    decreases |path|
  {
    hide NameLength;
    if path != [] {
      if path[0] == SLASH {
        NamesTotal(path[1..]);
      } else {
        FirstIsName(path);
        var k := NameLength(path);
        NamesTotal(path[k..]);
        assert ([path[..k]] + Names(path[k..]))[1..] == Names(path[k..]);
      }
    }
  }

  lemma StepTotal(stack: seq<Name>, name: Name)
    ensures Total(Step(stack, name)) <= Total(stack) + 1 + |name|
  {
    if stack != [] {
      TotalAppend(stack[..|stack| - 1], stack[|stack| - 1]);
      assert stack[..|stack| - 1] + [stack[|stack| - 1]] == stack;
    }
    TotalAppend(stack, name);
  }

  lemma {:induction false} WalkTotal(stack: seq<Name>, names: seq<Name>)
    ensures Total(Walk(stack, names)) <= Total(stack) + Total(names)
    decreases |names|
  {
    hide Step;
    if names != [] {
      StepTotal(stack, names[0]);
      WalkTotal(Step(stack, names[0]), names[1..]);
    }
  }

  lemma {:induction false} JoinedTotal(stack: seq<Name>)
    ensures |Joined(stack)| == Total(stack)
    decreases |stack|
  {
    if stack != [] {
      JoinedTotal(stack[..|stack| - 1]);
      TotalAppend(stack[..|stack| - 1], stack[|stack| - 1]);
      assert stack[..|stack| - 1] + [stack[|stack| - 1]] == stack;
    }
  }

  /** The result of an absolute path is no longer than the path: it fits the buffer. */
  lemma ResolvedFits(cwd: seq<byte>, input: seq<byte>)
    requires cwd != [] && cwd[0] == SLASH
    ensures |Resolved(cwd, input)| <= BUFFER
  {
    hide Names, Walk, Joined, Total;
    var raw := Cut(Raw(cwd, input));
    NamesTotal(raw);
    WalkTotal([], Names(raw));
    assert Total([]) == 0 by { NoTotal(); }
    JoinedTotal(Walk([], Names(raw)));
  }

  lemma NoTotal()
    ensures Total([]) == 0
  {
  }

  /** A result fits the buffer, and resolving it again, from any working directory, changes nothing. */
  lemma ResolvedFixed(cwd: seq<byte>, input: seq<byte>, cwd': seq<byte>)
    requires cwd != [] && cwd[0] == SLASH
    ensures SlashFits(cwd', Resolved(cwd, input)) && Raw(cwd', Resolved(cwd, input)) == Resolved(cwd, input)
    ensures Resolved(cwd', Resolved(cwd, input)) == Resolved(cwd, input)
  {
    hide Names, Walk, Render, Canonical;
    var p := Resolved(cwd, input);
    ResolvedCanonical(cwd, input);
    ResolvedFits(cwd, input);
    assert Raw(cwd', p) == p;
    WalkPushes([], Names(p));
    assert [] + Names(p) == Names(p);
  }

  // ------------------------------------------------------ what the parts mean

  /** A name that goes down: neither `.` nor `..`. */
  predicate Down(name: Name) { IsName(name) && name != [46] && name != [46, 46] }

  lemma {:induction false} WalkConcat(stack: seq<Name>, a: seq<Name>, b: seq<Name>)
    ensures Walk(stack, a + b) == Walk(Walk(stack, a), b)
    decreases |a|
  {
    hide Step;
    if a == [] {
      assert a + b == b;
    } else {
      assert (a + b)[0] == a[0] && (a + b)[1..] == a[1..] + b;
      WalkConcat(Step(stack, a[0]), a[1..], b);
    }
  }

  /** What follows the first byte that is not a space does not matter to where the path starts. */
  lemma {:induction false} TrimmedAppend(input: seq<byte>, more: seq<byte>)
    requires Trimmed(input) != []
    ensures Trimmed(input + more) == Trimmed(input) + more && Trimmed(input)[0] == Trimmed(input + more)[0]
  {
    if input[0] == SPACE {
      assert (input + more)[1..] == input[1..] + more;
      TrimmedAppend(input[1..], more);
    }
  }

  lemma RawAppend(cwd: seq<byte>, input: seq<byte>, more: seq<byte>)
    requires Trimmed(input) != []
    ensures Raw(cwd, input + more) == Raw(cwd, input) + more
  {
    hide Trimmed;
    TrimmedAppend(input, more);
    if Trimmed(input)[0] != SLASH {
      var front := cwd + (if |cwd| > 1 && cwd[|cwd| - 1] != SLASH then [SLASH] else []);
      assert front + (Trimmed(input) + more) == front + Trimmed(input) + more;
    }
  }

  /** Two inputs alike up to a slash, whose components behind it walk alike, resolve alike. */
  lemma BehindSlash(cwd: seq<byte>, pre: seq<byte>, x: seq<byte>, y: seq<byte>)
    requires Trimmed(pre) != []
    requires |Raw(cwd, pre)| + 1 + |x| <= 127 && |Raw(cwd, pre)| + 1 + |y| <= 127
    requires forall stack :: Walk(stack, Names(x)) == Walk(stack, Names(y))
    ensures Resolved(cwd, pre + [47] + x) == Resolved(cwd, pre + [47] + y)
  {
    hide Walk, Names, Render, Trimmed, Raw;
    SlashSplit(cwd, pre, x);
    SlashSplit(cwd, pre, y);
  }

  lemma SlashSplit(cwd: seq<byte>, pre: seq<byte>, x: seq<byte>)
    requires Trimmed(pre) != [] && |Raw(cwd, pre)| + 1 + |x| <= 127
    ensures Resolved(cwd, pre + [47] + x) == Render(Walk(Walk([], Names(Raw(cwd, pre))), Names(x)))
  {
    hide Walk, Names, Render, Trimmed, Raw;
    var raw := Raw(cwd, pre);
    assert pre + [47] + x == pre + ([47] + x);
    RawAppend(cwd, pre, [47] + x);
    assert raw + ([47] + x) == raw + [SLASH] + x;
    NamesConcat(raw, x);
    WalkConcat([], Names(raw), Names(x));
  }

  /** `name/..` cancels, wherever it stands. */
  lemma UpCancels(cwd: seq<byte>, pre: seq<byte>, name: Name, post: seq<byte>)
    requires Trimmed(pre) != [] && Down(name)
    requires |Raw(cwd, pre)| + |name| + |post| + 5 <= 127
    ensures Resolved(cwd, pre + [47] + (name + [47, 46, 46, 47] + post)) == Resolved(cwd, pre + [47] + post)
  {
    hide Walk, Names, Resolved, Trimmed, Raw;
    var x := name + [47, 46, 46, 47] + post;
    NamesUp(name, post);
    forall stack ensures Walk(stack, Names(x)) == Walk(stack, Names(post)) {
      WalkUp(stack, name, Names(post));
    }
    BehindSlash(cwd, pre, x, post);
  }

  lemma NamesUp(name: Name, post: seq<byte>)
    requires IsName(name)
    ensures Names(name + [47, 46, 46, 47] + post) == [name, [46, 46]] + Names(post)
  {
    hide Names;
    assert name + [47, 46, 46, 47] + post == name + [SLASH] + ([46, 46] + [SLASH] + post);
    NamesConcat(name, [46, 46] + [SLASH] + post);
    NamesConcat([46, 46], post);
    OneName(name);
    OneName([46, 46]);
  }

  lemma WalkUp(stack: seq<Name>, name: Name, rest: seq<Name>)
    requires Down(name)
    ensures Walk(stack, [name, [46, 46]] + rest) == Walk(stack, rest)
  {
    var all := [name, [46, 46]] + rest;
    assert all[1..][0] == [46, 46] && all[1..][1..] == rest;
    assert (stack + [name])[..|stack|] == stack;
  }

  /** A component `.` or an empty one changes nothing. */
  lemma DotIgnored(cwd: seq<byte>, pre: seq<byte>, post: seq<byte>)
    requires Trimmed(pre) != [] && |Raw(cwd, pre)| + |post| + 3 <= 127
    ensures Resolved(cwd, pre + [47] + ([46, 47] + post)) == Resolved(cwd, pre + [47] + post)
    ensures Resolved(cwd, pre + [47] + ([47] + post)) == Resolved(cwd, pre + [47] + post)
  {
    hide Walk, Names, Resolved, Trimmed, Raw;
    assert [46, 47] + post == [46] + [SLASH] + post && [47] + post == [] + [SLASH] + post;
    NamesConcat([46], post);
    OneName([46]);
    NamesConcat([], post);
    NoNames([], 0);
    assert Names([]) + Names(post) == Names(post);
    forall stack ensures Walk(stack, Names([46, 47] + post)) == Walk(stack, Names(post)) {
      WalkStill(stack, [46], Names(post));
    }
    BehindSlash(cwd, pre, [46, 47] + post, post);
    BehindSlash(cwd, pre, [47] + post, post);
  }

  /** Nor does a slash at the end. */
  lemma LastSlash(cwd: seq<byte>, input: seq<byte>)
    requires Trimmed(input) != [] && |Raw(cwd, input)| < 127
    ensures Resolved(cwd, input + [47]) == Resolved(cwd, input)
  {
    hide Walk, Names, Render, Trimmed, Raw;
    SlashSplit(cwd, input, []);
    assert input + [47] + [] == input + [47];
    NoNames([], 0);
    WalkDone(Walk([], Names(Raw(cwd, input))));
  }

  /** At the root `..` stays there. */
  lemma UpAtRoot(cwd: seq<byte>, post: seq<byte>)
    requires |post| + 4 <= 127
    ensures Resolved(cwd, [47, 46, 46, 47] + post) == Resolved(cwd, [47] + post)
  {
    hide Walk, Names, Render;
    NamesUp2(post);
    WalkStill([], [46, 46], Names(post));
  }

  lemma NamesUp2(post: seq<byte>)
    ensures Names([47, 46, 46, 47] + post) == [[46, 46]] + Names(post) && Names([47] + post) == Names(post)
  {
    hide Names;
    assert [47, 46, 46, 47] + post == [] + [SLASH] + ([46, 46] + [SLASH] + post) && [47] + post == [] + [SLASH] + post;
    NamesConcat([], [46, 46] + [SLASH] + post);
    NamesConcat([], post);
    NamesConcat([46, 46], post);
    OneName([46, 46]);
    NoNames([], 0);
    assert Names([]) + Names(post) == Names(post);
    assert Names([]) + ([[46, 46]] + Names(post)) == [[46, 46]] + Names(post);
  }

  lemma WalkStill(stack: seq<Name>, name: Name, rest: seq<Name>)
    requires name == [46] || (name == [46, 46] && stack == [])
    ensures Walk(stack, [name] + rest) == Walk(stack, rest)
  {
    assert ([name] + rest)[1..] == rest;
  }

  /** Leading spaces do not count. */
  lemma {:induction false} SpacesIgnored(cwd: seq<byte>, input: seq<byte>)
    ensures Resolved(cwd, [32] + input) == Resolved(cwd, input)
  {
    assert ([32] + input)[1..] == input;
  }

  /** Of a longer path the first 127 bytes count. */
  lemma LongCut(cwd: seq<byte>, input: seq<byte>)
    requires cwd != [] && cwd[0] == SLASH && |Raw(cwd, input)| > 127
    ensures Resolved(cwd, input) == Resolved(cwd, Raw(cwd, input)[..127])
  {
  }

  /** A relative path starts at the working directory. */
  lemma FromDirectory(stack: seq<Name>, input: seq<byte>)
    requires Canonical(stack) && |Render(stack)| + 1 + |input| <= 127
    requires input == [] || (input[0] != 47 && input[0] != 32)
    ensures Resolved(Render(stack), input) == Resolved([47], Render(stack) + [47] + input)
  {
    hide Walk, Names, Joined, Canonical;
    var cwd := Render(stack);
    if stack != [] { CanonicalNames(stack); JoinedEnd(stack); }
    NamesConcat(cwd, input);
    if stack == [] {
      assert cwd + input == [] + [SLASH] + input && cwd == [] + [SLASH] + [];
      NamesConcat([], input);
      NamesConcat([], []);
      NoNames([], 0);
      assert Names([]) == [] && Names(cwd) == [];
      assert [] + Names(input) == Names(input);
      assert Raw(cwd, input) == [] + [SLASH] + input;
    } else {
      assert cwd + [SLASH] + input == cwd + ([SLASH] + input);
    }
  }

  /** A path of plain names stands for itself, from any working directory. */
  lemma PlainFixed(cwd: seq<byte>, stack: seq<Name>)
    requires Canonical(stack) && |Render(stack)| <= 127
    ensures Resolved(cwd, Render(stack)) == Render(stack)
  {
    hide Walk, Names, Joined, Canonical;
    CanonicalNames(stack);
    RenderedNames(stack);
    WalkPushes([], stack);
    assert [] + stack == stack;
  }

  /** From any directory: a name leads down, `..` up again, and at the root it stays. */
  lemma DownAndUp(stack: seq<Name>, name: Name)
    requires Canonical(stack) && Down(name) && name[0] != 32 && |Render(stack)| + 4 + |name| <= 127
    ensures Resolved(Render(stack), name) == Render(stack + [name])
    ensures Resolved(Render(stack + [name]), [46, 46]) == Render(stack)
    ensures Resolved([47], [46, 46]) == [47]
  {
    hide Walk, Names, Joined, Raw, Canonical;
    Empty();
    RelativeWalk(stack, name);
    OneName(name);
    WalkOne(stack, name);
    DownCanonical(stack, name);
    RelativeWalk(stack + [name], [46, 46]);
    OneName([46, 46]);
    WalkOne(stack + [name], [46, 46]);
    assert (stack + [name])[..|stack|] == stack;
    RelativeWalk([], [46, 46]);
    WalkOne([], [46, 46]);
  }

  lemma WalkOne(stack: seq<Name>, name: Name)
    ensures Walk(stack, [name]) == Step(stack, name)
  {
    assert [name][1..] == [];
  }

  lemma DownCanonical(stack: seq<Name>, name: Name)
    requires Canonical(stack) && Down(name)
    ensures Canonical(stack + [name]) && IsName(name)
    ensures |Render(stack + [name])| <= |Render(stack)| + 1 + |name|
  {
    hide Joined;
    JoinedPush(stack, name);
  }

  /** A relative path walks on from the components of the working directory. */
  lemma RelativeWalk(stack: seq<Name>, input: seq<byte>)
    requires Canonical(stack) && |Render(stack)| + 1 + |input| <= 127
    requires input == [] || (input[0] != 47 && input[0] != 32)
    ensures Resolved(Render(stack), input) == Render(Walk(stack, Names(input)))
  {
    hide Walk, Names, Joined, Canonical;
    CanonicalNames(stack);
    RenderedNames(stack);
    WalkPushes([], stack);
    assert [] + stack == stack;
    NamesConcat(Render(stack), input);
    FromDirectory(stack, input);
    WalkConcat([], stack, Names(input));
  }

  // ------------------------------------------------------------------ the loop

  /** The output buffer shows the stack; after a `..` it may end in a slash. */
  ghost predicate Shows(out: seq<byte>, stack: seq<Name>) {
    out == Render(stack) || (stack != [] && out == Joined(stack) + [SLASH])
  }

  lemma {:induction false} JoinedEnd(stack: seq<Name>)
    requires AllNames(stack) && stack != []
    ensures |Joined(stack)| > 1 && Joined(stack)[|Joined(stack)| - 1] != SLASH
  {
    var top := stack[|stack| - 1];
    assert IsName(top);
    assert Joined(stack)[|Joined(stack)| - 1] == top[|top| - 1];
  }

  /** A name goes behind a slash; what does not fit the buffer is dropped, which never happens. */
  method Push(out: seq<byte>, name: Name, ghost stack: seq<Name>) returns (r: seq<byte>)
    requires Shows(out, stack) && AllNames(stack) && IsName(name) && |Render(stack + [name])| <= BUFFER
    ensures r == Render(stack + [name])
  {
    hide Joined;
    r := out;
    if stack != [] { JoinedEnd(stack); }
    if |r| > 1 && r[|r| - 1] != SLASH { r := r + [SLASH]; }
    JoinedPush(stack, name);
    ghost var front := r;
    assert front + name == Render(stack + [name]);
    var j := 0;
    while j < |name| && |r| < BUFFER
      invariant j <= |name| && r == front + name[..j]
    {
      assert name[..j + 1] == name[..j] + [name[j]];
      r := r + [name[j]];
      j := j + 1;
    }
    assert name[..|name|] == name;
  }

  lemma JoinedPush(stack: seq<Name>, name: Name)
    ensures Joined(stack + [name]) == Joined(stack) + [SLASH] + name && (stack == [] ==> Joined(stack) == [])
  {
    assert (stack + [name])[..|stack|] == stack;
  }

  /** `..`: back to the last slash but one. */
  method Pop(out: seq<byte>, ghost stack: seq<Name>) returns (r: seq<byte>)
    requires Shows(out, stack) && AllNames(stack)
    ensures Shows(r, if stack == [] then [] else stack[..|stack| - 1])
  {
    hide Joined;
    r := out;
    if stack != [] { JoinedEnd(stack); }
    if |out| <= 1 { return; }
    ghost var below, top := stack[..|stack| - 1], stack[|stack| - 1];
    JoinedPush(below, top);
    assert below + [top] == stack;
    ghost var keep := Joined(below) + [SLASH];
    assert keep + top == Joined(stack);
    var n := |out| - 1;
    while n > 1 && out[n - 1] != SLASH
      invariant |keep| <= n <= |out| && keep <= out && forall i :: |keep| <= i < n ==> out[i] != SLASH
    {
      n := n - 1;
    }
    Stopped(out, n, keep);
    r := out[..n];
  }

  lemma Stopped(out: seq<byte>, n: nat, keep: seq<byte>)
    requires 1 <= |keep| <= n <= |out| && keep <= out && (n <= 1 || out[n - 1] == SLASH)
    requires forall i :: |keep| <= i < n ==> out[i] != SLASH
    ensures out[..n] == keep
  {
  }

  /** resolve_path. */
  method ResolvePath(cwd: seq<byte>, input: seq<byte>) returns (out: seq<byte>)
    requires cwd != [] && cwd[0] == SLASH && SlashFits(cwd, input)
    ensures out == Resolved(cwd, input) && |out| <= BUFFER
    ensures forall cwd' :: SlashFits(cwd', out) && Resolved(cwd', out) == out
  {
    hide Names, NameLength, Walk, Joined, Canonical, Total, Resolved, Render, SlashFits;
    forall cwd' ensures SlashFits(cwd', Resolved(cwd, input))
        && Resolved(cwd', Resolved(cwd, input)) == Resolved(cwd, input) {
      ResolvedFixed(cwd, input, cwd');
    }
    ResolvedFits(cwd, input);
    var raw := MakeRaw(cwd, input);
    out := [SLASH];
    ghost var stack := [];
    var i := 0;
    assert raw[0..] == raw;
    NamesAreNames(raw);
    NamesTotal(raw);
    NoTotal();
    Shown(stack);
    while i < |raw|
      invariant i <= |raw| && Total(stack) + Total(Names(raw[i..])) <= BUFFER
      invariant Shows(out, stack) && AllNames(stack) && AllNames(Names(raw[i..]))
      invariant Walk(stack, Names(raw[i..])) == Walk([], Names(raw))
      decreases |raw| - i
    {
      i := SkipSlashes(raw, i);
      if i == |raw| { break; }
      var begin := i;
      i := NameEnd(raw, i);
      var name := raw[begin..i];
      NamesSplit(raw, begin, i);
      WalkStep(stack, name, Names(raw[i..]));
      StepTotal(stack, name);
      TotalFirst(name, Names(raw[i..]));
      if name == DOT { continue; }
      if name == DOTDOT {
        out := Pop(out, stack);
        stack := if stack == [] then [] else stack[..|stack| - 1];
        continue;
      }
      PushedFits(stack, name);
      out := Push(out, name, stack);
      stack := stack + [name];
    }
    NothingLeft(raw, i);
    WalkDone(stack);
    out := Finish(out, stack);
    ResolvedIs(cwd, input);
  }

  /** The slash that a last `..` leaves behind goes. */
  method Finish(out: seq<byte>, ghost stack: seq<Name>) returns (r: seq<byte>)
    requires Shows(out, stack) && AllNames(stack)
    ensures r == Render(stack)
  {
    hide Joined;
    r := out;
    if stack != [] { JoinedEnd(stack); }
    if |r| > 1 && r[|r| - 1] == SLASH { r := r[..|r| - 1]; }
  }

  lemma ResolvedIs(cwd: seq<byte>, input: seq<byte>)
    ensures Resolved(cwd, input) == Render(Walk([], Names(Cut(Raw(cwd, input)))))
  {
  }

  lemma Shown(stack: seq<Name>)
    ensures stack == [] ==> Shows([SLASH], stack)
  {
  }

  lemma TotalFirst(name: Name, rest: seq<Name>)
    ensures Total([name] + rest) == 1 + |name| + Total(rest)
  {
    assert ([name] + rest)[1..] == rest;
  }

  lemma PushedFits(stack: seq<Name>, name: Name)
    requires Total(stack) + 1 + |name| <= BUFFER
    ensures |Render(stack + [name])| <= BUFFER
  {
    hide Joined, Total;
    JoinedTotal(stack + [name]);
    TotalAppend(stack, name);
  }

  lemma WalkDone(stack: seq<Name>)
    ensures Walk(stack, []) == stack
  {
  }

  lemma NothingLeft(raw: seq<byte>, i: nat)
    requires i == |raw|
    ensures Names(raw[i..]) == []
  {
  }

  lemma WalkStep(stack: seq<Name>, name: Name, rest: seq<Name>)
    requires AllNames([name] + rest)
    ensures Walk(stack, [name] + rest) == Walk(Step(stack, name), rest) && IsName(name) && AllNames(rest)
  {
    assert ([name] + rest)[1..] == rest && ([name] + rest)[0] == name;
    forall i | 0 <= i < |rest| ensures IsName(rest[i]) { assert ([name] + rest)[i + 1] == rest[i]; }
  }

  /** Copies a text into the buffer as far as it fits. */
  method Append(raw: seq<byte>, text: seq<byte>) returns (r: seq<byte>)
    requires |raw| <= BUFFER
    ensures r == Cut(raw + text)
  {
    r := raw;
    var i := 0;
    while i < |text| && |r| < BUFFER
      invariant i <= |text| && |r| <= BUFFER && r == raw + text[..i]
    {
      assert text[..i + 1] == text[..i] + [text[i]];
      r := r + [text[i]];
      i := i + 1;
    }
    if i == |text| { assert text[..i] == text; } else { assert (raw + text)[..BUFFER] == raw + text[..i]; }
  }

  method MakeRaw(cwd: seq<byte>, input: seq<byte>) returns (raw: seq<byte>)
    requires SlashFits(cwd, input)
    ensures raw == Cut(Raw(cwd, input))
  {
    var p := 0;
    assert input[0..] == input;
    while p < |input| && input[p] == SPACE
      invariant p <= |input| && Trimmed(input[p..]) == Trimmed(input)
    {
      assert input[p..][1..] == input[p + 1..];
      p := p + 1;
    }
    var rest := input[p..];
    assert rest == Trimmed(input);
    raw := [];
    if rest == [] || rest[0] != SLASH {
      raw := Append(raw, cwd);
      assert [] + cwd == cwd && raw == cwd;
      if |raw| > 1 && raw[|raw| - 1] != SLASH { raw := raw + [SLASH]; }
    }
    assert Raw(cwd, input) == raw + rest;
    raw := Append(raw, rest);
  }
}
