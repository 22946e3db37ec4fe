/** Path normalisation (resolve_abs in kernel/fs/vfs/vfs.c): the in-place reduction and the stack of components it stands for. */
module Paths {

  type Text = seq<char>

  const OUT_SIZE: nat := 256

  // ----- components -----

  /** The length of the leading run without a slash. */
  function WordLen(s: Text): (n: nat)
    ensures n <= |s| && (forall i :: 0 <= i < n ==> s[i] != '/') && (n < |s| ==> s[n] == '/')
  {
    if s == [] || s[0] == '/' then 0 else 1 + WordLen(s[1..])
  }

  /** The maximal runs without a slash, in order. */
  function Components(s: Text): seq<Text>
    decreases |s|
  {
    if s == [] then []
    else if s[0] == '/' then Components(s[1..])
    else [s[..WordLen(s)]] + Components(s[WordLen(s)..])
  }

  function Apply(stack: seq<Text>, c: Text): seq<Text> {
    if c == "." then stack
    else if c == ".." then (if stack == [] then [] else stack[..|stack| - 1])
    else stack + [c]
  }

  function Fold(stack: seq<Text>, cs: seq<Text>): seq<Text>
    decreases |cs|
  {
    if cs == [] then stack else Fold(Apply(stack, cs[0]), cs[1..])
  }

  /** Every component behind its slash. */
  function Joined(stack: seq<Text>): Text {
    if stack == [] then [] else Joined(stack[..|stack| - 1]) + ['/'] + stack[|stack| - 1]
  }

  function Render(stack: seq<Text>): Text {
    if stack == [] then ['/'] else Joined(stack)
  }

  /** A component that stays: not empty, without a slash, neither dot nor dot-dot. */
  predicate Plain(c: Text) {
    c != [] && '/' !in c && c != "." && c != ".."
  }

  predicate AllPlain(stack: seq<Text>) {
    forall i :: 0 <= i < |stack| ==> Plain(stack[i])
  }

  // ----- the specification is sound -----

  lemma {:induction false} WordIs(c: Text, rest: Text)
    requires '/' !in c && (rest == [] || rest[0] == '/')
    ensures WordLen(c + rest) == |c|
  {
    if c != [] {
      assert (c + rest)[0] == c[0] && c[0] in c;
      assert (c + rest)[1..] == c[1..] + rest;
      WordIs(c[1..], rest);
    }
  }

  lemma {:induction false} ComponentsSlash(c: Text, rest: Text)
    requires c != [] && '/' !in c && (rest == [] || rest[0] == '/')
    ensures Components(['/'] + c + rest) == [c] + Components(rest)
  {
    var tail, s := ['/'] + c + rest, c + rest;
    assert tail[1..] == s;
    WordIs(c, rest);
    assert s[..|c|] == c && s[|c|..] == rest;
    assert s[0] == c[0] && c[0] in c;
    assert Components(s) == [s[..WordLen(s)]] + Components(s[WordLen(s)..]);
  }

  lemma {:induction false} ComponentsJoined(stack: seq<Text>, rest: Text, t: Text)
    requires AllPlain(stack) && (rest == [] || rest[0] == '/') && t == Joined(stack) + rest
    ensures Components(t) == stack + Components(rest)
    decreases |stack|
  {
    if stack == [] {
      assert t == rest;
    } else {
      var n := |stack| - 1;
      var c, init := stack[n], stack[..n];
      var tail := ['/'] + c + rest;
      JoinedSplit(stack, rest, t, tail);
      ComponentsJoined(init, tail, t);
      assert Plain(c);
      ComponentsSlash(c, rest);
      Regroup(init, c, Components(rest), stack);
    }
  }

  lemma JoinedSplit(stack: seq<Text>, rest: Text, t: Text, tail: Text)
    requires stack != [] && t == Joined(stack) + rest && tail == ['/'] + stack[|stack| - 1] + rest
    ensures t == Joined(stack[..|stack| - 1]) + tail
  {
  }

  lemma Regroup(init: seq<Text>, c: Text, more: seq<Text>, stack: seq<Text>)
    requires stack == init + [c]
    ensures init + ([c] + more) == stack + more
  {
  }

  /** Splitting a rendered path gives back its components. */
  lemma ComponentsRender(stack: seq<Text>)
    requires AllPlain(stack)
    ensures Components(Render(stack)) == stack
  {
    if stack == [] {
      assert Render(stack)[1..] == [];
    } else {
      ComponentsJoined(stack, [], Render(stack));
    }
  }

  lemma {:induction false} FoldPlain(stack: seq<Text>, cs: seq<Text>)
    requires AllPlain(cs)
    ensures Fold(stack, cs) == stack + cs
    decreases |cs|
  {
    if cs != [] {
      assert Plain(cs[0]);
      FoldPlain(stack + [cs[0]], cs[1..]);
      assert stack + [cs[0]] + cs[1..] == stack + cs;
    }
  }

  ghost predicate AreWords(cs: seq<Text>) {
    forall i :: 0 <= i < |cs| ==> cs[i] != [] && '/' !in cs[i]
  }

  lemma {:induction false} ComponentsAreWords(s: Text)
    ensures AreWords(Components(s))
    decreases |s|
  {
    if s != [] {
      if s[0] == '/' {
        ComponentsAreWords(s[1..]);
      } else {
        var n := WordLen(s);
        ComponentsAreWords(s[n..]);
        assert n > 0;
      }
    }
  }

  /** Folding words leaves only plain components. */
  lemma {:induction false} FoldCanonical(stack: seq<Text>, cs: seq<Text>)
    requires AllPlain(stack) && AreWords(cs)
    ensures AllPlain(Fold(stack, cs))
    decreases |cs|
  {
    if cs != [] { FoldCanonical(Apply(stack, cs[0]), cs[1..]); }
  }

  // ----- resolve_abs -----

  function Take(s: Text, n: nat): Text {
    if |s| <= n then s else s[..n]
  }

  /** What the first half of resolve_abs puts in its 256-byte buffer. */
  function Anchored(path: Text, cwd: Text): (t: Text)
    requires |cwd| <= 127 && (cwd == [] || cwd[0] == '/')
    ensures 0 < |t| <= 255 && t[0] == '/'
  {
    if path != [] && path[0] == '/' then Take(path, 255)
    else if cwd == [] || cwd == ['/'] then ['/'] + Take(path, 254)
    else cwd + ['/'] + Take(path, 254 - |cwd|)
  }

  /** The canonical form of `path` seen from `cwd`. */
  function Resolved(path: Text, cwd: Text): Text
    requires |cwd| <= 127 && (cwd == [] || cwd[0] == '/')
  {
    Render(Fold([], Components(Anchored(path, cwd))))
  }

  method Copy(s: Text, limit: nat, prefix: Text) returns (t: Text)
    ensures t == prefix + Take(s, limit)
  {
    var i := 0;
    t := prefix;
    while i < |s| && i < limit
      invariant i <= |s| && i <= limit && t == prefix + s[..i]
    {
      t := t + [s[i]];
      i := i + 1;
    }
    assert s[..i] == Take(s, limit);
  }

  method Anchor(path: Text, cwd: Text) returns (t: Text)
    requires |cwd| <= 127 && (cwd == [] || cwd[0] == '/')
    ensures t == Anchored(path, cwd)
  {
    if path != [] && path[0] == '/' {
      t := Copy(path, 255, []);
      assert [] + Take(path, 255) == Take(path, 255);
    } else if cwd == [] || cwd == ['/'] {
      t := Copy(path, 254, ['/']);
    } else {
      var c := Copy(cwd, 254, []);
      t := Copy(path, 254 - |c|, c + ['/']);
    }
  }

  /** The buffer shows the stack. */
  ghost predicate Shows(out: seq<char>, pos: nat, stack: seq<Text>) {
    pos <= |out| && out[..pos] == Render(stack)
  }

  /** dot-dot: drop back to the last slash, and over it unless it is the first. */
  method Pop(out: array<char>, pos: nat, ghost stack: seq<Text>) returns (r: nat)
    requires AllPlain(stack) && Shows(out[..], pos, stack)
    ensures Shows(out[..], r, Apply(stack, ".."))
  {
    r := pos;
    if r <= 1 {
      RootOnly(stack);
      return;
    }
    RootOnly(stack);
    ghost var n := |stack| - 1;
    ghost var low := |Joined(stack[..n])|;
    LastWord(stack);
    while r > 1 && out[r - 1] != '/'
      invariant low < r <= pos
    {
      r := r - 1;
    }
    if r > 1 { r := r - 1; }
    ShorterOne(stack);
    assert out[..r] == out[..pos][..r];
  }

  /** The copying loop. */
  method Append(out: array<char>, pos: nat, c: Text) returns (r: nat)
    requires pos + |c| <= OUT_SIZE - 1 <= out.Length
    modifies out
    ensures r == pos + |c| && out[..r] == old(out[..pos]) + c
  {
    ghost var was := out[..pos];
    var i := 0;
    r := pos;
    while i < |c| && r < OUT_SIZE - 1
      invariant i <= |c| && r == pos + i && out[..r] == was + c[..i]
    {
      out[r] := c[i];
      r := r + 1;
      i := i + 1;
    }
    assert c[..i] == c;
  }

  /** Append a component behind a slash; the buffer is long enough. */
  method Push(out: array<char>, pos: nat, c: Text, ghost stack: seq<Text>) returns (r: nat)
    requires AllPlain(stack) && Plain(c) && Shows(out[..], pos, stack) && |Joined(stack)| + 1 + |c| <= OUT_SIZE - 1 <= out.Length
    modifies out
    ensures Shows(out[..], r, stack + [c])
  {
    RootOnly(stack);
    assert out[..][..pos] == out[..pos];
    if stack != [] { LastWord(stack); }
    r := pos;
    if r > 1 && out[r - 1] != '/' && r < OUT_SIZE - 1 {
      out[r] := '/';
      r := r + 1;
      assert out[..r] == old(out[..pos]) + ['/'];
    }
    assert out[..r] == Joined(stack) + ['/'];
    r := Append(out, r, c);
    assert (stack + [c])[..|stack|] == stack;
    assert out[..][..r] == out[..r];
  }

  /** Only the empty stack renders to a single character. */
  lemma RootOnly(stack: seq<Text>)
    requires AllPlain(stack)
    ensures |Render(stack)| == 1 <==> stack == []
    ensures |Render(stack)| >= 1 && (stack != [] ==> Render(stack) == Joined(stack))
  {
    if stack != [] { assert Plain(stack[|stack| - 1]); }
  }

  /** A non-empty stack renders to its shorter part, a slash and a word without one. */
  lemma LastWord(stack: seq<Text>)
    requires AllPlain(stack) && stack != []
    ensures var n := |stack| - 1;
            var t, low := Joined(stack), |Joined(stack[..n])|;
            && low + 1 < |t| && t[..low] == Joined(stack[..n]) && t[low] == '/'
            && forall i :: low < i < |t| ==> t[i] != '/'
  {
    var n := |stack| - 1;
    var c, low := stack[n], |Joined(stack[..n])|;
    assert Plain(c);
    forall i | low < i < |Joined(stack)| ensures Joined(stack)[i] != '/' {
      assert Joined(stack)[i] == c[i - low - 1] && c[i - low - 1] in c;
    }
  }

  lemma ShorterOne(stack: seq<Text>)
    requires AllPlain(stack) && stack != []
    ensures var init := stack[..|stack| - 1];
            && Joined(stack)[..|Joined(init)|] == Joined(init) && (init == [] <==> Joined(init) == [])
            && Joined(stack)[..1] == ['/']
  {
    var init := stack[..|stack| - 1];
    if init != [] {
      LastWord(init);
      FirstSlash(init);
    }
    FirstSlash(stack);
  }

  lemma {:induction false} FirstSlash(stack: seq<Text>)
    requires stack != []
    ensures Joined(stack) != [] && Joined(stack)[0] == '/'
    decreases |stack|
  {
    if |stack| > 1 { FirstSlash(stack[..|stack| - 1]); }
  }

  /** Where the scan stands: the buffer shows the components so far, and it is no longer than what has been read. */
  ghost predicate Scan(tmp: Text, i: nat, stack: seq<Text>) {
    && 1 <= i <= |tmp| && AllPlain(stack) && Fold(stack, Components(tmp[i..])) == Fold([], Components(tmp))
    && (i < |tmp| && tmp[i] != '/' ==> tmp[i - 1] == '/')
    && |Joined(stack)| <= if tmp[i - 1] == '/' then i - 1 else i
  }

  lemma ScanSlash(tmp: Text, i: nat, stack: seq<Text>)
    requires Scan(tmp, i, stack) && i < |tmp| && tmp[i] == '/'
    ensures Scan(tmp, i + 1, stack)
  {
    assert tmp[i..][1..] == tmp[i + 1..];
  }

  lemma ScanWord(tmp: Text, start: nat, i: nat, stack: seq<Text>, stack': seq<Text>)
    requires Scan(tmp, start, stack) && start < i <= |tmp| && (forall k :: start <= k < i ==> tmp[k] != '/')
    requires i == |tmp| || tmp[i] == '/'
    requires stack' == Apply(stack, tmp[start..i]) && AllPlain(stack') && |Joined(stack')| <= |Joined(stack)| + 1 + (i - start)
    ensures Scan(tmp, i, stack')
  {
    WordAt(tmp, start, i);
    var cs, more := Components(tmp[start..]), Components(tmp[i..]);
    assert cs[0] == tmp[start..i] && cs[1..] == more;
  }

  /** The inner scanning loop. */
  method WordEnd(tmp: Text, start: nat) returns (i: nat)
    requires start < |tmp| <= 255 && tmp[start] != '/'
    ensures start < i <= |tmp| && (forall k :: start <= k < i ==> tmp[k] != '/') && (i == |tmp| || tmp[i] == '/')
  {
    i := start;
    while i < |tmp| && tmp[i] != '/' && i - start < 255
      invariant start <= i <= |tmp| && i - start <= 255
      invariant forall k :: start <= k < i ==> tmp[k] != '/'
    {
      i := i + 1;
    }
  }

  /** resolve_abs into a 256-byte buffer.  The bound on `pos` says nothing is cut off. */
  method ResolveAbs(path: Text, cwd: Text, out: array<char>) returns (pos: nat)
    requires out.Length == OUT_SIZE && |cwd| <= 127 && (cwd == [] || cwd[0] == '/')
    modifies out
    ensures 1 <= pos < OUT_SIZE && out[..pos] == Resolved(path, cwd) && out[pos] == 0 as char
  {
    var tmp := Anchor(path, cwd);
    pos := Reduce(tmp, out);
    ghost var shown := out[..pos];
    out[pos] := 0 as char;
    assert out[..pos] == shown;
  }

  /** The loop over the components. */
  method Reduce(tmp: Text, out: array<char>) returns (pos: nat)
    requires out.Length == OUT_SIZE && 0 < |tmp| <= 255 && tmp[0] == '/'
    modifies out
    ensures 1 <= pos < OUT_SIZE && out[..pos] == Render(Fold([], Components(tmp)))
  {
    out[0] := '/';
    pos := 1;
    ghost var stack: seq<Text> := [];
    var i := 0;
    if tmp[0] == '/' { i := 1; }
    assert out[..1] == ['/'];
    while i < |tmp|
      invariant Scan(tmp, i, stack) && Shows(out[..], pos, stack)
    {
      if tmp[i] == '/' {
        ScanSlash(tmp, i, stack);
        i := i + 1;
      } else {
        i, pos, stack := ScanComponent(out, pos, tmp, i, stack);
      }
    }
    ScanDone(tmp, i, stack);
    assert out[..pos] == out[..][..pos];
  }

  /** All read: the buffer shows the whole fold, and it fits. */
  lemma {:induction false} ScanDone(tmp: Text, i: nat, stack: seq<Text>)
    requires Scan(tmp, i, stack) && i == |tmp| <= 255
    ensures stack == Fold([], Components(tmp)) && 1 <= |Render(stack)| < OUT_SIZE
  {
    assert tmp[i..] == [];
    RootOnly(stack);
  }

  /** The branch of the loop that meets a component. */
  method ScanComponent(out: array<char>, pos: nat, tmp: Text, i: nat, ghost stack: seq<Text>)
    returns (end: nat, r: nat, ghost stack': seq<Text>)
    requires out.Length == OUT_SIZE && i < |tmp| <= 255 && tmp[i] != '/' && Scan(tmp, i, stack) && Shows(out[..], pos, stack)
    modifies out
    ensures i < end && Scan(tmp, end, stack') && Shows(out[..], r, stack')
  {
    end := WordEnd(tmp, i);
    WordAt(tmp, i, end);
    r, stack' := Step(out, pos, tmp[i..end], stack);
    ScanWord(tmp, i, end, stack, stack');
  }

  /** One component. */
  method Step(out: array<char>, pos: nat, c: Text, ghost stack: seq<Text>) returns (r: nat, ghost stack': seq<Text>)
    requires AllPlain(stack) && Shows(out[..], pos, stack) && c != [] && '/' !in c
    requires |Joined(stack)| + 1 + |c| <= OUT_SIZE - 1 <= out.Length
    modifies out
    ensures stack' == Apply(stack, c) && AllPlain(stack') && Shows(out[..], r, stack') && |Joined(stack')| <= |Joined(stack)| + 1 + |c|
  {
    stack' := Apply(stack, c);
    if |c| == 1 && c[0] == '.' {
      assert c == ".";
      return pos, stack';
    }
    if |c| == 2 && c[0] == '.' && c[1] == '.' {
      assert c == "..";
      r := Pop(out, pos, stack);
      if stack != [] { LastWord(stack); }
      return;
    }
    r := Push(out, pos, c, stack);
    assert (stack + [c])[..|stack|] == stack;
  }

  /** The scanned run is the next component. */
  lemma WordAt(tmp: Text, start: nat, i: nat)
    requires start < i <= |tmp| && (forall k :: start <= k < i ==> tmp[k] != '/') && (i == |tmp| || tmp[i] == '/')
    ensures Components(tmp[start..]) == [tmp[start..i]] + Components(tmp[i..])
    ensures tmp[start..i] != [] && '/' !in tmp[start..i]
  {
    var c, rest := tmp[start..i], tmp[i..];
    assert tmp[start..] == c + rest;
    WordIs(c, rest);
    assert (c + rest)[..|c|] == c && (c + rest)[|c|..] == rest;
  }

  // ----- what it guarantees -----

  /** The result is an absolute path of plain components. */
  lemma Canonical(path: Text, cwd: Text)
    requires |cwd| <= 127 && (cwd == [] || cwd[0] == '/')
    ensures exists stack :: AllPlain(stack) && Resolved(path, cwd) == Render(stack)
    ensures AllPlain(Components(Resolved(path, cwd))) && Render(Components(Resolved(path, cwd))) == Resolved(path, cwd)
  {
    var cs := Components(Anchored(path, cwd));
    ComponentsAreWords(Anchored(path, cwd));
    FoldCanonical([], cs);
    ComponentsRender(Fold([], cs));
  }

  /** Resolving a resolved path changes nothing, from any directory. */
  lemma Idempotent(path: Text, cwd: Text, other: Text)
    requires |cwd| <= 127 && (cwd == [] || cwd[0] == '/') && |other| <= 127 && (other == [] || other[0] == '/')
    ensures |Resolved(path, cwd)| <= 255 && Resolved(Resolved(path, cwd), other) == Resolved(path, cwd)
  {
    NeverLonger(Anchored(path, cwd), []);
    var p := Resolved(path, cwd);
    Canonical(path, cwd);
    var stack := Components(p);
    if stack != [] { FirstSlash(stack); }
    assert Anchored(p, other) == p;
    FoldPlain([], stack);
    assert [] + stack == stack;
  }

  /** The path as it would be in a buffer of any length. */
  function Whole(path: Text, cwd: Text): Text {
    if path != [] && path[0] == '/' then path
    else if cwd == [] || cwd == ['/'] then ['/'] + path
    else cwd + ['/'] + path
  }

  /** The buffer holds the whole path, or its first 255 characters. */
  lemma {:induction false} AnchoredIs(path: Text, cwd: Text)
    requires |cwd| <= 127 && (cwd == [] || cwd[0] == '/')
    ensures Anchored(path, cwd) == Take(Whole(path, cwd), 255)
  {
  }

  lemma {:induction false} ComponentsAppend(a: Text, b: Text)
    requires b == [] || b[0] == '/'
    ensures Components(a + b) == Components(a) + Components(b)
    decreases |a|
  {
    if a == [] {
      assert a + b == b;
    } else if a[0] == '/' {
      assert (a + b)[1..] == a[1..] + b;
      ComponentsAppend(a[1..], b);
    } else {
      var n := WordLen(a);
      var c, rest := a[..n], a[n..];
      assert a == c + rest;
      FirstWord(c, rest);
      FirstWord(c, rest + b);
      Associates(c, rest, b);
      ComponentsAppend(rest, b);
      assert [c] + (Components(rest) + Components(b)) == [c] + Components(rest) + Components(b);
    }
  }

  lemma {:induction false} FirstWord(c: Text, rest: Text)
    requires c != [] && '/' !in c && (rest == [] || rest[0] == '/')
    ensures Components(c + rest) == [c] + Components(rest)
  {
    WordIs(c, rest);
    assert (c + rest)[0] in c && (c + rest)[..|c|] == c && (c + rest)[|c|..] == rest;
  }

  lemma {:induction false} FoldAppend(stack: seq<Text>, xs: seq<Text>, ys: seq<Text>)
    ensures Fold(stack, xs + ys) == Fold(Fold(stack, xs), ys)
    decreases |xs|
  {
    if xs == [] {
      assert xs + ys == ys;
    } else {
      assert (xs + ys)[0] == xs[0] && (xs + ys)[1..] == xs[1..] + ys;
      FoldAppend(Apply(stack, xs[0]), xs[1..], ys);
    }
  }

  /** A relative path that fits adds its components to those of the directory. */
  lemma {:induction false} RelativeComponents(path: Text, cwd: Text)
    requires |cwd| <= 127 && (cwd == [] || cwd[0] == '/') && |Whole(path, cwd)| <= 255 && (path == [] || path[0] != '/')
    ensures Components(Anchored(path, cwd)) == Components(cwd) + Components(path)
  {
    AnchoredIs(path, cwd);
    SlashFirst(path);
    if cwd == [] || cwd == ['/'] {
      assert Components(cwd) == [] by { if cwd != [] { assert cwd[1..] == []; } }
      assert Anchored(path, cwd) == ['/'] + path;
    } else {
      assert Anchored(path, cwd) == cwd + (['/'] + path);
      ComponentsAppend(cwd, ['/'] + path);
    }
  }

  lemma {:induction false} SlashFirst(path: Text)
    ensures Components(['/'] + path) == Components(path)
  {
    assert (['/'] + path)[1..] == path;
  }

  lemma {:induction false} WholeLonger(a: Text, more: Text, cwd: Text)
    requires |cwd| <= 127 && (cwd == [] || cwd[0] == '/') && a != [] && |Whole(a + more, cwd)| <= 255
    ensures Anchored(a + more, cwd) == Anchored(a, cwd) + more
  {
    WholeAppend(a, more, cwd);
    AnchoredIs(a, cwd);
    AnchoredIs(a + more, cwd);
  }

  lemma {:induction false} WholeAppend(a: Text, more: Text, cwd: Text)
    requires a != []
    ensures Whole(a + more, cwd) == Whole(a, cwd) + more
  {
    assert (a + more)[0] == a[0];
    Associates(['/'], a, more);
    Associates(cwd + ['/'], a, more);
  }

  lemma Associates(a: Text, b: Text, c: Text)
    ensures a + (b + c) == a + b + c
  {
  }

  /** The components of a resolved path are the stack that it renders. */
  lemma {:induction false} ResolvedComponents(path: Text, cwd: Text)
    requires |cwd| <= 127 && (cwd == [] || cwd[0] == '/')
    ensures var p, stack := Resolved(path, cwd), Fold([], Components(Anchored(path, cwd)));
            p != [] && p[0] == '/' && Components(p) == stack && Fold([], stack) == stack && |p| <= |Anchored(path, cwd)|
  {
    var t := Anchored(path, cwd);
    var stack := Fold([], Components(t));
    ComponentsAreWords(t);
    FoldCanonical([], Components(t));
    ComponentsRender(stack);
    if stack != [] { FirstSlash(stack); }
    NeverLonger(t, []);
    FoldPlain([], stack);
    assert [] + stack == stack;
  }

  /** Changing to `a` and then opening `b` is opening `a/b`, as long as the whole path fits. */
  lemma {:induction false} ChangeThenOpen(a: Text, b: Text, cwd: Text)
    requires |cwd| <= 127 && (cwd == [] || cwd[0] == '/') && a != [] && b != [] && b[0] != '/'
    requires |Whole(a + (['/'] + b), cwd)| <= 255 && |Resolved(a, cwd)| <= 127
    ensures Resolved(a, cwd) != [] && Resolved(a, cwd)[0] == '/'
    ensures Resolved(b, Resolved(a, cwd)) == Resolved(a + (['/'] + b), cwd)
  {
    var p, t := Resolved(a, cwd), Anchored(a, cwd);
    ResolvedComponents(a, cwd);
    WholeLonger(a, ['/'] + b, cwd);
    ComponentsAppend(t, ['/'] + b);
    SlashFirst(b);
    FoldAppend([], Components(t), Components(b));
    RelativeComponents(b, p);
    FoldAppend([], Components(p), Components(b));
  }

  /** The result is no longer than the path it came from. */
  lemma {:induction false} NeverLonger(t: Text, stack: seq<Text>)
    requires t == [] || t[0] == '/'
    ensures |Joined(Fold(stack, Components(t)))| <= |Joined(stack)| + |t|
    decreases |t|
  {
    if t != [] {
      var s := t[1..];
      if s == [] || s[0] == '/' {
        NeverLonger(s, stack);
      } else {
        var n := WordLen(s);
        var c, rest := s[..n], s[n..];
        assert Components(t) == [c] + Components(rest);
        var next := Apply(stack, c);
        if c == ".." {
          if stack != [] { assert Joined(stack) == Joined(next) + ['/'] + stack[|stack| - 1]; }
        } else if c != "." {
          assert next[..|stack|] == stack;
        }
        NeverLonger(rest, next);
        assert ([c] + Components(rest))[1..] == Components(rest);
      }
    }
  }
}
