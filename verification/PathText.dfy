/**
 The meaning of a path: its components, the directory stack they lead to, and the normal form of that stack.
 */
module PathText {

  /** A component: non-empty and without a slash. */
  ghost predicate Named(c: string) {
    c != "" && '/' !in c
  }

  ghost predicate Clean(c: string) {
    Named(c) && c != "." && c != ".."
  }

  ghost predicate AllNamed(cs: seq<string>) {
    forall i :: 0 <= i < |cs| ==> Named(cs[i])
  }

  ghost predicate AllClean(cs: seq<string>) {
    forall i :: 0 <= i < |cs| ==> Clean(cs[i])
  }

  /** Where the component at the start of `s` ends. */
  function End(s: string): (e: nat)
    ensures e <= |s| && '/' !in s[..e] && (e < |s| ==> s[e] == '/')
    ensures s != "" && s[0] != '/' ==> e > 0
  {
    if s == "" || s[0] == '/' then 0 else 1 + End(s[1..])
  }

  /** The non-empty pieces between slashes. */
  function Components(s: string): (cs: seq<string>)
    ensures AllNamed(cs)
    decreases |s|
  {
    if s == "" then [] else if s[0] == '/' then Components(s[1..]) else [s[..End(s)]] + Components(s[End(s)..])
  }

  /** One step of a walk from the root: `.` stays, `..` goes up, and the root is its own parent. */
  function Push(stack: seq<string>, c: string): seq<string> {
    if c == "." then stack
    else if c == ".." then (if stack == [] then [] else stack[..|stack| - 1])
    else stack + [c]
  }

  function Resolve(cs: seq<string>): seq<string> {
    if cs == [] then [] else Push(Resolve(cs[..|cs| - 1]), cs[|cs| - 1])
  }

  /** The directory stack a path leads to. */
  function Stack(s: string): seq<string> {
    Resolve(Components(s))
  }

  /** Every component after a slash. */
  function Slashed(stack: seq<string>): string {
    if stack == [] then "" else Slashed(stack[..|stack| - 1]) + "/" + stack[|stack| - 1]
  }

  function Render(stack: seq<string>): string {
    if stack == [] then "/" else Slashed(stack)
  }

  function Normalized(s: string): string {
    Render(Stack(s))
  }

  lemma {:induction false} EndAt(s: string, e: nat)
    requires e <= |s| && '/' !in s[..e] && (e < |s| ==> s[e] == '/')
    ensures End(s) == e
  {
    if e > 0 {
      assert s[0] == s[..e][0];
      assert s[1..][..e - 1] == s[..e][1..];
      EndAt(s[1..], e - 1);
    }
  }

  lemma {:induction false} ComponentsConcat(a: string, b: string)
    ensures Components(a + "/" + b) == Components(a) + Components(b)
    decreases |a|
  {
    var s := a + "/" + b;
    if a == "" {
      assert s[1..] == b;
    } else if a[0] == '/' {
      assert s[1..] == a[1..] + "/" + b;
      ComponentsConcat(a[1..], b);
    } else {
      var e := End(a);
      assert s[..e] == a[..e];
      EndAt(s, e);
      assert s[e..] == a[e..] + "/" + b;
      ComponentsConcat(a[e..], b);
    }
  }

  lemma {:induction false} OneComponent(c: string)
    requires Named(c)
    ensures Components(c) == [c]
  {
    assert c[..|c|] == c;
    EndAt(c, |c|);
    assert c[|c|..] == "";
  }

  /** Splitting undoes rendering. */
  lemma {:induction false} ComponentsSlashed(stack: seq<string>)
    requires AllNamed(stack)
    ensures Components(Slashed(stack)) == stack
  {
    if stack != [] {
      var n := |stack| - 1;
      ComponentsSlashed(stack[..n]);
      ComponentsConcat(Slashed(stack[..n]), stack[n]);
      OneComponent(stack[n]);
    }
  }

  lemma ComponentsRender(stack: seq<string>)
    requires AllNamed(stack)
    ensures Components(Render(stack)) == stack
  {
    ComponentsSlashed(stack);
    if stack == [] {
      assert Components("/"[1..]) == [];
    }
  }

  lemma {:induction false} ResolveClean(cs: seq<string>)
    requires AllNamed(cs)
    ensures AllClean(Resolve(cs))
  {
    if cs != [] {
      ResolveClean(cs[..|cs| - 1]);
    }
  }

  lemma {:induction false} ResolveOfClean(stack: seq<string>)
    requires AllClean(stack)
    ensures Resolve(stack) == stack
  {
    if stack != [] {
      ResolveOfClean(stack[..|stack| - 1]);
    }
  }

  lemma ResolveNext(cs: seq<string>, c: string)
    ensures Resolve(cs + [c]) == Push(Resolve(cs), c)
  {
    assert (cs + [c])[..|cs|] == cs;
  }

  /** Rendering a stack and reading it again gives the stack. */
  lemma StackRender(stack: seq<string>)
    requires AllClean(stack)
    ensures Stack(Render(stack)) == stack
  {
    ComponentsRender(stack);
    ResolveOfClean(stack);
  }

  lemma StackClean(s: string)
    ensures AllClean(Stack(s))
  {
    ResolveClean(Components(s));
  }

  lemma NormalizedTwice(s: string)
    ensures Normalized(Normalized(s)) == Normalized(s)
  {
    StackClean(s);
    StackRender(Stack(s));
  }

  /** Where a path leads depends on its beginning only through where that leads. */
  lemma {:induction false} ResolveFrom(a: seq<string>, a': seq<string>, b: seq<string>)
    requires Resolve(a) == Resolve(a')
    ensures Resolve(a + b) == Resolve(a' + b)
  {
    if b == [] {
      assert a + b == a && a' + b == a';
    } else {
      var n := |b| - 1;
      ResolveFrom(a, a', b[..n]);
      assert a + b == (a + b[..n]) + [b[n]] && a' + b == (a' + b[..n]) + [b[n]];
      ResolveNext(a + b[..n], b[n]);
      ResolveNext(a' + b[..n], b[n]);
    }
  }

  lemma StackFrom(s: string, s': string, t: string)
    requires Stack(s) == Stack(s')
    ensures Normalized(s + "/" + t) == Normalized(s' + "/" + t)
  {
    hide Components, Resolve, Render;
    ComponentsConcat(s, t);
    ComponentsConcat(s', t);
    ResolveFrom(Components(s), Components(s'), Components(t));
  }

  lemma StackNext(s: string, c: string)
    requires Named(c)
    ensures Stack(s + "/" + c) == Push(Stack(s), c)
  {
    hide Components, Resolve, Push;
    ComponentsConcat(s, c);
    OneComponent(c);
    ResolveNext(Components(s), c);
  }

  /** `..` undoes the component before it, wherever it stands, and at the root it does nothing. */
  lemma DotDotGoesUp(s: string, c: string, t: string)
    requires Clean(c)
    ensures Normalized(s + "/" + c + "/..") == Normalized(s)
    ensures Normalized(s + "/" + c + "/.." + "/" + t) == Normalized(s + "/" + t)
    ensures Normalized("/..") == "/" && Normalized("/.." + "/" + t) == Normalized("/" + t)
  {
    hide Components, Resolve, Render, Normalized;
    StackNext(s, c);
    StackNext(s + "/" + c, "..");
    assert s + "/" + c + "/.." == s + "/" + c + "/" + "..";
    NormalizedIs(s + "/" + c + "/..");
    NormalizedIs(s);
    StackFrom(s + "/" + c + "/..", s, t);
    RootStack();
    StackNext("", "..");
    assert "" + "/" + ".." == "/..";
    NormalizedIs("/..");
    StackFrom("/..", "", t);
    assert "" + "/" + t == "/" + t;
  }

  lemma NormalizedIs(s: string)
    ensures Normalized(s) == Render(Stack(s))
  {
  }

  lemma RootStack()
    ensures Stack("") == [] && Render([]) == "/"
  {
  }

  /** `.` and extra slashes do nothing, and a path without a leading slash starts at the root. */
  lemma DotStays(s: string, t: string)
    ensures Normalized(s + "/.") == Normalized(s) && Normalized(s + "/." + "/" + t) == Normalized(s + "/" + t)
    ensures Normalized(s + "/") == Normalized(s) && Normalized(s + "/" + "/" + t) == Normalized(s + "/" + t)
    ensures Normalized("/" + s) == Normalized(s)
  {
    hide Resolve, Render, Normalized;
    StackNext(s, ".");
    assert s + "/" + "." == s + "/.";
    NormalizedIs(s + "/.");
    NormalizedIs(s);
    StackFrom(s + "/.", s, t);
    ComponentsConcat(s, "");
    assert s + "/" + "" == s + "/";
    assert Components("") == [] && Components(s + "/") == Components(s);
    NormalizedIs(s + "/");
    StackFrom(s + "/", s, t);
    ComponentsConcat("", s);
    assert "" + "/" + s == "/" + s;
    assert Components("/" + s) == Components(s);
    NormalizedIs("/" + s);
  }

  /** Any other component is added at the end. */
  lemma NameGoesDown(s: string, c: string)
    requires Clean(c)
    ensures Normalized(s + "/" + c) == (if Normalized(s) == "/" then "" else Normalized(s)) + "/" + c
  {
    hide Components, Resolve;
    StackNext(s, c);
    var stack := Stack(s);
    assert (stack + [c])[..|stack|] == stack;
    StackClean(s);
    if stack != [] {
      SlashedNormal(stack);
    } else {
      assert Slashed([]) == "";
    }
  }

  /** Two paths have the same normal form exactly when they lead to the same place. */
  lemma NormalizedSame(s: string, t: string)
    ensures Normalized(s) == Normalized(t) <==> Stack(s) == Stack(t)
  {
    StackClean(s);
    StackClean(t);
    StackRender(Stack(s));
    StackRender(Stack(t));
  }

  /**
   The normal form, said of the characters alone: rooted, no double or trailing slash, and no piece
   between slashes that is `.` or `..`.
   */
  ghost predicate NormalForm(s: string) {
    && s != "" && s[0] == '/'
    && (s != "/" ==> s[|s| - 1] != '/')
    && (forall i :: 0 <= i < |s| - 1 ==> s[i] == '/' ==> s[i + 1] != '/')
    && (forall i, j :: Piece(s, i, j) ==> s[i + 1..j] != "." && s[i + 1..j] != "..")
  }

  /** The characters between `i` and `j` lie between two slashes, or after the last one. */
  ghost predicate Piece(s: string, i: int, j: int) {
    0 <= i < j <= |s| && s[i] == '/' && (j == |s| || s[j] == '/')
  }

  lemma {:induction false} SlashedNormal(stack: seq<string>)
    requires AllClean(stack) && stack != []
    ensures NormalForm(Slashed(stack)) && |Slashed(stack)| > 1
  {
    var n := |stack| - 1;
    var a, c := Slashed(stack[..n]), stack[n];
    if n > 0 {
      SlashedNormal(stack[..n]);
    } else {
      assert a == "";
    }
    AppendNormal(a, c);
  }

  lemma NotDots(t: string, k: nat)
    requires k < |t| && t[k] == '/'
    ensures t != "." && t != ".."
  {
  }

  lemma AppendNormal(a: string, c: string)
    requires Clean(c) && (a == "" || (NormalForm(a) && a != "/"))
    ensures NormalForm(a + "/" + c)
  {
    var s := a + "/" + c;
    forall i, j | Piece(s, i, j)
      ensures s[i + 1..j] != "." && s[i + 1..j] != ".."
    {
      if i < |a| && j <= |a| {
        assert Piece(a, i, j) && s[i + 1..j] == a[i + 1..j];
      } else if i < |a| {
        NotDots(s[i + 1..j], |a| - i - 1);
      } else {
        assert s[i + 1..j] == c;
      }
    }
    assert s[|s| - 1] == c[|c| - 1];
  }

  /** Every path in normal form is a rendered stack. */
  lemma {:induction false} NormalIsRendered(s: string) returns (stack: seq<string>)
    requires NormalForm(s)
    ensures AllClean(stack) && Render(stack) == s
    decreases |s|
  {
    if s == "/" {
      return [];
    }
    var i := LastSlash(s);
    var a, c := s[..i], s[i + 1..];
    assert s == a + "/" + c;
    assert Piece(s, i, |s|) && s[i + 1..|s|] == c;
    assert Clean(c);
    if a == "" {
      stack := [c];
      assert stack[..0] == [] && Slashed([]) == "";
    } else {
      PrefixNormal(s, i);
      stack := NormalIsRendered(a);
      assert stack != [];
      assert (stack + [c])[..|stack|] == stack;
      stack := stack + [c];
    }
  }

  lemma LastSlash(s: string) returns (i: nat)
    requires s != "" && s[0] == '/' && s[|s| - 1] != '/'
    ensures i < |s| - 1 && s[i] == '/' && '/' !in s[i + 1..]
  {
    i := |s| - 1;
    while s[i] != '/'
      invariant i < |s| && '/' !in s[i + 1..]
      decreases i
    {
      assert s[i..] == [s[i]] + s[i + 1..];
      i := i - 1;
    }
  }

  lemma PrefixNormal(s: string, i: nat)
    requires NormalForm(s) && 0 < i < |s| && s[i] == '/'
    ensures NormalForm(s[..i]) && s[..i] != "/"
  {
    var a := s[..i];
    assert a[|a| - 1] == s[i - 1];
    forall k, j | Piece(a, k, j)
      ensures a[k + 1..j] != "." && a[k + 1..j] != ".."
    {
      assert Piece(s, k, j) && a[k + 1..j] == s[k + 1..j];
    }
  }

  /** The paths the normaliser leaves alone are exactly those in normal form. */
  lemma FixedIffNormal(s: string)
    ensures Normalized(s) == s <==> NormalForm(s)
    ensures NormalForm(Normalized(s))
  {
    StackClean(s);
    if Stack(s) != [] {
      SlashedNormal(Stack(s));
    }
    if NormalForm(s) {
      var stack := NormalIsRendered(s);
      StackRender(stack);
    }
  }

  lemma {:induction false} SlashedConcat(a: seq<string>, b: seq<string>)
    ensures Slashed(a + b) == Slashed(a) + Slashed(b)
  {
    if b == [] {
      assert a + b == a;
    } else {
      var n := |b| - 1;
      SlashedConcat(a, b[..n]);
      assert (a + b)[..|a| + n] == a + b[..n];
    }
  }

  lemma {:induction false} SlashedStarts(b: seq<string>)
    requires b != []
    ensures Slashed(b) != "" && Slashed(b)[0] == '/'
  {
    if |b| > 1 {
      SlashedStarts(b[..|b| - 1]);
    }
  }

  /** The mount search's test of a mount point's path `m` against a normalised path `s`. */
  predicate Covers(m: string, s: string) {
    m <= s && (|m| == |s| || s[|m|] == '/' || |m| == 1)
  }

  /** On normalised paths the character test finds exactly the ancestors. */
  lemma CoversIsAncestor(a: seq<string>, b: seq<string>)
    requires AllClean(a) && AllClean(b)
    ensures Covers(Render(a), Render(b)) <==> a <= b
  {
    hide Slashed, Components, NormalForm;
    if a != [] {
      SlashedNormal(a);
      if a <= b && |a| == |b| {
        assert a == b;
      } else if a <= b {
        assert a + b[|a|..] == b;
        SlashedConcat(a, b[|a|..]);
        SlashedStarts(b[|a|..]);
      }
      if b != [] && Covers(Slashed(a), Slashed(b)) {
        CoversSplits(a, b);
      }
    } else if b != [] {
      SlashedStarts(b);
    }
  }

  lemma CoversSplits(a: seq<string>, b: seq<string>)
    requires AllNamed(a) && AllNamed(b) && Covers(Slashed(a), Slashed(b)) && |Slashed(a)| > 1
    ensures a <= b
  {
    hide Slashed, Components;
    ComponentsSlashed(a);
    ComponentsSlashed(b);
    var m, s := Slashed(a), Slashed(b);
    if |m| < |s| {
      assert s == m + "/" + s[|m| + 1..];
      ComponentsConcat(m, s[|m| + 1..]);
    } else {
      assert m == s;
    }
  }

  /** A deeper ancestor has a longer path. */
  lemma DeeperIsLonger(a: seq<string>, b: seq<string>)
    requires AllClean(a) && AllClean(b) && a <= b && a != b
    ensures |Render(a)| < |Render(b)|
  {
    assert a + b[|a|..] == b;
    SlashedConcat(a, b[|a|..]);
    SlashedStarts(b[|a|..]);
    SlashedNormal(b);
  }

  /** Of two normal paths to ancestors of one place, the one that is not shorter is not higher. */
  lemma LongerIsDeeper(a: seq<string>, b: seq<string>, c: seq<string>)
    requires AllClean(a) && AllClean(b) && a <= c && b <= c && |Render(a)| <= |Render(b)|
    ensures a <= b
  {
    assert a == c[..|a|] && b == c[..|b|];
    if |b| < |a| {
      DeeperIsLonger(b, a);
    }
  }
}
