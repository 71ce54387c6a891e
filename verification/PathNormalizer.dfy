/**
 The VFS path normaliser: a tokeniser that cuts a copy of the path into zero-terminated components, a stack of
 their offsets, and a static output buffer that the normaliser is later handed back as its own input.
 */
module PathNormalizer {
  import opened PathText

  /** A zero-terminated string in memory. */
  ghost predicate Stored(buf: seq<char>, at: nat, w: string) {
    && at + |w| < |buf| && buf[at + |w|] == '\0'
    && (forall k :: 0 <= k < |w| ==> buf[at + k] == w[k] && w[k] != '\0')
  }

  lemma StoredAt(buf: seq<char>, at: nat, w: string, k: nat)
    requires Stored(buf, at, w) && k <= |w|
    ensures at + k < |buf| && buf[at + k] == (if k < |w| then w[k] else '\0')
    ensures buf[at + k] == '\0' <==> k == |w|
  {
  }

  /** A string is not disturbed by changes after its end. */
  lemma StoredBefore(buf: seq<char>, buf': seq<char>, at: nat, w: string)
    requires Stored(buf, at, w) && |buf'| == |buf| && forall k :: 0 <= k <= at + |w| ==> buf'[k] == buf[k]
    ensures Stored(buf', at, w)
  {
  }

  /** Memory after the string `w` has been copied to `at`. */
  ghost function Put(buf: seq<char>, at: nat, w: string): (r: seq<char>)
    requires at + |w| < |buf|
    ensures |r| == |buf| && r[at + |w|] == '\0'
    ensures forall k :: at <= k < at + |w| ==> r[k] == w[k - at]
    ensures forall k :: 0 <= k < |buf| && !(at <= k <= at + |w|) ==> r[k] == buf[k]
  {
    buf[..at] + w + ['\0'] + buf[at + |w| + 1..]
  }

  /** The part of the output that precedes component `i`. */
  ghost function Lead(stack: seq<string>, i: nat): string
    requires i <= |stack|
  {
    if i < |stack| then Slashed(stack[..i]) + "/" else Render(stack)
  }

  lemma LeadNext(stack: seq<string>, i: nat)
    requires i < |stack|
    ensures Lead(stack, i + 1) == Lead(stack, i) + stack[i] + (if i + 1 < |stack| then "/" else "")
    ensures |Lead(stack, i)| + |stack[i]| <= |Render(stack)|
  {
    assert stack[..i + 1][..i] == stack[..i];
    assert stack[..i + 1] + stack[i + 1..] == stack;
    assert stack[..|stack|] == stack;
    SlashedConcat(stack[..i + 1], stack[i + 1..]);
  }

  lemma LeadEnds(stack: seq<string>)
    ensures Lead(stack, 0) == "/" && Lead(stack, |stack|) == Render(stack)
  {
    assert stack[..0] == [];
  }

  /** `vfs_strlen`. */
  method Length(buf: array<char>, at: nat, ghost w: string) returns (n: nat)
    requires Stored(buf[..], at, w)
    ensures n == |w|
  {
    n := 0;
    StoredAt(buf[..], at, w, 0);
    while buf[at + n] != '\0'
      invariant n <= |w| && at + n < buf.Length && (buf[at + n] == '\0' <==> n == |w|)
      decreases |w| - n
    {
      n := n + 1;
      StoredAt(buf[..], at, w, n);
    }
  }

  /** `vfs_strcpy` between two buffers. */
  method CopyText(src: array<char>, from: nat, dst: array<char>, to: nat, ghost w: string)
    requires Stored(src[..], from, w) && src != dst && to + |w| < dst.Length
    modifies dst
    ensures dst[..] == Put(old(dst[..]), to, w)
  {
    hide Put, Stored;
    var k := 0;
    StoredAt(src[..], from, w, 0);
    while src[from + k] != '\0'
      invariant 0 <= k <= |w| && from + k < src.Length && (src[from + k] == '\0' <==> k == |w|)
      invariant forall i :: to <= i < to + k ==> dst[i] == w[i - to]
      invariant forall i :: 0 <= i < dst.Length && !(to <= i < to + k) ==> dst[i] == old(dst[i])
      decreases |w| - k
    {
      StoredAt(src[..], from, w, k);
      dst[to + k] := src[from + k];
      k := k + 1;
      StoredAt(src[..], from, w, k);
    }
    dst[to + k] := '\0';
    ghost var put := Put(old(dst[..]), to, w);
    assert forall i :: 0 <= i < dst.Length ==> dst[i] == put[i];
  }

  /** `vfs_strcmp` with a constant, for equality. */
  method Matches(buf: array<char>, at: nat, word: string, ghost w: string) returns (same: bool)
    requires Stored(buf[..], at, w) && '\0' !in word
    ensures same == (w == word)
  {
    var k := 0;
    StoredAt(buf[..], at, w, 0);
    while k < |word| && buf[at + k] == word[k]
      invariant k <= |word| && k <= |w| && at + k < buf.Length
      invariant buf[at + k] == (if k < |w| then w[k] else '\0') && (buf[at + k] == '\0' <==> k == |w|)
      invariant forall i :: 0 <= i < k ==> w[i] == word[i]
    {
      k := k + 1;
      StoredAt(buf[..], at, w, k);
    }
    same := k == |word| && buf[at + k] == '\0';
  }

  datatype Mount = Mount(path: string, active: bool)

  /** Mount points are stored as the normaliser wrote them. */
  ghost predicate MountsNormal(mounts: seq<Mount>) {
    forall i :: 0 <= i < |mounts| && mounts[i].active ==>
        Normalized(mounts[i].path) == mounts[i].path && '\0' !in mounts[i].path
  }

  /** Mount `i` is in use, and is mounted at an ancestor of the place `p` leads to. */
  ghost predicate Serves(mounts: seq<Mount>, i: nat, p: string) {
    i < |mounts| && mounts[i].active && Stack(mounts[i].path) <= Stack(p)
  }

  lemma ServesIsCovers(mounts: seq<Mount>, i: nat, p: string)
    requires MountsNormal(mounts) && i < |mounts| && mounts[i].active
    ensures Serves(mounts, i, p) <==> Covers(mounts[i].path, Normalized(p))
  {
    StackClean(p);
    StackClean(mounts[i].path);
    CoversIsAncestor(Stack(mounts[i].path), Stack(p));
  }

  lemma ServesDeeper(mounts: seq<Mount>, i: nat, j: nat, p: string)
    requires MountsNormal(mounts) && Serves(mounts, i, p) && Serves(mounts, j, p)
    requires |mounts[i].path| <= |mounts[j].path|
    ensures Stack(mounts[i].path) <= Stack(mounts[j].path)
  {
    StackClean(mounts[i].path);
    StackClean(mounts[j].path);
    LongerIsDeeper(Stack(mounts[i].path), Stack(mounts[j].path), Stack(p));
  }

  class PathBuffers {
    const normalized: array<char>
    const temp: array<char>

    ghost predicate Valid() {
      normalized != temp && normalized.Length == 4096 && temp.Length == 4096
    }

    constructor ()
      ensures Valid() && fresh(normalized) && fresh(temp)
    {
      normalized := new char[4096](_ => '\0');
      temp := new char[4096](_ => '\0');
    }

    /** What is left of the path from `token` on is still as it was copied. */
    ghost predicate Remaining(p: string, token: nat)
      reads temp
    {
      && token <= |p| < temp.Length && temp[|p|] == '\0'
      && (forall k :: token <= k < |p| ==> temp[k] == p[k])
      && (forall k :: 0 <= k < |p| ==> p[k] != '\0')
    }

    /** The first `depth` offsets are those of the strings of `stack`, all of which end before `token`. */
    ghost predicate Holds(components: array<nat>, depth: nat, stack: seq<string>, token: nat)
      reads temp, components
    {
      && depth == |stack| <= components.Length
      && (forall i :: 0 <= i < depth ==>
          components[i] + |stack[i]| < token && Stored(temp[..], components[i], stack[i]))
    }

    lemma HeldChars(components: array<nat>, depth: nat, stack: seq<string>)
      requires Holds(components, depth, stack, 4097)
      ensures '\0' !in Render(stack)
    {
      forall i | 0 <= i < |stack| ensures '\0' !in stack[i] {
        assert Stored(temp[..], components[i], stack[i]);
      }
      SlashedChars(stack);
    }

    method SkipSlashes(token: nat, ghost p: string) returns (t: nat)
      requires Remaining(p, token)
      ensures token <= t <= |p| && Remaining(p, t) && (t < |p| ==> p[t] != '/')
      ensures Components(p[token..]) == Components(p[t..])
    {
      t := token;
      while temp[t] == '/'
        invariant token <= t && Remaining(p, t) && Components(p[token..]) == Components(p[t..])
        decreases |p| - t
      {
        assert p[t..][1..] == p[t + 1..];
        t := t + 1;
      }
    }

    method FindEnd(token: nat, ghost p: string) returns (end: nat)
      requires Remaining(p, token) && token < |p| && p[token] != '/'
      ensures token < end <= |p| && end - token == End(p[token..])
      ensures end < |p| ==> p[end] == '/'
    {
      end := token;
      while temp[end] != '\0' && temp[end] != '/'
        invariant token <= end <= |p| && (forall k :: token <= k < end ==> p[k] != '/')
        decreases |p| - end
      {
        end := end + 1;
      }
      EndAt(p[token..], end - token);
    }

    /** Terminate the component and apply it to the stack. */
    method Take(components: array<nat>, depth: nat, token: nat, end: nat, ghost p: string, ghost stack: seq<string>)
        returns (d: nat)
      requires Valid() && components.Length == 2048 && Remaining(p, token)
      requires token < end <= |p| && 2 * depth <= token && Holds(components, depth, stack, token)
      modifies temp, components
      ensures Holds(components, d, Push(stack, p[token..end]), end + 1)
      ensures 2 * d <= end + 1
      ensures end < |p| ==> Remaining(p, end + 1)
    {
      hide Stored;
      ghost var c := p[token..end];
      Terminate(components, depth, token, end, p, stack);
      d := depth;
      var here := Matches(temp, token, ".", c);
      if here {
        return;
      }
      var up := Matches(temp, token, "..", c);
      if up {
        if depth > 0 {
          d := depth - 1;
        }
      } else {
        components[depth] := token;
        d := depth + 1;
      }
    }

    /** Write the zero that ends a component. */
    method Terminate(components: array<nat>, depth: nat, token: nat, end: nat, ghost p: string,
        ghost stack: seq<string>)
      requires Valid() && Remaining(p, token) && token < end <= |p| && Holds(components, depth, stack, token)
      modifies temp
      ensures Stored(temp[..], token, p[token..end]) && Holds(components, depth, stack, token)
      ensures end < |p| ==> Remaining(p, end + 1)
    {
      ghost var before := temp[..];
      temp[end] := '\0';
      forall i | 0 <= i < depth ensures Stored(temp[..], components[i], stack[i]) {
        StoredBefore(before, temp[..], components[i], stack[i]);
      }
    }

    /** The tokenising loop. */
    method Tokenise(components: array<nat>, ghost p: string) returns (depth: nat)
      requires Valid() && components.Length == 2048 && Remaining(p, 0)
      modifies temp, components
      ensures depth <= 2048 && Holds(components, depth, Stack(p), 4097)
    {
      hide Components, Resolve, Push, Holds, Remaining;
      var token := 0;
      depth := 0;
      ghost var cs: seq<string> := [];
      NoComponents();
      HoldsNothing(components);
      RemainingAt(p, 0, 0);
      assert p[0..] == p;
      while temp[token] != '\0'
        invariant token <= |p| < temp.Length && Remaining(p, token) && (temp[token] == '\0' <==> token == |p|)
        invariant Components(p) == cs + Components(p[token..])
        invariant 2 * depth <= token && Holds(components, depth, Resolve(cs), token)
        decreases |p| - token
      {
        var t := SkipSlashes(token, p);
        HoldsLater(components, depth, Resolve(cs), token, t);
        RemainingAt(p, t, t);
        token := t;
        if temp[token] == '\0' {
          LastComponent(p, token, cs);
          break;
        }
        var end := FindEnd(token, p);
        ghost var c := p[token..end];
        NextComponent(p, token, end, cs);
        ResolveNext(cs, c);
        RemainingAt(p, token, end);
        var more := temp[end] != '\0';
        depth := Take(components, depth, token, end, p, Resolve(cs));
        cs := cs + [c];
        token := end + 1;
        if !more {
          break;
        }
        RemainingAt(p, token, token);
      }
      if token == |p| && Components(p) != cs {
        LastComponent(p, token, cs);
      }
      HoldsLater(components, depth, Resolve(cs), token, 4097);
    }

    lemma RemainingAt(p: string, token: nat, k: nat)
      requires Remaining(p, token) && token <= k <= |p|
      ensures |p| < temp.Length && (temp[k] == '\0' <==> k == |p|)
    {
    }

    lemma HoldsNothing(components: array<nat>)
      ensures Holds(components, 0, [], 0)
    {
    }

    lemma HoldsLater(components: array<nat>, depth: nat, stack: seq<string>, token: nat, token': nat)
      requires Holds(components, depth, stack, token) && token <= token'
      ensures Holds(components, depth, stack, token')
    {
      hide Stored;
    }

    /** The loop that writes the components out. */
    method Build(components: array<nat>, depth: nat, ghost stack: seq<string>) returns (ok: bool)
      requires Valid() && Holds(components, depth, stack, 4097)
      modifies normalized
      ensures ok == (|Render(stack)| < 4095)
      ensures ok ==> normalized[..] == Put(old(normalized[..]), 0, Render(stack))
    {
      hide Slashed, Render, Lead, Stored, Put;
      LeadEnds(stack);
      normalized[0] := '/';
      var j := 1;
      for i := 0 to depth
        invariant j == |Lead(stack, i)| < 4096 && (i == depth ==> j < 4095)
        invariant forall k :: 0 <= k < j ==> normalized[k] == Lead(stack, i)[k]
        invariant forall k :: j < k < 4096 ==> normalized[k] == old(normalized[k])
      {
        LeadNext(stack, i);
        var len := Length(temp, components[i], stack[i]);
        if j + len + 1 >= 4096 {
          return false;
        }
        CopyText(temp, components[i], normalized, j, stack[i]);
        j := j + len;
        if i < depth - 1 {
          normalized[j] := '/';
          j := j + 1;
        }
      }
      normalized[j] := '\0';
      ok := true;
    }

    /**
     `vfs_normalize_path`: `p` is the text of the path. The path may be the output buffer itself. The result
     is refused exactly when the path or its normal form is too long.
     */
    method Normalize(path: array?<char>, ghost p: string) returns (ok: bool)
      requires Valid() && path != temp
      requires if path == null then p == "" else Stored(path[..], 0, p)
      modifies normalized, temp
      ensures ok == (|p| < 4096 && |Normalized(p)| < 4095)
      ensures ok ==> normalized[..] == Put(old(normalized[..]), 0, Normalized(p))
      ensures ok ==> Stored(normalized[..], 0, Normalized(p))
    {
      if path == null || path[0] == '\0' {
        if path != null {
          StoredAt(path[..], 0, p, 0);
        }
        assert p == "";
        normalized[0] := '/';
        normalized[1] := '\0';
        return true;
      }
      var len := Length(path, 0, p);
      if len >= 4096 {
        return false;
      }
      CopyText(path, 0, temp, 0, p);
      var components := new nat[2048];
      var depth := Tokenise(components, p);
      HeldChars(components, depth, Stack(p));
      ok := Build(components, depth, Stack(p));
    }

    /**
     A lookup normalises the caller's path, and the mount search then normalises the result again in the
     buffer it is in: the second pass succeeds and changes nothing in the buffer.
     */
    method NormalizeAgain(path: array?<char>, ghost p: string) returns (ok: bool)
      requires Valid() && path != temp
      requires if path == null then p == "" else Stored(path[..], 0, p)
      modifies normalized, temp
      ensures ok == (|p| < 4096 && |Normalized(p)| < 4095)
      ensures ok ==> normalized[..] == Put(old(normalized[..]), 0, Normalized(p))
      ensures ok ==> Stored(normalized[..], 0, Normalized(p))
    {
      ok := Normalize(path, p);
      if ok {
        NormalizedTwice(p);
        ok := Normalize(normalized, Normalized(p));
      }
    }

    /** The mount search's comparison of a mount point with the normalised path. */
    method PrefixMatches(m: string, ghost s: string) returns (matches: bool)
      requires Stored(normalized[..], 0, s) && '\0' !in m
      ensures matches == Covers(m, s)
    {
      var k := 0;
      StoredAt(normalized[..], 0, s, 0);
      while k < |m| && m[k] == normalized[k]
        invariant k <= |m| && k <= |s| < normalized.Length && m[..k] == s[..k]
        invariant normalized[k] == (if k < |s| then s[k] else '\0') && (normalized[k] == '\0' <==> k == |s|)
      {
        k := k + 1;
        StoredAt(normalized[..], 0, s, k);
      }
      matches := k == |m| && (normalized[k] == '\0' || normalized[k] == '/' || k == 1);
    }

    /**
     `vfs_get_mount` over the first `count` mounts: the deepest one mounted at an ancestor of the path, and none
     exactly when there is no such mount or the path is too long.
     */
    method GetMount(path: array?<char>, mounts: seq<Mount>, count: nat, ghost p: string) returns (best: int)
      requires Valid() && path != temp && count <= |mounts| && MountsNormal(mounts)
      requires if path == null then p == "" else Stored(path[..], 0, p)
      modifies normalized, temp
      ensures -1 <= best < count
      ensures best == -1 <==>
                || path == null || |p| >= 4096 || |Normalized(p)| >= 4095
                || forall i: nat :: i < count ==> !Serves(mounts, i, p)
      ensures best >= 0 ==> Serves(mounts, best, p)
      ensures best >= 0 ==> forall i: nat :: i < count && Serves(mounts, i, p) ==>
                Stack(mounts[i].path) <= Stack(mounts[best].path)
    {
      hide Stored, Stack, Normalized, Covers;
      if path == null {
        return -1;
      }
      var ok := Normalize(path, p);
      if !ok {
        return -1;
      }
      best := -1;
      var bestLength := 0;
      var k := 0;
      while k < count
        invariant k <= count && -1 <= best < k && Stored(normalized[..], 0, Normalized(p))
        invariant best == -1 ==> bestLength == 0 && forall i: nat :: i < k ==> !Serves(mounts, i, p)
        invariant best >= 0 ==> Serves(mounts, best, p) && bestLength == |mounts[best].path|
        invariant forall i: nat :: i < k && Serves(mounts, i, p) ==> |mounts[i].path| <= bestLength
      {
        if mounts[k].active {
          ServesIsCovers(mounts, k, p);
          NormalNonEmpty(mounts[k].path);
          var matches := PrefixMatches(mounts[k].path, Normalized(p));
          if matches && |mounts[k].path| > bestLength {
            bestLength, best := |mounts[k].path|, k;
          }
        }
        k := k + 1;
      }
      if best >= 0 {
        forall i: nat | i < count && Serves(mounts, i, p) ensures Stack(mounts[i].path) <= Stack(mounts[best].path) {
          ServesDeeper(mounts, i, best, p);
        }
      }
    }
  }

  lemma NormalNonEmpty(s: string)
    requires Normalized(s) == s
    ensures s != ""
  {
    FixedIffNormal(s);
  }

  lemma {:induction false} SlashedChars(stack: seq<string>)
    requires forall i :: 0 <= i < |stack| ==> '\0' !in stack[i]
    ensures '\0' !in Slashed(stack)
  {
    if stack != [] {
      SlashedChars(stack[..|stack| - 1]);
    }
  }

  lemma NoComponents()
    ensures Components("") == [] && Resolve([]) == []
  {
  }

  lemma FirstComponent(p: string, token: nat, end: nat)
    requires token < end <= |p| && p[token] != '/' && end - token == End(p[token..])
    ensures Components(p[token..]) == [p[token..end]] + (if end < |p| then Components(p[end + 1..]) else [])
  {
    assert p[token..][..end - token] == p[token..end];
    assert p[token..][end - token..] == p[end..];
    if end < |p| {
      assert p[end..][1..] == p[end + 1..];
    }
  }

  /** The components split after the one from `token` to `end`. */
  lemma NextComponent(p: string, token: nat, end: nat, cs: seq<string>)
    requires token < end <= |p| && p[token] != '/' && end - token == End(p[token..])
    requires Components(p) == cs + Components(p[token..])
    ensures Components(p) == if end < |p| then cs + [p[token..end]] + Components(p[end + 1..]) else cs + [p[token..end]]
  {
    hide Components;
    FirstComponent(p, token, end);
  }

  lemma LastComponent(p: string, token: nat, cs: seq<string>)
    requires token == |p| && Components(p) == cs + Components(p[token..])
    ensures Components(p) == cs
  {
  }
}
