/**
 8.3 names: `fat32_to_short_name` packs a name into eleven bytes, `fat32_format_short_name` unpacks it, and
 `fat32_strcmp_83` compares a name with a packed one without regard to letter case.
 A C string is the sequence of its bytes before the terminating zero.
 */
module ShortNames {
  import opened Bytes

  const SPACE: Byte := 32
  const DOT: Byte := 46

  function ToUpper(c: Byte): (r: Byte) {
    if 'a' as int <= c <= 'z' as int then c - 32 else c
  }

  function Upper(s: seq<Byte>): (r: seq<Byte>)
    ensures |r| == |s|
  {
    seq(|s|, i requires 0 <= i < |s| => ToUpper(s[i]))
  }

  /** The characters a short name may contain, after conversion to upper case. */
  predicate Legal(c: Byte) {
    || 'A' as int <= c <= 'Z' as int
    || '0' as int <= c <= '9' as int
    || c == '!' as int || c == '#' as int || c == '$' as int || c == '%' as int || c == '&' as int
    || c == '\'' as int || c == '(' as int || c == ')' as int || c == '-' as int || c == '@' as int
    || c == '^' as int || c == '_' as int || c == '`' as int || c == '{' as int || c == '}' as int || c == '~' as int
  }

  /** The legal characters by number: letters, digits, and sixteen others. */
  lemma LegalSet(c: Byte)
    ensures Legal(c) <==>
            || 65 <= c <= 90 || 48 <= c <= 57
            || c in {33, 35, 36, 37, 38, 39, 40, 41, 45, 64, 94, 95, 96, 123, 125, 126}
  {
  }

  /** The same byte, or an upper-case letter and its lower-case form. */
  predicate SameLetter(a: Byte, b: Byte) {
    a == b || (65 <= a <= 90 && b == a + 32) || (65 <= b <= 90 && a == b + 32)
  }

  predicate SameLetters(a: seq<Byte>, b: seq<Byte>) {
    |a| == |b| && forall i :: 0 <= i < |a| ==> SameLetter(a[i], b[i])
  }

  lemma UpperLetter(a: Byte, b: Byte)
    ensures ToUpper(a) == ToUpper(b) <==> SameLetter(a, b)
    ensures SameLetter(a, ToUpper(a)) && !(97 <= ToUpper(a) <= 122)
  {
  }

  /** Two names have one upper-case form exactly when they are the same up to letter case. */
  lemma UpperSame(a: seq<Byte>, b: seq<Byte>)
    ensures Upper(a) == Upper(b) <==> SameLetters(a, b)
  {
    hide ToUpper, SameLetter;
    forall x: Byte, y: Byte ensures ToUpper(x) == ToUpper(y) <==> SameLetter(x, y) {
      UpperLetter(x, y);
    }
    UpperEqual(a, b);
  }

  predicate AllLegal(s: seq<Byte>) {
    forall i :: 0 <= i < |s| ==> Legal(ToUpper(s[i]))
  }

  /** The legal characters of `s`, in upper case and in order. */
  function Filtered(s: seq<Byte>): (r: seq<Byte>)
    ensures |r| <= |s| && (|r| == |s| <==> AllLegal(s))
    ensures AllLegal(s) ==> r == Upper(s)
    ensures forall i :: 0 <= i < |r| ==> Legal(r[i])
  {
    if s == [] then [] else
      var init, c := Filtered(s[..|s| - 1]), ToUpper(s[|s| - 1]);
      assert s == s[..|s| - 1] + [s[|s| - 1]];
      if Legal(c) then init + [c] else init
  }

  function First(s: seq<Byte>, n: nat): (r: seq<Byte>)
    ensures |r| <= n && r <= s
  {
    if |s| <= n then s else s[..n]
  }

  /** Padded with spaces to `n` bytes. */
  function Padded(s: seq<Byte>, n: nat): (r: seq<Byte>)
    requires |s| <= n
    ensures |r| == n
  {
    s + seq(n - |s|, _ => SPACE)
  }

  /** Without trailing spaces. */
  function Trimmed(s: seq<Byte>): (r: seq<Byte>)
    ensures r <= s
    ensures r != [] ==> r[|r| - 1] != SPACE
    ensures forall i :: |r| <= i < |s| ==> s[i] == SPACE
  {
    if s != [] && s[|s| - 1] == SPACE then Trimmed(s[..|s| - 1]) else s
  }

  /** Position of the last dot, or the length of the name. */
  function LastDot(name: seq<Byte>): (d: nat)
    ensures d <= |name| && (d < |name| ==> name[d] == DOT)
    ensures forall i :: d < i < |name| ==> name[i] != DOT
    ensures d == |name| ==> forall i :: 0 <= i < |name| ==> name[i] != DOT
  {
    if name == [] then 0
    else if name[|name| - 1] == DOT then |name| - 1
    else var d := LastDot(name[..|name| - 1]); if d == |name| - 1 then |name| else d
  }

  function BaseOf(name: seq<Byte>): seq<Byte> {
    name[..LastDot(name)]
  }

  function ExtOf(name: seq<Byte>): seq<Byte> {
    if LastDot(name) < |name| then name[LastDot(name) + 1..] else []
  }

  /** The eleven bytes of a packed name. */
  function Encode(name: seq<Byte>): (r: seq<Byte>)
    ensures |r| == 11
  {
    Padded(First(Filtered(BaseOf(name)), 8), 8) + Padded(First(Filtered(ExtOf(name)), 3), 3)
  }

  function Format(packed: seq<Byte>): (r: seq<Byte>)
    requires |packed| == 11
  {
    var base, ext := Trimmed(packed[..8]), Trimmed(packed[8..]);
    if ext == [] then base else base + [DOT] + ext
  }

  /** The name under which a packed name is found. */
  function Key(packed: seq<Byte>): seq<Byte>
    requires |packed| == 11
  {
    Upper(CString(Format(packed)))
  }

  /**
   Names that survive packing: at most eight legal characters, then nothing, or a dot and one to three
   legal characters.
   */
  predicate Representable(name: seq<Byte>) {
    && |BaseOf(name)| <= 8 && AllLegal(BaseOf(name))
    && (LastDot(name) < |name| ==> 1 <= |ExtOf(name)| <= 3 && AllLegal(ExtOf(name)))
  }

  lemma {:induction false} TrimPadded(s: seq<Byte>, n: nat)
    requires |s| <= n && (forall i :: 0 <= i < |s| ==> s[i] != SPACE)
    ensures Trimmed(Padded(s, n)) == s
    decreases n
  {
    if |s| < n {
      assert Padded(s, n)[..n - 1] == Padded(s, n - 1);
      TrimPadded(s, n - 1);
    } else {
      assert Padded(s, n) == s;
    }
  }

  /** Unpacking a packed name gives the kept characters of its two parts. */
  lemma {:induction false} FormatEncode(name: seq<Byte>)
    ensures var base, ext := First(Filtered(BaseOf(name)), 8), First(Filtered(ExtOf(name)), 3);
            Format(Encode(name)) == if ext == [] then base else base + [DOT] + ext
  {
    var base, ext := First(Filtered(BaseOf(name)), 8), First(Filtered(ExtOf(name)), 3);
    assert Encode(name)[..8] == Padded(base, 8) && Encode(name)[8..] == Padded(ext, 3);
    assert forall i :: 0 <= i < |base| ==> Legal(base[i]);
    assert forall i :: 0 <= i < |ext| ==> Legal(ext[i]);
    TrimPadded(base, 8);
    TrimPadded(ext, 3);
  }

  /**
   The eleven bytes: the kept characters of the base, spaces up to eight, and those of the extension, up to
   eleven.
   */
  lemma EncodedBytes(name: seq<Byte>)
    ensures var base, ext, r := First(Filtered(BaseOf(name)), 8), First(Filtered(ExtOf(name)), 3), Encode(name);
            && (forall i :: 0 <= i < |base| ==> r[i] == base[i]) && (forall i :: |base| <= i < 8 ==> r[i] == 32)
            && (forall i :: 8 <= i < 8 + |ext| ==> r[i] == ext[i - 8])
            && (forall i :: 8 + |ext| <= i < 11 ==> r[i] == 32)
  {
    hide Filtered, First, BaseOf, ExtOf;
  }

  /** An instance: `ab.c` is packed as `AB`, six spaces, `C` and two spaces, and shown as `AB.C`. */
  lemma EncodeInstance()
    ensures Encode([97, 98, 46, 99]) == [65, 66, 32, 32, 32, 32, 32, 32, 67, 32, 32]
    ensures Format([65, 66, 32, 32, 32, 32, 32, 32, 67, 32, 32]) == [65, 66, 46, 67]
  {
    hide Filtered, First, Encode, Format, LastDot, BaseOf, ExtOf, Upper, AllLegal, Padded;
    var name: seq<Byte> := [97, 98, 46, 99];
    InstanceParts();
    PartKept([97, 98], 8);
    PartKept([99], 3);
    EncodedBytes(name);
    FormatEncode(name);
    var r := Encode(name);
    assert r[0] == 65 && r[1] == 66 && r[8] == 67;
    assert r == [65, 66, 32, 32, 32, 32, 32, 32, 67, 32, 32];
  }

  lemma InstanceParts()
    ensures BaseOf([97, 98, 46, 99]) == [97, 98] && ExtOf([97, 98, 46, 99]) == [99]
    ensures AllLegal([97, 98]) && Upper([97, 98]) == [65, 66] && AllLegal([99]) && Upper([99]) == [67]
  {
    hide LastDot;
    var name: seq<Byte> := [97, 98, 46, 99];
    assert name[2] == DOT && LastDot(name) == 2;
  }

  lemma {:induction false} NameParts(name: seq<Byte>)
    ensures LastDot(name) == |name| ==> name == BaseOf(name) && ExtOf(name) == []
    ensures LastDot(name) < |name| ==> name == BaseOf(name) + [DOT] + ExtOf(name)
  {
    hide LastDot;
    var d := LastDot(name);
    if d < |name| {
      assert name == name[..d] + [name[d]] + name[d + 1..];
    }
  }

  lemma UpperJoin(a: seq<Byte>, b: seq<Byte>)
    ensures Upper(a + [DOT] + b) == Upper(a) + [DOT] + Upper(b)
  {
  }

  /** The part of a name that is kept is all of it exactly when it is legal and short enough. */
  lemma PartKept(s: seq<Byte>, n: nat)
    ensures var r := First(Filtered(s), n);
            && |r| <= |s| && |r| <= n && (|r| == |s| <==> AllLegal(s) && |s| <= n) && (|r| == |s| ==> r == Upper(s))
  {
    hide Filtered, Upper, AllLegal;
  }

  /** Packing and unpacking a name gives it back, in upper case, exactly when it is representable. */
  lemma {:induction false} RoundTrip(name: seq<Byte>)
    ensures Format(Encode(name)) == Upper(name) <==> Representable(name)
  {
    hide Format, Encode, Upper, Filtered, First, AllLegal, LastDot, BaseOf, ExtOf;
    FormatEncode(name);
    NameParts(name);
    UpperJoin(BaseOf(name), ExtOf(name));
    PartKept(BaseOf(name), 8);
    PartKept(ExtOf(name), 3);
    NamePartLengths(name);
    assert Representable(name) && LastDot(name) == |name| ==> First(Filtered(ExtOf(name)), 3) == [];
  }

  lemma NamePartLengths(name: seq<Byte>)
    ensures LastDot(name) <= |name|
    ensures |name| == |BaseOf(name)| + |ExtOf(name)| + if LastDot(name) < |name| then 1 else 0
  {
    hide LastDot;
  }

  predicate LegalOrDot(c: Byte) {
    Legal(c) || c == DOT
  }

  ghost predicate Plain(s: seq<Byte>) {
    forall i :: 0 <= i < |s| ==> LegalOrDot(s[i])
  }

  lemma PlainParts(a: seq<Byte>, b: seq<Byte>)
    requires Plain(a) && Plain(b)
    ensures Plain(a + [DOT] + b)
  {
    hide LegalOrDot;
    assert LegalOrDot(DOT) by { LegalFacts(DOT); }
  }

  lemma LegalFacts(c: Byte)
    ensures LegalOrDot(DOT) && (LegalOrDot(c) ==> c != 0 && c != 0xE5 && ToUpper(c) == c)
    ensures Legal(c) ==> LegalOrDot(c)
  {
  }

  lemma PlainKept(s: seq<Byte>, n: nat)
    ensures Plain(First(Filtered(s), n))
  {
    hide Filtered, Legal, LegalOrDot;
    var r := First(Filtered(s), n);
    forall i | 0 <= i < |r| ensures LegalOrDot(r[i]) {
      LegalFacts(Filtered(s)[i]);
    }
  }

  lemma PlainShown(s: seq<Byte>)
    requires Plain(s)
    ensures CString(s) == s && Upper(s) == s
  {
    hide LegalOrDot;
    forall i | 0 <= i < |s| ensures s[i] != 0 && ToUpper(s[i]) == s[i] {
      LegalFacts(s[i]);
    }
    CStringAll(s);
  }

  lemma {:induction false} LegalNotZero(packed: seq<Byte>, name: seq<Byte>)
    requires packed == Encode(name)
    ensures CString(Format(packed)) == Format(packed) && Upper(Format(packed)) == Format(packed)
    ensures packed[0] != 0 && packed[0] != 0xE5
  {
    hide Filtered, LastDot, Trimmed, Format, CString, BaseOf, ExtOf, LegalOrDot, Upper, First;
    FormatEncode(name);
    var base, ext := First(Filtered(BaseOf(name)), 8), First(Filtered(ExtOf(name)), 3);
    PlainKept(BaseOf(name), 8);
    PlainKept(ExtOf(name), 3);
    PlainParts(base, ext);
    PlainShown(Format(packed));
    if base != [] {
      assert packed[0] == base[0];
      LegalFacts(base[0]);
    }
  }

  /** A representable name is found under its own upper-case form. */
  lemma {:induction false} KeyOfEncoded(name: seq<Byte>)
    requires Representable(name)
    ensures Key(Encode(name)) == Upper(name)
  {
    RoundTrip(name);
    LegalNotZero(Encode(name), name);
  }

  lemma FilteredNext(src: seq<Byte>, p: nat)
    requires p < |src|
    ensures var c := ToUpper(src[p]);
            Filtered(src[..p + 1]) == if Legal(c) then Filtered(src[..p]) + [c] else Filtered(src[..p])
  {
    assert src[..p + 1][..p] == src[..p];
  }

  /** `kept` written over `out` at `at`. */
  function Patched(out: seq<Byte>, at: nat, kept: seq<Byte>): (r: seq<Byte>)
    requires at + |kept| <= |out|
    ensures |r| == |out|
  {
    out[..at] + kept + out[at + |kept|..]
  }

  /** Writing one more byte of the part kept. */
  lemma PatchNext(out0: seq<Byte>, at: nat, kept: seq<Byte>, c: Byte)
    requires at + |kept| < |out0|
    ensures Patched(out0, at, kept)[at + |kept| := c] == Patched(out0, at, kept + [c])
  {
  }

  /** The copy loop of `fat32_to_short_name`: legal characters of `src`, from `at`, stopping before `limit`. */
  method CopyLegal(out0: seq<Byte>, at: nat, limit: nat, src: seq<Byte>) returns (out: seq<Byte>)
    requires at <= limit <= |out0|
    ensures out == Patched(out0, at, First(Filtered(src), limit - at))
  {
    hide Filtered, Legal, Patched;
    out := out0;
    var j, p := at, 0;
    FilteredNone(src);
    PatchedNone(out0, at);
    while p < |src| && j < limit
      invariant 0 <= p <= |src| && at <= j <= limit
      invariant j - at == |Filtered(src[..p])| && out == Patched(out0, at, Filtered(src[..p]))
    {
      var c := ToUpper(src[p]);
      FilteredNext(src, p);
      if Legal(c) {
        PatchNext(out0, at, Filtered(src[..p]), c);
        out := out[j := c];
        j := j + 1;
      }
      p := p + 1;
    }
    FilteredPrefix(src, p);
    if p == |src| {
      assert src[..p] == src;
    }
    assert First(Filtered(src), limit - at) == Filtered(src[..p]);
  }

  lemma PatchedNone(out: seq<Byte>, at: nat)
    requires at <= |out|
    ensures Patched(out, at, []) == out
  {
  }

  lemma FilteredNone(src: seq<Byte>)
    ensures Filtered(src[..0]) == []
  {
  }

  lemma {:induction false} FilteredPrefix(s: seq<Byte>, p: nat)
    requires p <= |s|
    ensures Filtered(s[..p]) <= Filtered(s)
  {
    if p < |s| {
      FilteredPrefix(s[..|s| - 1], p);
      assert s[..|s| - 1][..p] == s[..p];
    } else {
      assert s[..p] == s;
    }
  }

  /** The dot search of `fat32_to_short_name`; the length of the name when there is none. */
  method FindLastDot(name: seq<Byte>) returns (dot: nat)
    ensures dot == LastDot(name)
  {
    hide LastDot;
    dot := |name|;
    var p := 0;
    while p < |name|
      invariant 0 <= p <= |name|
      invariant dot == |name| || (dot < p && name[dot] == DOT)
      invariant forall i :: 0 <= i < p && name[i] == DOT ==> dot < |name| && i <= dot
    {
      if name[p] == DOT {
        dot := p;
      }
      p := p + 1;
    }
    ghost var d := LastDot(name);
    assert d < |name| ==> d <= dot;
  }

  /** `fat32_to_short_name`. */
  method ToShortName(name: seq<Byte>) returns (out: seq<Byte>)
    ensures out == Encode(name)
  {
    hide Filtered, LastDot, First, Padded, Patched;
    var dot := FindLastDot(name);
    ghost var base, ext := First(Filtered(BaseOf(name)), 8), First(Filtered(ExtOf(name)), 3);
    FirstOfNone(3);
    out := seq(11, _ => SPACE);
    PatchBlank(out, base, ext);
    out := CopyLegal(out, 0, 8, name[..dot]);
    if dot < |name| {
      out := CopyLegal(out, 8, 11, name[dot + 1..]);
    }
  }

  lemma FirstOfNone(n: nat)
    ensures First(Filtered([]), n) == []
  {
  }

  lemma PatchBlank(blank: seq<Byte>, base: seq<Byte>, ext: seq<Byte>)
    requires |base| <= 8 && |ext| <= 3 && blank == seq(11, _ => SPACE)
    ensures var mid := Patched(blank, 0, base);
            && Patched(mid, 8, ext) == Padded(base, 8) + Padded(ext, 3)
            && (ext == [] ==> mid == Padded(base, 8) + Padded(ext, 3))
  {
    var mid := Patched(blank, 0, base);
    assert mid[..8] == Padded(base, 8);
    assert ext + mid[8 + |ext|..] == Padded(ext, 3);
    assert Patched(mid, 8, ext) == mid[..8] + (ext + mid[8 + |ext|..]);
    assert mid == mid[..8] + mid[8..];
  }

  /** The trimming loop of `fat32_format_short_name`. */
  method TrimmedLength(s: seq<Byte>) returns (n: nat)
    ensures n <= |s| && s[..n] == Trimmed(s)
  {
    n := |s|;
    assert s[..n] == s;
    while n > 0 && s[n - 1] == SPACE
      invariant n <= |s| && Trimmed(s[..n]) == Trimmed(s)
    {
      assert s[..n][..n - 1] == s[..n - 1];
      n := n - 1;
    }
  }

  /** `fat32_format_short_name`: a zero-terminated string. */
  method FormatShortName(packed: seq<Byte>) returns (out: seq<Byte>)
    requires |packed| == 11
    ensures out == Format(packed) + [0]
  {
    hide Trimmed;
    var n := TrimmedLength(packed[..8]);
    out := packed[..8][..n];
    var e := TrimmedLength(packed[8..]);
    if e > 0 {
      out := out + [DOT] + packed[8..][..e];
    }
    out := out + [0];
  }

  lemma UpperEqual(a: seq<Byte>, b: seq<Byte>)
    ensures Upper(a) == Upper(b) <==> |a| == |b| && forall k :: 0 <= k < |a| ==> ToUpper(a[k]) == ToUpper(b[k])
  {
    forall k | 0 <= k < |a| && k < |b| ensures Upper(a)[k] == ToUpper(a[k]) && Upper(b)[k] == ToUpper(b[k]) {}
  }

  lemma ToUpperZero(c: Byte)
    ensures ToUpper(c) == 0 <==> c == 0
  {
  }

  /** `fat32_strcmp_83`: zero exactly when the name is, up to letter case, the one the entry shows. */
  method Compare(name: seq<Byte>, packed: seq<Byte>) returns (d: int)
    requires |packed| == 11 && 0 !in name
    ensures d == 0 <==> Upper(name) == Key(packed)
    ensures d == 0 <==> SameLetters(name, CString(Format(packed)))
  {
    UpperSame(name, CString(Format(packed)));
    hide Format, Upper, CString, ToUpper;
    var shown := FormatShortName(packed);
    ghost var key := CString(Format(packed));
    CStringTerminated(Format(packed));
    UpperEqual(name, key);
    var i := 0;
    while i < |name| && shown[i] != 0
      invariant 0 <= i <= |name| && i <= |key|
      invariant forall k :: 0 <= k < i ==> ToUpper(name[k]) == ToUpper(key[k])
    {
      if ToUpper(name[i]) != ToUpper(shown[i]) {
        return ToUpper(name[i]) - ToUpper(shown[i]);
      }
      i := i + 1;
    }
    var a: Byte := if i < |name| then name[i] else 0;
    ToUpperZero(a);
    ToUpperZero(shown[i]);
    d := ToUpper(a) - ToUpper(shown[i]);
  }

  lemma CStringTerminated(s: seq<Byte>)
    ensures |CString(s)| <= |s| && (s + [0])[|CString(s)|] == 0
    ensures forall i :: 0 <= i < |CString(s)| ==> (s + [0])[i] == CString(s)[i] != 0
  {
    assert forall i :: 0 <= i < |CString(s)| ==> CString(s)[i] in CString(s);
  }
}
