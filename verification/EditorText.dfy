/**
 The text editor's lines as one flat text, and the file format: what saving writes and what opening reads.
 */
module EditorText {

  import opened Bytes

  const NEWLINE: Byte := 10
  const RETURN: Byte := 13

  type Text = seq<Byte>

  /** Each line followed by a newline. */
  function Before(lines: seq<Text>): (t: Text) {
    if lines == [] then [] else Before(lines[..|lines| - 1]) + lines[|lines| - 1] + [NEWLINE]
  }

  /** Each line preceded by a newline. */
  function After(lines: seq<Text>): (t: Text) {
    if lines == [] then [] else [NEWLINE] + lines[0] + After(lines[1..])
  }

  /** The lines joined by newlines. */
  function Flat(lines: seq<Text>): (t: Text) {
    if lines == [] then [] else lines[0] + After(lines[1..])
  }

  /** The place of column `x` of line `y` in the flat text. */
  function Offset(lines: seq<Text>, y: nat, x: nat): nat
    requires y <= |lines|
  {
    |Before(lines[..y])| + x
  }

  function InsertAt(t: Text, i: nat, c: Byte): (r: Text)
    requires i <= |t|
    ensures |r| == |t| + 1 && r[..i] == t[..i] && r[i] == c && r[i + 1..] == t[i..]
  {
    t[..i] + [c] + t[i..]
  }

  function DeleteAt(t: Text, i: nat): (r: Text)
    requires i < |t|
    ensures |r| == |t| - 1 && r[..i] == t[..i] && r[i..] == t[i + 1..]
  {
    t[..i] + t[i + 1..]
  }

  /** The flat text around line `y`. */
  lemma {:induction false} FlatAt(lines: seq<Text>, y: nat)
    requires y < |lines|
    ensures Flat(lines) == Before(lines[..y]) + lines[y] + After(lines[y + 1..])
  {
    if y == 0 {
      assert lines[..0] == [];
    } else {
      FlatAt(lines, y - 1);
      assert lines[..y][..y - 1] == lines[..y - 1];
      assert lines[y..][1..] == lines[y + 1..];
      assert Before(lines[..y]) == Before(lines[..y - 1]) + lines[y - 1] + [NEWLINE];
      assert After(lines[y..]) == [NEWLINE] + lines[y] + After(lines[y + 1..]);
    }
  }

  /** Replacing line `y` replaces its stretch of the flat text. */
  lemma FlatReplace(lines: seq<Text>, y: nat, t: Text)
    requires y < |lines|
    ensures Flat(lines[y := t]) == Before(lines[..y]) + t + After(lines[y + 1..])
  {
    var lines' := lines[y := t];
    FlatAt(lines', y);
    assert lines'[..y] == lines[..y] && lines'[y + 1..] == lines[y + 1..];
  }

  lemma BeforeNext(lines: seq<Text>, y: nat)
    requires y < |lines|
    ensures Before(lines[..y + 1]) == Before(lines[..y]) + lines[y] + [NEWLINE]
  {
    assert lines[..y + 1][..y] == lines[..y];
  }

  lemma AfterNext(lines: seq<Text>, y: nat)
    requires y < |lines|
    ensures After(lines[y..]) == [NEWLINE] + lines[y] + After(lines[y + 1..])
  {
    assert lines[y..][1..] == lines[y + 1..];
  }

  /** Typing a character into a line is inserting it at the flat offset. */
  lemma TypedChar(lines: seq<Text>, y: nat, x: nat, c: Byte)
    requires y < |lines| && x <= |lines[y]|
    ensures Offset(lines, y, x) <= |Flat(lines)|
    ensures Flat(lines[y := InsertAt(lines[y], x, c)]) == InsertAt(Flat(lines), Offset(lines, y, x), c)
    ensures Offset(lines[y := InsertAt(lines[y], x, c)], y, x + 1) == Offset(lines, y, x) + 1
  {
    var t := InsertAt(lines[y], x, c);
    FlatAt(lines, y);
    FlatReplace(lines, y, t);
    assert lines[y := t][..y] == lines[..y];
    InsertInMiddle(Before(lines[..y]), lines[y], After(lines[y + 1..]), x, c);
  }

  lemma InsertInMiddle(a: Text, b: Text, c: Text, x: nat, ch: Byte)
    requires x <= |b|
    ensures InsertAt(a + b + c, |a| + x, ch) == a + InsertAt(b, x, ch) + c
  {
    var t, i := a + b + c, |a| + x;
    assert t[..i] == a + b[..x];
    assert t[i..] == b[x..] + c;
  }

  lemma DeleteInMiddle(a: Text, b: Text, c: Text, x: nat)
    requires x < |b|
    ensures DeleteAt(a + b + c, |a| + x) == a + DeleteAt(b, x) + c
  {
    var t, i := a + b + c, |a| + x;
    assert t[..i] == a + b[..x];
    assert t[i + 1..] == b[x + 1..] + c;
  }

  /** Deleting a character of a line is deleting it from the flat text. */
  lemma DeletedChar(lines: seq<Text>, y: nat, x: nat)
    requires y < |lines| && x < |lines[y]|
    ensures Offset(lines, y, x) < |Flat(lines)|
    ensures Flat(lines[y := DeleteAt(lines[y], x)]) == DeleteAt(Flat(lines), Offset(lines, y, x))
    ensures Offset(lines[y := DeleteAt(lines[y], x)], y, x) == Offset(lines, y, x)
  {
    var t := DeleteAt(lines[y], x);
    FlatAt(lines, y);
    FlatReplace(lines, y, t);
    assert lines[y := t][..y] == lines[..y];
    DeleteInMiddle(Before(lines[..y]), lines[y], After(lines[y + 1..]), x);
  }

  /** Lines `y` and `y + 1` replaced by the one line `t`. */
  function Joined(lines: seq<Text>, y: nat, t: Text): (r: seq<Text>)
    requires y + 1 < |lines|
    ensures |r| == |lines| - 1 && r[y] == t
  {
    lines[..y] + [t] + lines[y + 2..]
  }

  lemma FlatJoined(lines: seq<Text>, y: nat, t: Text)
    requires y + 1 < |lines|
    ensures Flat(Joined(lines, y, t)) == Before(lines[..y]) + t + After(lines[y + 2..])
    ensures Offset(Joined(lines, y, t), y, |lines[y]|) == Offset(lines, y, |lines[y]|)
    ensures Offset(lines, y + 1, 0) == Offset(lines, y, |lines[y]|) + 1
    ensures Flat(lines) == Before(lines[..y]) + lines[y] + [NEWLINE] + lines[y + 1] + After(lines[y + 2..])
  {
    var lines' := Joined(lines, y, t);
    FlatAt(lines', y);
    assert lines'[..y] == lines[..y] && lines'[y + 1..] == lines[y + 2..];
    FlatAt(lines, y + 1);
    BeforeNext(lines, y);
  }

  /** Joining two lines in full is deleting the newline between them. */
  lemma JoinedLines(lines: seq<Text>, y: nat)
    requires y + 1 < |lines|
    ensures Offset(lines, y, |lines[y]|) < |Flat(lines)|
    ensures Flat(Joined(lines, y, lines[y] + lines[y + 1])) == DeleteAt(Flat(lines), Offset(lines, y, |lines[y]|))
  {
    hide Before, After, Flat, DeleteAt, Joined;
    FlatJoined(lines, y, lines[y] + lines[y + 1]);
    RemoveBetween(Before(lines[..y]), lines[y], lines[y + 1], After(lines[y + 2..]));
  }

  lemma RemoveBetween(a: Text, b: Text, c: Text, d: Text)
    ensures DeleteAt(a + b + [NEWLINE] + c + d, |a| + |b|) == a + (b + c) + d
  {
    var t, i := a + b + [NEWLINE] + c + d, |a| + |b|;
    assert t[..i] == a + b;
    assert t[i + 1..] == c + d;
  }

  /** Dropping the second line of a join loses its text: the flat text gets shorter by more than the newline. */
  lemma DroppedLine(lines: seq<Text>, y: nat)
    requires y + 1 < |lines|
    ensures |Flat(Joined(lines, y, lines[y]))| == |Flat(lines)| - 1 - |lines[y + 1]|
  {
    FlatJoined(lines, y, lines[y]);
  }

  /** Line `y` split in two at column `x`. */
  function Split(lines: seq<Text>, y: nat, x: nat): (r: seq<Text>)
    requires y < |lines| && x <= |lines[y]|
    ensures |r| == |lines| + 1
  {
    lines[..y] + [lines[y][..x], lines[y][x..]] + lines[y + 1..]
  }

  /** Splitting a line is inserting a newline at the flat offset. */
  lemma SplitLine(lines: seq<Text>, y: nat, x: nat)
    requires y < |lines| && x <= |lines[y]|
    ensures Offset(lines, y, x) <= |Flat(lines)|
    ensures Flat(Split(lines, y, x)) == InsertAt(Flat(lines), Offset(lines, y, x), NEWLINE)
    ensures Offset(Split(lines, y, x), y + 1, 0) == Offset(lines, y, x) + 1
  {
    hide Flat, Before, After, InsertAt;
    var lines' := Split(lines, y, x);
    FlatAt(lines, y);
    FlatAt(lines', y + 1);
    BeforeNext(lines', y);
    assert lines'[..y] == lines[..y] && lines'[y + 2..] == lines[y + 1..];
    SplitInMiddle(Before(lines[..y]), lines[y], After(lines[y + 1..]), x);
  }

  lemma SplitInMiddle(a: Text, b: Text, c: Text, x: nat)
    requires x <= |b|
    ensures a + b[..x] + [NEWLINE] + b[x..] + c == InsertAt(a + b + c, |a| + x, NEWLINE)
  {
    InsertInMiddle(a, b, c, x, NEWLINE);
  }

  // ---------- the file ----------

  /** What the write loop of `editor_save_as` produces: no newline after a last line that is empty. */
  function Saved(lines: seq<Text>): Text
    requires lines != []
  {
    Flat(lines) + if lines[|lines| - 1] == [] then [] else [NEWLINE]
  }

  /** `editor_save_as`: line by line, each but an empty last one followed by a newline. */
  method Save(lines: seq<Text>) returns (out: Text)
    requires lines != []
    ensures out == Saved(lines)
  {
    out := [];
    var i := 0;
    assert lines[..0] == [];
    while i < |lines| - 1
      invariant 0 <= i <= |lines| - 1 && out == Before(lines[..i])
    {
      BeforeNext(lines, i);
      if |lines[i]| > 0 {
        out := out + lines[i];
      }
      out := out + [NEWLINE];
      i := i + 1;
    }
    FlatAt(lines, i);
    assert lines[i + 1..] == [];
    if |lines[i]| > 0 {
      out := out + lines[i] + [NEWLINE];
    }
  }

  /** The position of the first newline, or the length. */
  function FirstNewline(b: Text): (i: nat)
    ensures i <= |b| && (forall j :: 0 <= j < i ==> b[j] != NEWLINE) && (i < |b| ==> b[i] == NEWLINE)
  {
    if b == [] || b[0] == NEWLINE then 0 else FirstNewline(b[1..]) + 1
  }

  /** A line without one trailing carriage return. */
  function Stripped(t: Text): Text {
    if t != [] && t[|t| - 1] == RETURN then t[..|t| - 1] else t
  }

  /** The lines of a file: pieces between newlines; nothing follows a final newline. */
  function Parsed(b: Text): (lines: seq<Text>)
    decreases |b|
  {
    if b == [] then [] else
      var i := FirstNewline(b);
      [Stripped(b[..i])] + if i < |b| then Parsed(b[i + 1..]) else []
  }

  const MAX_LINES: nat := 65536

  function Kept(lines: seq<Text>): seq<Text> {
    if |lines| <= MAX_LINES then lines else lines[..MAX_LINES]
  }

  /** The buffer after opening a file: at least one line, at most 65536, read up to the first zero byte. */
  function Opened(b: Text): seq<Text> {
    var lines := Kept(Parsed(CString(b)));
    if lines == [] then [[]] else lines
  }

  /** The parse loop of `editor_open` over a buffer that a zero byte ends. */
  method Open(b: Text) returns (lines: seq<Text>)
    ensures lines == Opened(b)
  {
    hide Parsed, CString, Kept, Stripped;
    var text := b + [0];
    ghost var body, all: seq<Text> := CString(b), [];
    lines := [];
    var start, ptr := 0, 0;
    KeptAppend([], []);
    assert body[0..] == body;
    while text[ptr] != 0
      invariant 0 <= start <= ptr <= |body|
      invariant all + Parsed(body[start..]) == Parsed(body) && lines == Kept(all)
      invariant forall j :: start <= j < ptr ==> body[j] != NEWLINE
      decreases |body| - ptr
    {
      if text[ptr] == NEWLINE {
        TextIsBody(b, start, ptr);
        ParsedNext(body, start, ptr, all);
        lines := AppendLine(lines, text[start..ptr]);
        KeptAppend(all, Stripped(body[start..ptr]));
        all := all + [Stripped(body[start..ptr])];
        start := ptr + 1;
      }
      ptr := ptr + 1;
    }
    ParsedPiece(body, start, ptr);
    if start < ptr {
      TextIsBody(b, start, ptr);
      lines := AppendLine(lines, text[start..ptr]);
      KeptAppend(all, Stripped(body[start..ptr]));
      all := all + [Stripped(body[start..ptr])];
    }
    assert all == Parsed(body);
    if lines == [] {
      lines := [[]];
    }
  }

  lemma TextIsBody(b: Text, i: nat, j: nat)
    requires i <= j <= |CString(b)|
    ensures (b + [0])[i..j] == CString(b)[i..j]
  {
  }

  lemma ParsedNext(body: Text, start: nat, ptr: nat, all: seq<Text>)
    requires start <= ptr < |body| && body[ptr] == NEWLINE && (forall j :: start <= j < ptr ==> body[j] != NEWLINE)
    requires all + Parsed(body[start..]) == Parsed(body)
    ensures all + [Stripped(body[start..ptr])] + Parsed(body[ptr + 1..]) == Parsed(body)
  {
    hide Parsed, Stripped;
    ParsedPiece(body, start, ptr);
  }

  lemma KeptAppend(all: seq<Text>, t: Text)
    ensures Kept([]) == []
    ensures Kept(all + [t]) == if |Kept(all)| < 65536 then Kept(all) + [t] else Kept(all)
  {
  }

  /** `line_create` and `editor_insert_line` at the end: lines beyond the limit are dropped. */
  method AppendLine(lines: seq<Text>, piece: Text) returns (lines': seq<Text>)
    ensures lines' == if |lines| < 65536 then lines + [Stripped(piece)] else lines
  {
    var len := |piece|;
    if len > 0 && piece[len - 1] == RETURN {
      len := len - 1;
    }
    assert piece[..|piece|] == piece;
    lines' := if |lines| < MAX_LINES then lines + [piece[..len]] else lines;
  }

  /** One piece of the parse: up to a newline at `ptr`, or to the end of the text. */
  lemma {:induction false} ParsedPiece(b: Text, start: nat, ptr: nat)
    requires start <= ptr <= |b| && (forall j :: start <= j < ptr ==> b[j] != NEWLINE)
    ensures ptr < |b| && b[ptr] == NEWLINE ==> Parsed(b[start..]) == [Stripped(b[start..ptr])] + Parsed(b[ptr + 1..])
    ensures ptr == |b| && start < ptr ==> Parsed(b[start..]) == [Stripped(b[start..ptr])]
    ensures ptr == |b| && start == ptr ==> Parsed(b[start..]) == []
  {
    hide Stripped, Parsed;
    var t, n := b[start..], ptr - start;
    ParsedFirst(t);
    assert t[..n] == b[start..ptr] && forall j :: 0 <= j < n ==> t[j] == b[start + j];
    if ptr < |b| && b[ptr] == NEWLINE {
      FirstNewlineAt(t, n);
      assert t[n + 1..] == b[ptr + 1..];
    } else if ptr == |b| {
      FirstNewlineAt(t, n);
    }
  }

  lemma ParsedFirst(b: Text)
    ensures b == [] ==> Parsed(b) == []
    ensures b != [] ==>
              var i := FirstNewline(b);
              Parsed(b) == [Stripped(b[..i])] + if i < |b| then Parsed(b[i + 1..]) else []
  {
  }

  lemma FirstNewlineAt(t: Text, n: nat)
    requires n <= |t| && (forall j :: 0 <= j < n ==> t[j] != NEWLINE) && (n < |t| ==> t[n] == NEWLINE)
    ensures FirstNewline(t) == n
  {
    hide FirstNewline;
    var i := FirstNewline(t);
    assert i <= n;
  }

  /** A line that survives the file format: no newline, no zero byte, no carriage return at its end. */
  predicate Clean(t: Text) {
    && (forall i :: 0 <= i < |t| ==> t[i] != NEWLINE && t[i] != 0)
    && (t != [] ==> t[|t| - 1] != RETURN)
  }

  predicate AllClean(lines: seq<Text>) {
    forall i :: 0 <= i < |lines| ==> Clean(lines[i])
  }

  lemma {:induction false} ParseLine(t: Text, rest: Text)
    requires Clean(t)
    ensures Parsed(t + [NEWLINE] + rest) == [t] + Parsed(rest)
  {
    var b := t + [NEWLINE] + rest;
    assert b[0..] == b;
    ParsedPiece(b, 0, |t|);
    assert b[0..|t|] == t && b[|t| + 1..] == rest;
  }

  /** Lines each followed by a newline parse back to themselves. */
  lemma {:induction false} ParseTerminated(lines: seq<Text>)
    requires AllClean(lines)
    ensures Parsed(Before(lines)) == lines
  {
    hide Parsed, Before, Clean;
    if lines == [] {
      ParsedNone();
    } else {
      BeforeFront(lines);
      ParseTerminated(lines[1..]);
      ParseLine(lines[0], Before(lines[1..]));
    }
  }

  /** One carriage return at the end of a line goes, and nothing else does. */
  lemma StrippedReturn(t: Text)
    ensures Stripped(t + [13]) == t
    ensures t == [] || t[|t| - 1] != 13 ==> Stripped(t) == t
  {
  }

  /** Lines that end in carriage return and newline parse like lines that end in newline. */
  lemma ReturnNewline(t: Text, rest: Text)
    requires forall i :: 0 <= i < |t| ==> t[i] != 10
    ensures Parsed(t + [13, 10] + rest) == [t] + Parsed(rest)
  {
    hide Parsed, Stripped;
    var b, n := t + [13, 10] + rest, |t| + 1;
    assert b[0..] == b;
    ParsedPiece(b, 0, n);
    assert b[0..n] == t + [13] && b[n + 1..] == rest;
    StrippedReturn(t);
  }

  lemma ParsedNone()
    ensures Before([]) == [] && Parsed([]) == []
  {
  }

  lemma {:induction false} NoZeros(lines: seq<Text>)
    requires AllClean(lines)
    ensures forall i :: 0 <= i < |Before(lines)| ==> Before(lines)[i] != 0
  {
    if lines != [] {
      var init, last := lines[..|lines| - 1], lines[|lines| - 1];
      NoZeros(init);
      assert Clean(last);
    }
  }

  lemma {:induction false} BeforeFront(lines: seq<Text>)
    requires lines != []
    ensures Before(lines) == lines[0] + [NEWLINE] + Before(lines[1..])
  {
    if |lines| == 1 {
      assert lines[..0] == [] && lines[1..] == [];
    } else {
      var init, rest, last := lines[..|lines| - 1], lines[1..], lines[|lines| - 1];
      BeforeFront(init);
      assert init[1..] == rest[..|rest| - 1] && rest[|rest| - 1] == last;
      Regroup(lines[0], Before(init[1..]), last);
    }
  }

  lemma Regroup(a: Text, b: Text, c: Text)
    ensures a + [NEWLINE] + b + c + [NEWLINE] == a + [NEWLINE] + (b + c + [NEWLINE])
  {
  }

  /** What saving writes, as terminated lines. */
  lemma SavedIs(lines: seq<Text>)
    requires lines != []
    ensures Saved(lines) == Before(if lines[|lines| - 1] == [] then lines[..|lines| - 1] else lines)
  {
    hide Flat, Before, After;
    var n := |lines| - 1;
    FlatAt(lines, n);
    NothingAfter(lines);
    BeforeNext(lines, n);
    assert lines[..n + 1] == lines;
  }

  lemma NothingAfter(lines: seq<Text>)
    requires lines != []
    ensures After(lines[|lines|..]) == []
  {
  }

  /**
   Opening what was saved gives the same lines, except that an empty last line is lost unless it is the
   only line.
   */
  lemma SaveThenOpen(lines: seq<Text>)
    requires 0 < |lines| <= 65536 && AllClean(lines)
    ensures Opened(Saved(lines)) == if lines[|lines| - 1] != [] || |lines| == 1 then lines else lines[..|lines| - 1]
  {
    hide Parsed, CString, Before, Saved;
    var n := |lines| - 1;
    var kept := if lines[n] == [] then lines[..n] else lines;
    SavedIs(lines);
    ParseTerminated(kept);
    NoZeros(kept);
    CStringAll(Before(kept));
    if |lines| == 1 && lines[0] == [] {
      assert lines == [[]];
    }
  }
}
