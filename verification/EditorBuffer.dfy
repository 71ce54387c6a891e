/**
 The text editor's buffer: an array of growable, zero-terminated lines with a cursor. The ghost field `texts`
 holds the text of every line; each successful edit is one insertion or deletion in the flat text.
 Whether an allocation succeeds is a parameter of the operations that allocate.
 */
module EditorBuffer {
  import opened Bytes
  import opened EditorText

  const INITIAL_CAPACITY: nat := 1024
  const MAX_LINE_LENGTH: nat := 4096

  class Line {
    /** The allocated bytes; the capacity is their number. */
    var data: seq<Byte>
    var length: nat

    ghost predicate Valid()
      reads this
    {
      length < |data| && data[length] == 0
    }

    ghost function Content(): Text
      requires Valid()
      reads this
    {
      data[..length]
    }

    /** `line_create`. */
    constructor (content: Text)
      ensures Valid() && Content() == content
      ensures |data| == if |content| >= INITIAL_CAPACITY then |content| + 1 else INITIAL_CAPACITY
    {
      var capacity := INITIAL_CAPACITY;
      if |content| >= capacity {
        capacity := |content| + 1;
      }
      data := content + seq(capacity - |content|, _ => 0);
      length := |content|;
    }

    /** A request for this much room can be met: it fits already, or within the line limit if memory allows. */
    predicate CanHold(needed: nat, memory: bool)
      reads this
    {
      |data| >= needed || (needed <= MAX_LINE_LENGTH && memory)
    }

    /** `line_ensure_capacity`: doubling, up to the line limit. */
    method EnsureCapacity(needed: nat, memory: bool) returns (ok: bool)
      requires Valid()
      modifies this`data
      ensures Valid() && Content() == old(Content())
      ensures ok == old(CanHold(needed, memory)) == (old(|data|) >= needed || (needed <= 4096 && memory))
      ensures ok ==> |data| >= needed
    {
      if |data| >= needed {
        return true;
      }
      var capacity := |data|;
      while capacity < needed
        invariant capacity >= |data|
        decreases needed - capacity
      {
        capacity := capacity * 2;
      }
      if capacity > MAX_LINE_LENGTH {
        capacity := MAX_LINE_LENGTH;
        if needed > MAX_LINE_LENGTH {
          return false;
        }
      }
      if !memory {
        return false;
      }
      data := data + seq(capacity - |data|, _ => 0);
      ok := true;
    }

    /** `line_insert_char`. */
    method InsertChar(pos: nat, c: Byte, memory: bool) returns (ok: bool)
      requires Valid()
      modifies this
      ensures Valid()
      ensures ok == (pos <= old(length) && old(CanHold(length + 2, memory)))
      ensures !ok ==> Content() == old(Content())
      ensures ok ==> Content() == InsertAt(old(Content()), pos, c)
    {
      if pos > length {
        return false;
      }
      ok := EnsureCapacity(length + 2, memory);
      if !ok {
        return;
      }
      ghost var content := Content();
      data := data[..pos] + [c] + data[pos..length + 1] + data[length + 2..];
      length := length + 1;
      assert data[..length] == content[..pos] + [c] + content[pos..];
    }

    /** `line_delete_char`. */
    method DeleteChar(pos: nat)
      requires Valid()
      modifies this
      ensures Valid()
      ensures Content() == if pos < old(length) then DeleteAt(old(Content()), pos) else old(Content())
    {
      if pos >= length {
        return;
      }
      ghost var content := Content();
      data := data[..pos] + data[pos + 1..length + 1] + data[length..];
      length := length - 1;
      assert data[..length] == content[..pos] + content[pos + 1..];
    }

    /** The appending half of a join: nothing is appended when the room cannot be had. */
    method Append(other: Text, memory: bool) returns (ok: bool)
      requires Valid()
      modifies this
      ensures Valid()
      ensures ok == (other == [] || old(CanHold(length + |other| + 1, memory)))
      ensures Content() == if ok then old(Content()) + other else old(Content())
    {
      if |other| == 0 {
        assert Content() + other == Content();
        return true;
      }
      ok := EnsureCapacity(length + |other| + 1, memory);
      if ok {
        data := data[..length] + other + [0] + data[length + |other| + 1..];
        length := length + |other|;
      }
    }

    /** The truncation that starts a newline. */
    method Truncate(pos: nat)
      requires Valid() && pos <= length
      modifies this
      ensures Valid() && Content() == old(Content())[..pos]
    {
      data := data[pos := 0];
      length := pos;
    }
  }

  /** A keystroke that edits, and a flat text with a cursor in it. */
  datatype Edit = Insert(c: Byte) | Erase | EraseForward | Break
  datatype Draft = Draft(text: Text, at: nat)

  ghost predicate InText(d: Draft) { d.at <= |d.text| }

  /** What a keystroke means on a flat text. */
  ghost function Edited(d: Draft, e: Edit): (r: Draft)
    requires InText(d)
    ensures InText(r)
  {
    match e
    case Insert(c) => Draft(InsertAt(d.text, d.at, c), d.at + 1)
    case Break => Draft(InsertAt(d.text, d.at, NEWLINE), d.at + 1)
    case Erase => if d.at == 0 then d else Draft(DeleteAt(d.text, d.at - 1), d.at - 1)
    case EraseForward => if d.at == |d.text| then d else Draft(DeleteAt(d.text, d.at), d.at)
  }

  ghost function EditedAll(d: Draft, es: seq<Edit>): (r: Draft)
    requires InText(d)
    ensures InText(r)
  {
    if es == [] then d else Edited(EditedAll(d, es[..|es| - 1]), es[|es| - 1])
  }

  ghost function Elems(lines: seq<Line>): set<Line> {
    set l | l in lines
  }

  function Inserted<T>(s: seq<T>, pos: nat, e: T): (r: seq<T>)
    requires pos <= |s|
    ensures |r| == |s| + 1
    ensures forall i :: 0 <= i <= |s| ==> r[i] == if i < pos then s[i] else if i == pos then e else s[i - 1]
  {
    s[..pos] + [e] + s[pos..]
  }

  function Removed<T>(s: seq<T>, pos: nat): (r: seq<T>)
    requires pos < |s|
    ensures |r| == |s| - 1
    ensures forall i :: 0 <= i < |s| - 1 ==> r[i] == if i < pos then s[i] else s[i + 1]
  {
    s[..pos] + s[pos + 1..]
  }

  ghost predicate Separate(lines: seq<Line>)
  {
    forall i, j :: 0 <= i < j < |lines| ==> lines[i] != lines[j]
  }

  ghost predicate Hold(lines: seq<Line>, texts: seq<Text>)
    reads lines
  {
    |lines| == |texts| && forall i :: 0 <= i < |lines| ==> lines[i].Valid() && lines[i].Content() == texts[i]
  }

  lemma InsertedLine(lines: seq<Line>, texts: seq<Text>, pos: nat, line: Line)
    requires Separate(lines) && Hold(lines, texts) && pos <= |lines| && line !in lines && line.Valid()
    ensures Separate(Inserted(lines, pos, line))
    ensures Hold(Inserted(lines, pos, line), Inserted(texts, pos, line.Content()))
    ensures forall l :: l in Inserted(lines, pos, line) ==> l in lines || l == line
  {
    hide Line.Valid, Line.Content;
  }

  lemma RemovedLine(lines: seq<Line>, texts: seq<Text>, pos: nat)
    requires Separate(lines) && Hold(lines, texts) && pos < |lines|
    ensures Separate(Removed(lines, pos)) && Hold(Removed(lines, pos), Removed(texts, pos))
    ensures forall l :: l in Removed(lines, pos) ==> l in lines
  {
    hide Line.Valid, Line.Content;
  }

  lemma JoinedIs(texts: seq<Text>, at: nat, t: Text)
    requires at + 1 < |texts|
    ensures Removed(texts[at := t], at + 1) == Joined(texts, at, t)
  {
    var s := texts[at := t];
    assert s[..at + 1] == texts[..at] + [t];
  }

  lemma SplitIs(texts: seq<Text>, y: nat, x: nat)
    requires y < |texts| && x <= |texts[y]|
    ensures Inserted(texts[y := texts[y][..x]], y + 1, texts[y][x..]) == Split(texts, y, x)
  {
    var s := texts[y := texts[y][..x]];
    assert s[..y + 1] == texts[..y] + [texts[y][..x]];
  }

  class Editor {
    var lines: seq<Line>
    var capacity: nat
    var x: nat
    var y: nat
    ghost var texts: seq<Text>

    /** The lines are separate, well-formed, and hold `texts`. */
    ghost predicate Lined()
      reads `lines, `capacity, `texts, lines
    {
      0 < |lines| == |texts| <= MAX_LINES && |lines| <= capacity && Separate(lines) && Hold(lines, texts)
    }

    ghost predicate Valid()
      reads `lines, `capacity, `texts, `y, lines
    {
      Lined() && y < |lines| == |texts|
    }

    lemma LineHolds(i: nat)
      requires Lined() && i < |lines|
      ensures i < |texts| == |lines| && lines[i].Valid() && lines[i].length == |texts[i]| && |lines| <= MAX_LINES
    {
    }

    /** The column of the cursor is inside its line. */
    ghost predicate InLine()
      reads `texts, `x, `y
    {
      y < |texts| && x <= |texts[y]|
    }

    /** The cursor's column; one past the end of the line means its end. */
    ghost function Column(): nat
      reads `texts, `x, `y
      requires y < |texts|
      ensures Column() <= |texts[y]|
    {
      if x <= |texts[y]| then x else |texts[y]|
    }

    /** The cursor as a place in the flat text. */
    ghost function At(): nat
      reads `texts, `x, `y
      requires y < |texts|
    {
      Offset(texts, y, Column())
    }

    /** `editor_init`: one empty line. */
    constructor ()
      ensures Valid() && InLine() && fresh(lines) && texts == [[]] && x == 0 && y == 0
    {
      var first := new Line([]);
      lines, capacity, x, y := [first], 256, 0, 0;
      texts := [[]];
    }

    /** `editor_insert_char`: one character enters the flat text at the cursor, or nothing happens. */
    method InsertChar(c: Byte, memory: bool) returns (ok: bool)
      requires Valid()
      modifies this, lines
      ensures Valid() && InLine() && lines == old(lines)
      ensures ok == old(lines[y].CanHold(lines[y].length + 2, memory))
      ensures !ok ==> texts == old(texts) && At() == old(At())
      ensures ok ==> old(At()) <= |old(Flat(texts))| && At() == old(At()) + 1
      ensures ok ==> Flat(texts) == InsertAt(old(Flat(texts)), old(At()), c)
    {
      hide Flat, Offset, InsertAt, Lined, Line.Valid, Line.CanHold;
      LineHolds(y);
      if x > lines[y].length {
        x := lines[y].length;
      }
      TypedChar(texts, y, x, c);
      ok := PutInLine(c, memory);
      if ok {
        x := x + 1;
      }
    }

    /** Put a character into the cursor's line, if there is room. */
    method PutInLine(c: Byte, memory: bool) returns (ok: bool)
      requires Valid() && InLine()
      modifies `texts, lines
      ensures Valid() && ok == old(lines[y].CanHold(lines[y].length + 2, memory))
      ensures texts == if ok then old(texts)[y := InsertAt(old(texts)[y], x, c)] else old(texts)
    {
      hide InsertAt;
      ok := lines[y].InsertChar(x, c, memory);
      if ok {
        texts := texts[y := InsertAt(texts[y], x, c)];
      }
    }

    /** `editor_remove_line`. */
    method RemoveLine(pos: nat)
      requires Lined() && pos < |lines| && |lines| > 1
      modifies `lines, `texts
      ensures Lined() && lines == Removed(old(lines), pos) && texts == Removed(old(texts), pos)
      ensures forall l :: l in lines ==> l in old(lines)
    {
      hide Removed<Line>, Removed<Text>, Separate, Hold;
      RemovedLine(lines, texts, pos);
      lines := Removed(lines, pos);
      texts := Removed(texts, pos);
    }

    /**
     Append line `at + 1` to line `at` and remove it. The line is removed even when its text could not be
     appended.
     */
    method Join(at: nat, memory: bool) returns (ok: bool)
      requires Lined() && at + 1 < |lines|
      modifies `lines, `texts, lines
      ensures Lined() && |lines| == |old(lines)| - 1 && (forall l :: l in lines ==> l in old(lines))
      ensures ok ==
                old(lines[at + 1].length == 0 || lines[at].CanHold(lines[at].length + lines[at + 1].length + 1, memory))
      ensures texts == Joined(old(texts), at, if ok then old(texts)[at] + old(texts)[at + 1] else old(texts)[at])
    {
      hide Lined, Removed<Line>, Removed<Text>, Joined, Line.CanHold;
      LineHolds(at);
      ok := AppendNext(at, memory);
      JoinedIs(old(texts), at, texts[at]);
      RemoveLine(at + 1);
    }

    /** Append the text of line `at + 1` to line `at` if there is room. */
    method AppendNext(at: nat, memory: bool) returns (ok: bool)
      requires Lined() && at + 1 < |lines|
      modifies `texts, lines
      ensures Lined() && |texts| == |lines|
      ensures ok ==
                old(lines[at + 1].length == 0 || lines[at].CanHold(lines[at].length + lines[at + 1].length + 1, memory))
      ensures texts == old(texts)[at := if ok then old(texts)[at] + old(texts)[at + 1] else old(texts)[at]]
    {
      var second := lines[at + 1];
      ok := lines[at].Append(second.data[..second.length], memory);
      if ok {
        texts := texts[at := texts[at] + texts[at + 1]];
      }
    }

    /** Take the character at the cursor out of its line, if there is one. */
    method EraseHere()
      requires Valid()
      modifies `texts, lines
      ensures Valid()
      ensures old(x >= |texts[y]|) ==> texts == old(texts)
      ensures old(x < |texts[y]|) ==> InLine() && At() == old(At()) < |old(Flat(texts))|
      ensures old(x < |texts[y]|) ==> Flat(texts) == DeleteAt(old(Flat(texts)), old(At()))
    {
      hide Flat, Offset, DeleteAt, Lined;
      if x < |texts[y]| {
        DeletedChar(texts, y, x);
      }
      TakeFromLine();
    }

    method TakeFromLine()
      requires Valid()
      modifies `texts, lines
      ensures Valid()
      ensures texts == old(if x < |texts[y]| then texts[y := DeleteAt(texts[y], x)] else texts)
    {
      hide DeleteAt;
      lines[y].DeleteChar(x);
      if x < |texts[y]| {
        texts := texts[y := DeleteAt(texts[y], x)];
      }
    }

    /** The room a backspace at the start of a line, or a forward delete at its end, must find. */
    predicate JoinFits(at: nat, memory: bool)
      reads `lines, lines
      requires at + 1 < |lines|
    {
      lines[at + 1].length == 0 || lines[at].CanHold(lines[at].length + lines[at + 1].length + 1, memory)
    }

    /** Take the newline after the cursor's line out of the text. */
    method JoinHere(memory: bool)
      requires Valid() && y < |texts| && x >= |texts[y]| && y + 1 < |lines|
      modifies `lines, `texts, lines
      ensures forall l :: l in lines ==> l in old(lines)
      ensures Valid() && old(At()) < |old(Flat(texts))|
      ensures old(InLine()) ==> InLine() && At() == old(At())
      ensures Flat(texts) == DeleteAt(old(Flat(texts)), old(At())) <==> old(JoinFits(y, memory))
    {
      hide Flat, Before, Joined, DeleteAt, Lined;
      LineHolds(y);
      LineHolds(y + 1);
      JoinExact(texts, y);
      var ok := Join(y, memory);
    }

    /**
     `editor_delete_char`: the character before the cursor leaves the flat text. At the start of a line that
     is the newline, and then the deletion is exact if and only if the joined line fits; otherwise the
     whole current line is lost with it. A column past the end of the line only moves back.
     */
    method Backspace(memory: bool)
      requires Valid()
      modifies this, lines
      ensures forall l :: l in lines ==> l in old(lines) || fresh(l)
      ensures Valid() && (old(InLine()) ==> InLine())
      ensures !old(InLine()) ==> texts == old(texts) && y == old(y) && x == old(x) - 1 && At() == old(At())
      ensures old(InLine()) && old(At()) == 0 ==> texts == old(texts) && At() == 0
      ensures old(InLine()) && old(At()) > 0 ==> At() == old(At()) - 1 < |old(Flat(texts))|
      ensures old(InLine()) && old(At()) > 0 ==>
                (Flat(texts) == DeleteAt(old(Flat(texts)), old(At()) - 1) <==>
                    old(x > 0 || (y > 0 && JoinFits(y - 1, memory))))
    {
      hide Flat, Before, Joined, DeleteAt, JoinFits, Lined;
      if InLine() {
        OffsetZero(texts, y, x);
      }
      if x > 0 {
        x := x - 1;
        EraseHere();
      } else if y > 0 {
        LineHolds(y - 1);
        OffsetNext(texts, y - 1);
        y, x := y - 1, lines[y - 1].length;
        JoinHere(memory);
      }
    }

    /**
     `editor_delete_char_forward`: the character under the cursor, or the newline at the end of the line. The cursor
     stays at its line and column.
     */
    method DeleteForward(memory: bool)
      requires Valid()
      modifies this, lines
      ensures forall l :: l in lines ==> l in old(lines) || fresh(l)
      ensures Valid() && x == old(x) && y == old(y) && (old(InLine()) ==> InLine() && At() == old(At()))
      ensures old(At()) <= |old(Flat(texts))|
      ensures old(At()) == |old(Flat(texts))| ==> texts == old(texts)
      ensures old(At()) < |old(Flat(texts))| ==>
                (Flat(texts) == DeleteAt(old(Flat(texts)), old(At()))
                 <==> old(x < |texts[y]| || (y + 1 < |lines| && JoinFits(y, memory))))
    {
      hide Flat, Before, Joined, DeleteAt, JoinFits, Lined;
      LineHolds(y);
      OffsetEnd(texts, y, Column());
      if x < lines[y].length {
        EraseHere();
      } else if y + 1 < |lines| {
        JoinHere(memory);
      }
    }

    /**
     `editor_newline`: a newline enters the flat text at the cursor when the new line can be stored. When
     the line table cannot take it, the text after the cursor on this line is lost; when the line itself
     cannot be allocated, nothing happens.
     */
    method Newline(memory: bool, tableMemory: bool) returns (ok: bool)
      requires Valid()
      modifies this, lines
      ensures forall l :: l in lines ==> l in old(lines) || fresh(l)
      ensures Valid() && InLine()
      ensures ok == (memory && |old(lines)| < 65536 && (|old(lines)| < old(capacity) || tableMemory))
      ensures old(At()) <= |old(Flat(texts))|
      ensures ok ==> Flat(texts) == InsertAt(old(Flat(texts)), old(At()), NEWLINE) && At() == old(At()) + 1
      ensures !ok && memory ==> texts == old(texts[y := texts[y][..Column()]]) && At() == old(At())
      ensures !memory ==> texts == old(texts) && At() == old(At())
    {
      hide Flat, Offset, InsertAt, Split, Lined;
      LineHolds(y);
      if x > lines[y].length {
        x := lines[y].length;
      }
      SplitLine(texts, y, x);
      if !memory {
        return false;
      }
      ghost var texts0 := texts;
      ok := BreakLine(tableMemory);
      if ok {
        y, x := y + 1, 0;
      } else {
        SameStart(texts0, texts, y, x);
      }
    }

    /** Move the text after the cursor to a line of its own, if the line table takes it; drop it otherwise. */
    method BreakLine(tableMemory: bool) returns (ok: bool)
      requires Valid() && InLine()
      modifies `lines, `texts, `capacity, lines
      ensures forall l :: l in lines ==> l in old(lines) || fresh(l)
      ensures Lined() && |lines| == |texts| >= |old(lines)|
      ensures ok == (|old(lines)| < 65536 && (|old(lines)| < old(capacity) || tableMemory))
      ensures ok ==> texts == Split(old(texts), y, x)
      ensures !ok ==> texts == old(texts)[y := old(texts)[y][..x]]
    {
      hide Lined, Inserted<Line>, Inserted<Text>, Split;
      LineHolds(y);
      var line := lines[y];
      var second := new Line(line.data[x..line.length]);
      ghost var texts0, lines0 := texts, lines;
      TextAfter(y, x, second);
      SplitIs(texts0, y, x);
      CutLine();
      ok := InsertLine(y + 1, second, tableMemory);
    }

    lemma TextAfter(i: nat, pos: nat, second: Line)
      requires Lined() && i < |lines| == |texts| && lines[i].Valid() && pos <= lines[i].length
      requires second.Valid() && second.Content() == lines[i].data[pos..lines[i].length]
      ensures pos <= |texts[i]| && second.Content() == texts[i][pos..]
    {
    }

    /** Drop the text after the cursor on its line. */
    method CutLine()
      requires Valid() && InLine()
      modifies `texts, lines
      ensures Valid() && texts == old(texts)[y := old(texts)[y][..x]]
    {
      lines[y].Truncate(x);
      texts := texts[y := texts[y][..x]];
    }

    /** The flat text with the cursor in it. */
    ghost function View(): (d: Draft)
      reads this, lines
      requires Valid() && InLine()
      ensures InText(d)
    {
      OffsetEnd(texts, y, x);
      Draft(Flat(texts), At())
    }

    /** There is room for the keystroke, given what the allocator will say. */
    predicate Possible(e: Edit, memory: bool, tableMemory: bool)
      reads this, lines
      requires Valid()
    {
      match e
      case Insert(_) => lines[y].CanHold(lines[y].length + 2, memory)
      case Break => memory && |lines| < MAX_LINES && (|lines| < capacity || tableMemory)
      case Erase => x > 0 || y == 0 || JoinFits(y - 1, memory)
      case EraseForward => x < lines[y].length || y + 1 == |lines| || JoinFits(y, memory)
    }

    /** With memory, and below the limits of 4096 bytes a line and 65536 lines, every keystroke is possible. */
    lemma BelowLimits(e: Edit)
      requires Valid() && |lines| < 65536 && lines[y].length + 2 <= 4096
      requires y > 0 ==> lines[y - 1].length + lines[y].length + 1 <= 4096
      requires y + 1 < |lines| ==> lines[y].length + lines[y + 1].length + 1 <= 4096
      ensures Possible(e, true, true)
    {
    }

    /** Any one keystroke refines its meaning on the flat text. */
    method Perform(e: Edit, memory: bool, tableMemory: bool)
      requires Valid() && InLine()
      modifies this, Elems(lines)
      ensures Valid() && InLine() && fresh(Elems(lines) - old(Elems(lines)))
      ensures old(Possible(e, memory, tableMemory)) ==> View() == Edited(old(View()), e)
    {
      hide Flat, Offset, InsertAt, DeleteAt;
      OffsetZero(texts, y, x);
      OffsetEnd(texts, y, x);
      match e
      case Insert(c) => var ok := InsertChar(c, memory);
      case Break => var ok := Newline(memory, tableMemory);
      case Erase => Backspace(memory);
      case EraseForward => DeleteForward(memory);
    }

    /**
     Any run of keystrokes, up to the first that finds no room: the lines and the cursor are those of the
     flat text edited in the same way.
     */
    method Run(es: seq<Edit>, memory: seq<bool>, tableMemory: seq<bool>) returns (done: nat)
      requires Valid() && InLine() && |memory| == |tableMemory| == |es|
      modifies this, Elems(lines)
      ensures Valid() && InLine() && done <= |es| && View() == EditedAll(old(View()), es[..done])
      ensures done < |es| ==> !Possible(es[done], memory[done], tableMemory[done])
    {
      hide Edited, Valid, Possible;
      done := 0;
      while done < |es| && Possible(es[done], memory[done], tableMemory[done])
        invariant Valid() && InLine() && fresh(Elems(lines) - old(Elems(lines)))
        invariant done <= |es| && View() == EditedAll(old(View()), es[..done])
      {
        Perform(es[done], memory[done], tableMemory[done]);
        assert es[..done + 1][..done] == es[..done];
        done := done + 1;
      }
    }

    /** `editor_insert_line`. */
    method InsertLine(pos: nat, line: Line, tableMemory: bool) returns (ok: bool)
      requires Lined() && pos <= |lines| && line !in lines && line.Valid()
      modifies `lines, `texts, `capacity
      ensures ok == (|old(lines)| < 65536 && (|old(lines)| < old(capacity) || tableMemory))
      ensures Lined()
      ensures !ok ==> lines == old(lines) && texts == old(texts)
      ensures ok ==> lines == Inserted(old(lines), pos, line) && texts == Inserted(old(texts), pos, line.Content())
      ensures forall l :: l in lines ==> l in old(lines) || l == line
    {
      hide Inserted<Line>, Inserted<Text>, Separate, Hold;
      if |lines| >= MAX_LINES {
        return false;
      }
      if |lines| >= capacity {
        if !tableMemory {
          return false;
        }
        capacity := capacity * 2;
      }
      InsertedLine(lines, texts, pos, line);
      lines := Inserted(lines, pos, line);
      texts := Inserted(texts, pos, line.Content());
      ok := true;
    }
  }

  /** Only the start of the text is at offset zero. */
  lemma OffsetZero(lines: seq<Text>, y: nat, x: nat)
    requires y < |lines| && x <= |lines[y]|
    ensures Offset(lines, y, x) == 0 <==> y == 0 && x == 0
  {
    if y > 0 {
      BeforeNext(lines, y - 1);
    }
  }

  /** Only the end of the text is at its length. */
  lemma OffsetEnd(lines: seq<Text>, y: nat, x: nat)
    requires y < |lines| && x <= |lines[y]|
    ensures Offset(lines, y, x) <= |Flat(lines)|
    ensures Offset(lines, y, x) == |Flat(lines)| <==> y == |lines| - 1 && x == |lines[y]|
  {
    FlatAt(lines, y);
    if y + 1 < |lines| {
      AfterNext(lines, y + 1);
    } else {
      assert lines[y + 1..] == [];
    }
  }

  lemma OffsetNext(lines: seq<Text>, y: nat)
    requires y + 1 < |lines|
    ensures Offset(lines, y + 1, 0) == Offset(lines, y, |lines[y]|) + 1
  {
    BeforeNext(lines, y);
  }

  lemma SameStart(lines: seq<Text>, lines': seq<Text>, y: nat, x: nat)
    requires y < |lines| && |lines'| == |lines| && lines'[..y] == lines[..y]
    ensures Offset(lines', y, x) == Offset(lines, y, x)
  {
  }

  /** Joining two lines deletes the newline between them exactly when no text of the second is dropped. */
  lemma JoinExact(lines: seq<Text>, y: nat)
    requires y + 1 < |lines|
    ensures var at := Offset(lines, y, |lines[y]|);
            && at < |Flat(lines)|
            && Flat(Joined(lines, y, lines[y] + lines[y + 1])) == DeleteAt(Flat(lines), at)
            && (lines[y + 1] != [] ==> Flat(Joined(lines, y, lines[y])) != DeleteAt(Flat(lines), at))
            && Offset(Joined(lines, y, lines[y] + lines[y + 1]), y, |lines[y]|) == at
            && Offset(Joined(lines, y, lines[y]), y, |lines[y]|) == at
  {
    hide Flat, Before, Joined;
    JoinedLines(lines, y);
    DroppedLine(lines, y);
    FlatJoined(lines, y, lines[y]);
    FlatJoined(lines, y, lines[y] + lines[y + 1]);
  }
}
