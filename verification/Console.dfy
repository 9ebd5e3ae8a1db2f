/** The text console of src/lib/console.cc: an 80 by 25 window on a terminal without a bottom. */
module Console {
  import opened Common
  import opened CStrings

  const COLS := 80
  const ROWS := 25

  const BLANK := MakeChar(32, MakeColor(0, 15))

  /** A background and a foreground colour out of sixteen. */
  function MakeColor(back: nat, fore: nat): nat {
    back * 16 + fore % 16
  }

  function MakeChar(c: Byte, color: nat): nat {
    color * 256 + c
  }

  /** Characters are signed: those from 128 on count as below the space. */
  predicate Printable(c: Byte) {
    32 <= c < 128
  }

  /** A terminal whose rows never run out: the cells written so far, by 80 * row + column, and the cursor. */
  datatype Terminal = Terminal(written: map<nat, nat>, x: nat, y: nat) {
    ghost predicate Valid() {
      x < COLS && forall p <- written :: p < COLS * (y + 1)
    }

    function Cell(p: nat): nat {
      CellIn(written, p)
    }

    /** The first of the last 25 rows. */
    function TopRow(): nat {
      if y < ROWS then 0 else y - (ROWS - 1)
    }
  }

  function CellIn(written: map<nat, nat>, p: nat): nat {
    if p in written then written[p] else BLANK
  }

  /** What a character means to the terminal, before lines that are full go on in the next. */
  function Typed(t: Terminal, c: Byte, color: nat): Terminal {
    if c == 8 then (if t.x > 0 then t.(x := t.x - 1) else t)
    else if c == 9 then t.(x := (t.x / 8 + 1) * 8)
    else if c == 13 then t.(x := 0)
    else if c == 10 then t.(x := 0, y := t.y + 1)
    else if Printable(c) then t.(written := t.written[COLS * t.y + t.x := MakeChar(c, color)], x := t.x + 1)
    else t
  }

  function Feed(t: Terminal, c: Byte, color: nat): Terminal {
    var u := Typed(t, c, color);
    if u.x >= COLS then u.(x := 0, y := u.y + 1) else u
  }

  function FeedAll(t: Terminal, s: seq<Byte>, color: nat): Terminal
    decreases |s|
  {
    if s == [] then t else FeedAll(Feed(t, s[0], color), s[1..], color)
  }

  lemma FeedValid(t: Terminal, c: Byte, color: nat)
    requires t.Valid()
    ensures Feed(t, c, color).Valid() && t.y <= Feed(t, c, color).y <= t.y + 1
    ensures Typed(t, c, color).x <= COLS
  {
  }

  /** Text without control characters fills the terminal row by row. */
  lemma {:induction false} TextFills(t: Terminal, s: seq<Byte>, color: nat, k: nat)
    requires t.Valid() && (forall c <- s :: Printable(c)) && k < |s|
    ensures FeedAll(t, s, color).Cell(COLS * t.y + t.x + k) == MakeChar(s[k], color)
    decreases |s|
  {
    var u := Feed(t, s[0], color);
    FeedValid(t, s[0], color);
    assert Printable(s[0]);
    assert COLS * u.y + u.x == COLS * t.y + t.x + 1;
    forall c | c in s[1..] ensures Printable(c) {
      assert c in s;
    }
    if k == 0 {
      TextKeeps(u, s[1..], color, COLS * t.y + t.x);
    } else {
      TextFills(u, s[1..], color, k - 1);
    }
  }

  /** It touches nothing before the cursor. */
  lemma {:induction false} TextKeeps(t: Terminal, s: seq<Byte>, color: nat, p: nat)
    requires t.Valid() && (forall c <- s :: Printable(c)) && p < COLS * t.y + t.x
    ensures FeedAll(t, s, color).Cell(p) == t.Cell(p)
    decreases |s|
  {
    if s != [] {
      assert Printable(s[0]);
      FeedValid(t, s[0], color);
      forall c | c in s[1..] ensures Printable(c) {
        assert c in s;
      }
      TextKeeps(Feed(t, s[0], color), s[1..], color, p);
    }
  }

  /** The cell of a character: its code, then the colours, four bits each. */
  lemma CellInBits(c: Byte, back: nat, fore: nat)
    ensures MakeChar(c, MakeColor(back, fore)) == c as int + 0x100 * (fore % 16) + 0x1000 * back
    ensures BLANK == 0x0F20
  {
  }

  lemma FeedFirst(t: Terminal, c: Byte, s: seq<Byte>, color: nat)
    ensures FeedAll(t, [c] + s, color) == FeedAll(Feed(t, c, color), s, color)
  {
    assert ([c] + s)[1..] == s;
  }

  /** Text behind a line feed starts the next row. */
  lemma TextAfterLineFeed(t: Terminal, s: seq<Byte>, color: nat, k: nat)
    requires t.Valid() && (forall c <- s :: Printable(c)) && k < |s|
    ensures FeedAll(t, [10] + s, color).Cell(80 * (t.y + 1) + k) == MakeChar(s[k], color)
  {
    FeedFirst(t, 10, s, color);
    FeedValid(t, 10, color);
    TextFills(Feed(t, 10, color), s, color, k);
  }

  /** Text behind a carriage return starts the same row again. */
  lemma TextAfterReturn(t: Terminal, s: seq<Byte>, color: nat, k: nat)
    requires t.Valid() && (forall c <- s :: Printable(c)) && k < |s|
    ensures FeedAll(t, [13] + s, color).Cell(80 * t.y + k) == MakeChar(s[k], color)
  {
    FeedFirst(t, 13, s, color);
    FeedValid(t, 13, color);
    TextFills(Feed(t, 13, color), s, color, k);
  }

  /** Text behind a tab starts at the next multiple of eight; the tenth one is the start of the next row. */
  lemma TextAfterTab(t: Terminal, s: seq<Byte>, color: nat, k: nat)
    requires t.Valid() && (forall c <- s :: Printable(c)) && k < |s|
    ensures FeedAll(t, [9] + s, color).Cell(80 * t.y + 8 * (t.x / 8 + 1) + k) == MakeChar(s[k], color)
  {
    FeedFirst(t, 9, s, color);
    FeedValid(t, 9, color);
    TextFills(Feed(t, 9, color), s, color, k);
  }

  /** Text behind a backspace overwrites the last column before the cursor, in the first column the cursor's. */
  lemma TextAfterBackspace(t: Terminal, s: seq<Byte>, color: nat, k: nat)
    requires t.Valid() && (forall c <- s :: Printable(c)) && k < |s|
    ensures FeedAll(t, [8] + s, color).Cell(80 * t.y + (if t.x > 0 then t.x - 1 else 0) + k) == MakeChar(s[k], color)
  {
    FeedFirst(t, 8, s, color);
    FeedValid(t, 8, color);
    TextFills(Feed(t, 8, color), s, color, k);
  }

  /** Control characters, and those from 128 on, write nothing; all but the four above do nothing. */
  lemma ControlsWriteNothing(t: Terminal, c: Byte, color: nat)
    requires t.Valid() && (c < 32 || c >= 128)
    ensures Feed(t, c, color).written == t.written
    ensures c !in [8, 9, 10, 13] ==> Feed(t, c, color) == t
  {
  }

  /** The buffer shows rows of the terminal, from this one on. */
  ghost predicate Shows(video: seq<nat>, written: map<nat, nat>, top: nat) {
    && |video| == COLS * ROWS
    && forall i {:trigger video[i]} :: 0 <= i < COLS * ROWS ==> video[i] == CellIn(written, COLS * top + i)
  }

  function Blanks(n: nat): (s: seq<nat>)
    ensures |s| == n && forall i :: 0 <= i < n ==> s[i] == BLANK
  {
    if n == 0 then [] else Blanks(n - 1) + [BLANK]
  }

  /** Moving up the rows and blanking the last keeps the picture right when nothing is written below. */
  lemma ScrollShows(video: seq<nat>, written: map<nat, nat>, top: nat)
    requires Shows(video, written, top) && forall p <- written :: p < COLS * (top + ROWS)
    ensures Shows(video[COLS..] + Blanks(COLS), written, top + 1)
  {
    var moved := video[COLS..] + Blanks(COLS);
    forall i | 0 <= i < COLS * ROWS ensures moved[i] == CellIn(written, COLS * (top + 1) + i) {
      assert i < COLS * (ROWS - 1) ==> moved[i] == video[i + COLS];
    }
  }

  /** Writing a cell on the screen and in the terminal. */
  lemma WriteShows(video: seq<nat>, written: map<nat, nat>, top: nat, i: nat, ch: nat)
    requires Shows(video, written, top) && i < COLS * ROWS
    ensures Shows(video[i := ch], written[COLS * top + i := ch], top)
  {
  }

  class Console {
    const video: array<nat>
    var x: nat
    var y: nat

    ghost var terminal: Terminal

    /** The screen shows the last 25 rows of the terminal, with the cursor where the terminal has it. */
    ghost predicate Valid()
      reads this, video
    {
      && terminal.Valid() && video.Length == COLS * ROWS
      && x == terminal.x && y < ROWS && terminal.TopRow() + y == terminal.y
      && Shows(video[..], terminal.written, terminal.TopRow())
    }

    /** Row by row: the screen shows the rows of the terminal up to the cursor's, at most 25, the last ones. */
    lemma Screen(row: nat, column: nat)
      requires Valid() && row < 25 && column < 80
      ensures video.Length == 2000
      ensures var top := if terminal.y < 25 then 0 else terminal.y - 24;
        && video[80 * row + column] == terminal.Cell(80 * (top + row) + column)
        && x == terminal.x < 80 && y == terminal.y - top < 25
    {
      assert video[..][80 * row + column] == video[80 * row + column];
    }

    /** console_clear. */
    method Clear()
      requires video.Length == COLS * ROWS
      modifies this`x, this`y, this`terminal, video
      ensures Valid() && terminal == Terminal(map[], 0, 0)
    {
      for i := 0 to COLS * ROWS
        invariant forall j :: 0 <= j < i ==> video[j] == BLANK
      {
        video[i] := BLANK;
      }
      x, y := 0, 0;
      terminal := Terminal(map[], 0, 0);
    }

    /** Moves all rows up by one and blanks the last. */
    method MoveUp()
      requires video.Length == COLS * ROWS
      modifies video
      ensures video[..] == old(video[..])[COLS..] + Blanks(COLS)
    {
      for i := 0 to COLS * (ROWS - 1)
        invariant forall j :: 0 <= j < i ==> video[j] == old(video[j + COLS])
        invariant forall j :: i <= j < COLS * ROWS ==> video[j] == old(video[j])
      {
        video[i] := video[i + COLS];
      }
      for i := COLS * (ROWS - 1) to COLS * ROWS
        invariant forall j :: 0 <= j < COLS * (ROWS - 1) ==> video[j] == old(video[j + COLS])
        invariant forall j :: COLS * (ROWS - 1) <= j < i ==> video[j] == BLANK
      {
        video[i] := BLANK;
      }
    }

    ghost predicate ShowsFrom(top: nat)
      reads this, video
    {
      video.Length == COLS * ROWS && x == terminal.x && top + y == terminal.y && Shows(video[..], terminal.written, top)
    }

    /** The switch of console_putc. */
    method Type(c: Byte, color: nat, ghost top: nat)
      requires terminal.Valid() && ShowsFrom(top) && y < ROWS
      modifies this`x, this`y, this`terminal, video
      ensures ShowsFrom(top) && terminal == Typed(old(terminal), c, color)
    {
      hide Shows;
      if c == 8 {
        if x > 0 {
          x := x - 1;
        }
      } else if c == 9 {
        x := (x + 8) / 8 * 8;
      } else if c == 13 {
        x := 0;
      } else if c == 10 {
        x := 0;
        y := y + 1;
      } else if Printable(c) {
        WriteShows(video[..], terminal.written, top, y * COLS + x, MakeChar(c, color));
        ghost var before := video[..];
        video[y * COLS + x] := MakeChar(c, color);
        assert video[..] == before[y * COLS + x := MakeChar(c, color)];
        x := x + 1;
      }
      terminal := Typed(terminal, c, color);
    }

    /** scroll. */
    method Scroll(ghost top: nat)
      requires ShowsFrom(top) && y <= ROWS && forall p <- terminal.written :: p < COLS * (top + ROWS)
      modifies this`y, video
      ensures y < ROWS && ShowsFrom(if old(y) == ROWS then top + 1 else top)
      ensures y == if old(y) == ROWS then ROWS - 1 else old(y)
    {
      hide Shows;
      if y >= ROWS {
        ScrollShows(video[..], terminal.written, top);
        MoveUp();
        y := ROWS - 1;
      }
    }

    /** console_putc: the screen goes on showing the last 25 rows. */
    method PutChar(c: Byte, back: nat, fore: nat)
      requires Valid()
      modifies this, video
      ensures Valid() && terminal == Feed(old(terminal), c, MakeColor(back, fore))
    {
      hide Shows, Typed;
      ghost var t, top := terminal, terminal.TopRow();
      TypedBelow(t, c, MakeColor(back, fore));
      FeedValid(t, c, MakeColor(back, fore));
      Type(c, MakeColor(back, fore), top);
      if x >= COLS {
        x := 0;
        y := y + 1;
        terminal := terminal.(x := 0, y := terminal.y + 1);
      }
      Scroll(top);
    }

    /** console_write. */
    method Write(str: seq<Byte>, back: nat, fore: nat)
      requires Valid() && 0 in str
      modifies this, video
      ensures Valid() && terminal == FeedAll(old(terminal), CString(str), MakeColor(back, fore))
    {
      hide CString, Feed;
      ghost var n := TerminatorOf(str);
      ghost var color, text := MakeColor(back, fore), str[..n];
      var i := 0;
      while str[i] != 0
        invariant 0 <= i <= n && Valid()
        invariant FeedAll(old(terminal), text, color) == FeedAll(terminal, text[i..], color)
        decreases n - i
      {
        assert text[i..][0] == str[i] && text[i..][1..] == text[i + 1..];
        PutChar(str[i], back, fore);
        i := i + 1;
      }
      assert text[i..] == [];
    }
  }

  /** A character writes no lower than the row of the cursor. */
  lemma TypedBelow(t: Terminal, c: Byte, color: nat)
    requires t.Valid()
    ensures forall p <- Typed(t, c, color).written :: p < COLS * (t.y + 1)
    ensures Typed(t, c, color).x <= COLS && t.y <= Typed(t, c, color).y <= t.y + 1
    ensures Typed(t, c, color).x == COLS ==> Typed(t, c, color).y == t.y
  {
  }
}
