/** The scrolling text terminal (src/kernel/gui.cpp): a 36 by 96 window on an unbounded page. */
module Terminal {
  type Line = l: seq<char> | |l| == 96 witness seq(96, _ => ' ')

  function Blank(): (l: Line)
    ensures forall c :: 0 <= c < 96 ==> l[c] == ' '
  {
    seq(96, _ => ' ')
  }

  /** A page that is never cut at the top. The cursor is on its last line; column 96 means
      that the line is full and the next character starts another. */
  datatype Page = Page(lines: seq<Line>, col: nat) {
    predicate Ok() { lines != [] && col <= 96 }

    function Last(): nat
      requires Ok()
    {
      |lines| - 1
    }

    /** What is seen at line i, below the last line too. */
    function Cell(i: nat, c: nat): char
      requires c < 96
    {
      if i < |lines| then lines[i][c] else ' '
    }

    function WithCell(c: nat, x: char): Page
      requires Ok() && c < 96
    {
      this.(lines := lines[Last() := lines[Last()][c := x]])
    }
  }

  predicate Printable(c: char) { ' ' <= c < 127 as char }

  function FreshPage(): Page { Page([Blank()], 0) }

  function Feed(p: Page): Page { Page(p.lines + [Blank()], 0) }

  function Type(p: Page, c: char): (q: Page)
    requires p.Ok()
    ensures q.Ok() && q.col == if p.col == 96 then 1 else p.col + 1
  {
    var p1 := if p.col == 96 then Feed(p) else p;
    p1.WithCell(p1.col, c).(col := p1.col + 1)
  }

  /** k typed blanks. */
  function Spaces(p: Page, k: nat): (q: Page)
    requires p.Ok()
    ensures q.Ok()
  {
    if k == 0 then p else Type(Spaces(p, k - 1), ' ')
  }

  function Erase(p: Page): Page
    requires p.Ok()
  {
    if p.col == 0 then p else p.WithCell(p.col - 1, ' ').(col := p.col - 1)
  }

  /** One character: a tab is as many blanks as are missing to the next multiple of 8. */
  function Put(p: Page, c: char): (q: Page)
    requires p.Ok()
    ensures q.Ok()
  {
    if c == '\n' then Feed(p)
    else if c == '\r' then p.(col := 0)
    else if c == '\U{0008}' then Erase(p)
    else if c == '\t' then Spaces(p, 8 - p.col % 8)
    else if Printable(c) then Type(p, c)
    else p
  }

  /** The first n characters of a text. */
  function PutAll(p: Page, s: string, n: nat): (q: Page)
    requires p.Ok() && n <= |s|
    ensures q.Ok()
  {
    if n == 0 then p else Put(PutAll(p, s, n - 1), s[n - 1])
  }

  /** A new line shows as the blank that was there before. */
  lemma FeedShowsSame(p: Page)
    requires p.Ok()
    ensures forall i: nat, c: nat {:trigger Feed(p).Cell(i, c)} :: c < 96 ==> Feed(p).Cell(i, c) == p.Cell(i, c)
  {}

  lemma {:induction false} SpacesCol(p: Page, k: nat)
    requires p.Ok() && k <= 8 - p.col % 8
    ensures Spaces(p, k).col == if k == 0 then p.col else if p.col == 96 then k else p.col + k
  {
    if k > 0 { SpacesCol(p, k - 1); }
  }

  lemma TabEnds(p: Page, k: nat)
    requires p.Ok() && 1 <= k <= 8 - p.col % 8
    ensures Spaces(p, k).col % 8 == 0 <==> k == 8 - p.col % 8
  {
    SpacesCol(p, k);
  }

  /** A tab always advances, to a multiple of 8. */
  lemma TabStops(p: Page)
    requires p.Ok()
    ensures var q := Put(p, '\t');
            q.col % 8 == 0 && 0 < q.col <= 96 && (if p.col == 96 then q.col == 8 else p.col < q.col <= p.col + 8)
  {
    SpacesCol(p, 8 - p.col % 8);
  }

  /** A backspace undoes a typed character exactly when the character did not wrap to a new
      line and did not overwrite another one. */
  lemma BackspaceUndoes(p: Page, c: char)
    requires p.Ok() && Printable(c)
    ensures Put(Put(p, c), '\U{0008}') == p <==> p.col < 96 && p.lines[p.Last()][p.col] == ' '
  {
    var q := Put(Put(p, c), '\U{0008}');
    if p.col < 96 {
      var line := p.lines[p.Last()];
      assert q.lines[p.Last()] == line[p.col := ' '];
      assert q.lines == p.lines[p.Last() := line[p.col := ' ']];
      if line[p.col] == ' ' {
        assert line[p.col := ' '] == line;
        assert q.lines == p.lines;
      }
    }
  }

  /** Text without control characters fills a fresh page row by row. */
  lemma {:induction false} PlainText(s: string, n: nat)
    requires n <= |s| && forall i :: 0 <= i < |s| ==> Printable(s[i])
    ensures var p := PutAll(FreshPage(), s, n);
            (if n == 0 then |p.lines| == 1 && p.col == 0
             else |p.lines| == (n - 1) / 96 + 1 && p.col == (n - 1) % 96 + 1) &&
            (forall k :: 0 <= k < n ==> p.Cell(k / 96, k % 96) == s[k])
  {
    if n > 0 {
      PlainText(s, n - 1);
      assert Printable(s[n - 1]);
      TypedAt(PutAll(FreshPage(), s, n - 1), s, n - 1);
    }
  }

  lemma TypedAt(p: Page, s: string, n: nat)
    requires p.Ok() && n < |s| && Printable(s[n])
    requires if n == 0 then |p.lines| == 1 && p.col == 0 else |p.lines| == (n - 1) / 96 + 1 && p.col == (n - 1) % 96 + 1
    requires forall k :: 0 <= k < n ==> p.Cell(k / 96, k % 96) == s[k]
    ensures var q := Put(p, s[n]);
            |q.lines| == n / 96 + 1 && q.col == n % 96 + 1 &&
            (forall k :: 0 <= k <= n ==> q.Cell(k / 96, k % 96) == s[k])
  {
    var q := Put(p, s[n]);
    forall k | 0 <= k <= n ensures q.Cell(k / 96, k % 96) == s[k] {
      if k < n {
        assert k == 96 * (k / 96) + k % 96 && n == 96 * (n / 96) + n % 96;
        assert p.Cell(k / 96, k % 96) == s[k];
      }
    }
  }

  /** The last line between the two columns is blank in q, everything else is as in p. */
  ghost predicate Blanked(p: Page, q: Page, from: nat, to: nat)
    requires p.Ok()
  {
    |q.lines| == |p.lines| && forall i: nat, c: nat :: i < |p.lines| && c < 96 ==>
      q.lines[i][c] == if i == p.Last() && from <= c < to then ' ' else p.lines[i][c]
  }

  /** A backspace clears the cell before the cursor and moves there; at the start of a line it
      does nothing. */
  lemma BackspaceClears(p: Page)
    requires p.Ok()
    ensures var q := Put(p, '\U{0008}');
            if p.col == 0 then q == p else q.col == p.col - 1 && Blanked(p, q, p.col - 1, p.col)
  {}

  /** A tab blanks the cells it passes. From a full line it does so on a new one. */
  lemma TabBlanks(p: Page)
    requires p.Ok() && p.col < 96
    ensures var q := Put(p, '\t'); q.col == p.col / 8 * 8 + 8 && Blanked(p, q, p.col, q.col)
  {
    SpacesBlank(p, 8 - p.col % 8);
    SpacesCol(p, 8 - p.col % 8);
  }

  lemma {:induction false} SpacesBlank(p: Page, k: nat)
    requires p.Ok() && p.col < 96 && k <= 8 - p.col % 8
    ensures Spaces(p, k).col == p.col + k && Blanked(p, Spaces(p, k), p.col, p.col + k)
  {
    if k > 0 { SpacesBlank(p, k - 1); }
  }

  /** All other characters outside the printable range are ignored. */
  lemma OthersIgnored(p: Page, c: char)
    requires p.Ok() && c !in {'\n', '\r', '\t', '\U{0008}'} && (c < ' ' || c > '~')
    ensures Put(p, c) == p
  {}

  // ---------------------------------------------------------------------
  // Lines of text.
  // ---------------------------------------------------------------------

  predicate OneLine(s: string) { |s| <= 96 && forall i :: 0 <= i < |s| ==> Printable(s[i]) }

  /** The line with the first n characters of s laid over its start. */
  function Laid(l: Line, s: string, n: nat): (m: Line)
    requires n <= |s| && n <= 96
    ensures forall c :: 0 <= c < 96 ==> m[c] == if c < n then s[c] else l[c]
  {
    s[..n] + l[n..]
  }

  /** Text s stands at position k of t. */
  ghost predicate TextAt(t: string, k: nat, s: string) {
    k + |s| <= |t| && forall i :: k <= i < k + |s| ==> t[i] == s[i - k]
  }

  /** The page with its last line overlaid by the first n characters of s, the cursor behind. */
  function Over(q: Page, s: string, n: nat): (p: Page)
    requires q.Ok() && n <= |s| && n <= 96
    ensures p.Ok() && p.col == n && |p.lines| == |q.lines|
  {
    Page(q.lines[q.Last() := Laid(q.lines[q.Last()], s, n)], n)
  }

  lemma OverNothing(q: Page, s: string)
    requires q.Ok() && q.col == 0
    ensures Over(q, s, 0) == q
  {
    assert Laid(q.lines[q.Last()], s, 0) == q.lines[q.Last()];
    assert q.lines[q.Last() := q.lines[q.Last()]] == q.lines;
  }

  lemma OverNext(q: Page, s: string, n: nat)
    requires q.Ok() && OneLine(s) && n < |s|
    ensures Put(Over(q, s, n), s[n]) == Over(q, s, n + 1)
  {
    var l := q.lines[q.Last()];
    assert Printable(s[n]);
    assert Laid(l, s, n)[n := s[n]] == Laid(l, s, n + 1);
    assert Over(q, s, n).lines[q.Last() := Laid(l, s, n + 1)] == q.lines[q.Last() := Laid(l, s, n + 1)];
  }

  /** Typing from the start of a line lays the text over what is there. */
  lemma {:induction false} TypedOver(start: Page, t: string, k: nat, s: string, n: nat, q: Page)
    requires start.Ok() && OneLine(s) && n <= |s| && TextAt(t, k, s) && q == PutAll(start, t, k) && q.col == 0
    ensures PutAll(start, t, k + n) == Over(q, s, n)
  {
    if n == 0 {
      OverNothing(q, s);
    } else {
      TypedOver(start, t, k, s, n - 1, q);
      OverNext(q, s, n - 1);
      PutAllStep(start, t, k + n, s[n - 1], Over(q, s, n - 1));
    }
  }

  lemma PutAllStep(start: Page, t: string, n: nat, c: char, p: Page)
    requires start.Ok() && 0 < n <= |t| && t[n - 1] == c && p == PutAll(start, t, n - 1)
    ensures p.Ok() && PutAll(start, t, n) == Put(p, c)
  {}

  lemma {:induction false} PutAllPrefix(p: Page, a: string, t: string, n: nat)
    requires p.Ok() && n <= |a| && TextAt(t, 0, a)
    ensures PutAll(p, t, n) == PutAll(p, a, n)
  {
    if n > 0 {
      PutAllPrefix(p, a, t, n - 1);
      PutAllStep(p, a, n, a[n - 1], PutAll(p, a, n - 1));
      PutAllStep(p, t, n, a[n - 1], PutAll(p, a, n - 1));
    }
  }

  /** One character c that leads to the start of a line, between two texts. */
  lemma CharBetween(start: Page, before: string, c: char, s: string, t: string, n: nat, p: Page, q: Page)
    requires start.Ok() && p.Ok() && OneLine(s) && t == before + [c] + s && n == |t|
    requires p == PutAll(start, before, |before|) && Put(p, c) == q && q.col == 0
    ensures PutAll(start, t, n) == Over(q, s, |s|)
  {
    SplitText(before, c, s, t);
    PutAllPrefix(start, before, t, |before|);
    PutAllStep(start, t, |before| + 1, c, p);
    TypedOver(start, t, |before| + 1, s, |s|, q);
  }

  lemma SplitText(before: string, c: char, s: string, t: string)
    requires t == before + [c] + s
    ensures |t| == |before| + 1 + |s| && t[|before|] == c && TextAt(t, 0, before) && TextAt(t, |before| + 1, s)
  {}

  /** A text on a fresh page. */
  lemma FirstText(s: string, n: nat)
    requires OneLine(s) && n == |s|
    ensures PutAll(FreshPage(), s, n) == Page([Laid(Blank(), s, n)], n)
  {
    TypedOver(FreshPage(), s, 0, s, n, FreshPage());
    assert [Blank()][0 := Laid(Blank(), s, n)] == [Laid(Blank(), s, n)];
  }

  /** The first n + 1 segments with a line feed between them. */
  function Joined(ss: seq<string>, n: nat): string
    requires n < |ss|
  {
    if n == 0 then ss[0] else Joined(ss, n - 1) + ['\n'] + ss[n]
  }

  /** The segments are the lines of the page, blank behind; the cursor is behind the last. */
  ghost predicate LinesAre(p: Page, ss: seq<string>, n: nat)
    requires n < |ss|
  {
    |p.lines| == n + 1 && p.col == |ss[n]| &&
    forall i :: 0 <= i <= n ==> OneLine(ss[i]) && p.lines[i] == Laid(Blank(), ss[i], |ss[i]|)
  }

  /** Text segments with line feeds between them become the lines of a fresh page. */
  lemma {:induction false} LineFeeds(ss: seq<string>, n: nat, t: string, len: nat)
    requires n < |ss| && (forall i :: 0 <= i < |ss| ==> OneLine(ss[i])) && t == Joined(ss, n) && len == |t|
    ensures LinesAre(PutAll(FreshPage(), t, len), ss, n)
  {
    if n == 0 {
      FirstText(t, len);
    } else {
      var before := Joined(ss, n - 1);
      LineFeeds(ss, n - 1, before, |before|);
      OneFeed(before, ss[n], t, len, PutAll(FreshPage(), before, |before|));
    }
  }

  /** A line feed and a text after it: one more line. */
  lemma OneFeed(before: string, s: string, t: string, len: nat, p: Page)
    requires OneLine(s) && t == before + ['\n'] + s && len == |t| && p == PutAll(FreshPage(), before, |before|)
    ensures PutAll(FreshPage(), t, len) == Page(p.lines + [Laid(Blank(), s, |s|)], |s|)
  {
    var q := Page(p.lines + [Blank()], 0);
    FeedPut(p, q);
    CharBetween(FreshPage(), before, '\n', s, t, len, p, q);
    assert q.lines[q.Last() := Laid(Blank(), s, |s|)] == p.lines + [Laid(Blank(), s, |s|)];
  }

  /** A line feed adds a blank line, whatever the page. */
  lemma FeedPut(p: Page, q: Page)
    requires p.Ok() && q == Page(p.lines + [Blank()], 0)
    ensures Put(p, '\n') == q
  {}

  /** A carriage return between two texts: one line, the second laid over the first. */
  lemma CarriageReturn(a: string, b: string, t: string, len: nat)
    requires OneLine(a) && OneLine(b) && t == a + ['\r'] + b && len == |t|
    ensures PutAll(FreshPage(), t, len) == Page([Laid(Laid(Blank(), a, |a|), b, |b|)], |b|)
  {
    FirstText(a, |a|);
    var p, q := Page([Laid(Blank(), a, |a|)], |a|), Page([Laid(Blank(), a, |a|)], 0);
    CharBetween(FreshPage(), a, '\r', b, t, len, p, q);
    assert q.lines[0 := Laid(q.lines[0], b, |b|)] == [Laid(q.lines[0], b, |b|)];
  }

  // ---------------------------------------------------------------------
  // The terminal.
  // ---------------------------------------------------------------------

  class Terminal {
    const cells: array2<char>
    var row: nat
    var col: nat
    var dirty: bool

    ghost predicate Sized() { cells.Length0 == 36 && cells.Length1 == 96 }

    /** The window shows the last rows of page p, and the cursor stands where the page's does. */
    ghost predicate Shows(p: Page)
      reads this, cells
    {
      Sized() && p.Ok() && col == p.col && row == (if p.Last() < 36 then p.Last() else 35) &&
      Window(p, p.Last() - row)
    }

    ghost predicate Window(p: Page, top: nat)
      requires Sized()
      reads cells
    {
      forall r: nat, c: nat :: r < 36 && c < 96 ==> cells[r, c] == p.Cell(top + r, c)
    }

    constructor ()
      ensures Shows(FreshPage()) && fresh(cells)
    {
      cells := new char[36, 96];
      row, col, dirty := 0, 0, false;
      new;
      Clear();
    }

    method Clear()
      requires Sized()
      modifies this, cells
      ensures Shows(FreshPage()) && dirty
    {
      for r := 0 to 36
        modifies cells
        invariant forall i, c :: 0 <= i < r && 0 <= c < 96 ==> cells[i, c] == ' '
      {
        for c := 0 to 96
          modifies cells
          invariant forall i, k :: 0 <= i < 36 && 0 <= k < 96 && (i < r || (i == r && k < c)) ==> cells[i, k] == ' '
        {
          cells[r, c] := ' ';
        }
      }
      row, col, dirty := 0, 0, true;
    }

    method ScrollOne()
      requires Sized()
      modifies cells
      ensures forall r, c :: 0 <= r < 36 && 0 <= c < 96 ==>
        cells[r, c] == if r < 35 then old(cells[r + 1, c]) else ' '
    {
      for r := 0 to 35
        invariant forall i, c :: 0 <= i < 36 && 0 <= c < 96 ==>
          cells[i, c] == if i < r then old(cells[i + 1, c]) else old(cells[i, c])
      {
        CopyRow(r);
      }
      for c := 0 to 96
        invariant forall i, k :: 0 <= i < 36 && 0 <= k < 96 ==>
          cells[i, k] == if i < 35 then old(cells[i + 1, k]) else if k < c then ' ' else old(cells[i, k])
      {
        cells[35, c] := ' ';
      }
    }

    method CopyRow(r: nat)
      requires Sized() && r < 35
      modifies cells
      ensures forall i, k :: 0 <= i < 36 && 0 <= k < 96 ==>
        cells[i, k] == if i == r then old(cells[r + 1, k]) else old(cells[i, k])
    {
      for c := 0 to 96
        invariant forall i, k :: 0 <= i < 36 && 0 <= k < 96 ==>
          cells[i, k] == if i == r && k < c then old(cells[r + 1, k]) else old(cells[i, k])
      {
        cells[r, c] := cells[r + 1, c];
      }
    }

    method NewLine(ghost p: Page)
      requires Shows(p)
      modifies this, cells
      ensures Shows(Feed(p))
    {
      FeedShowsSame(p);
      ghost var top := p.Last() - row;
      col := 0;
      row := row + 1;
      if row >= 36 {
        ScrollView(p, top);
        row := 35;
      }
    }

    /** Scrolling moves the window down by one line. */
    method ScrollView(ghost p: Page, ghost top: nat)
      requires Sized() && Window(p, top) && |p.lines| <= top + 36
      modifies cells
      ensures Window(p, top + 1)
    {
      ScrollOne();
      forall r: nat, c: nat | r < 36 && c < 96 ensures cells[r, c] == p.Cell(top + 1 + r, c) {
        if r < 35 { assert old(cells[r + 1, c]) == p.Cell(top + (r + 1), c); }
      }
    }

    method BackSpace(ghost p: Page)
      requires Shows(p)
      modifies this, cells
      ensures Shows(Erase(p))
    {
      if col > 0 {
        col := col - 1;
        cells[row, col] := ' ';
      }
    }

    method SetCell(c: char, ghost p: Page)
      requires Shows(p) && p.col < 96
      modifies this, cells
      ensures Shows(p.WithCell(p.col, c).(col := p.col + 1))
    {
      cells[row, col] := c;
      col := col + 1;
    }

    method TypeChar(c: char, ghost p: Page)
      requires Shows(p)
      modifies this, cells
      ensures Shows(Type(p, c))
    {
      ghost var p1 := p;
      if col >= 96 {
        NewLine(p);
        p1 := Feed(p);
      }
      SetCell(c, p1);
    }

    /** At least one blank, then blanks up to the next multiple of 8. */
    method Tab(ghost p: Page)
      requires Shows(p)
      modifies this, cells
      ensures Shows(Put(p, '\t'))
      decreases 1
    {
      assert Spaces(p, 0) == p;
      PutC(' ', p);
      ghost var k := 1;
      assert Spaces(p, 1) == Type(Spaces(p, 0), ' ');
      while col % 8 != 0
        invariant 1 <= k <= 8 - p.col % 8 && Shows(Spaces(p, k))
        decreases 8 - k
      {
        TabEnds(p, k);
        PutC(' ', Spaces(p, k));
        k := k + 1;
      }
      TabEnds(p, k);
    }

    /** gui_term_putc. */
    method PutC(c: char, ghost p: Page)
      requires Shows(p)
      modifies this, cells
      ensures Shows(Put(p, c)) && dirty
      decreases if c == '\t' then 2 else 0
    {
      if c == '\n' { NewLine(p); }
      else if c == '\r' { col := 0; }
      else if c == '\U{0008}' { BackSpace(p); }
      else if c == '\t' { Tab(p); }
      else if ' ' <= c && c < 127 as char { TypeChar(c, p); }
      dirty := true;
    }

    /** gui_term_puts of a zero-terminated string: after any stream of characters the window
        shows the last rows of the page that the stream writes. */
    method Puts(s: string, end: nat, ghost p: Page)
      requires Shows(p) && end < |s| && s[end] == '\0' && forall i :: 0 <= i < end ==> s[i] != '\0'
      modifies this, cells
      ensures Shows(PutAll(p, s, end))
    {
      var i := 0;
      while s[i] != '\0'
        invariant 0 <= i <= end && Shows(PutAll(p, s, i))
        decreases end - i
      {
        PutC(s[i], PutAll(p, s, i));
        i := i + 1;
      }
    }
  }
}
