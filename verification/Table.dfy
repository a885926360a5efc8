/** `stringtable.c`: a table drawn as text in one block of memory. */
module Table {
  import opened Bytes
  import opened Memory
  import opened Numbers

  const MAX_TABLE_NAME := 64
  const MAX_COLWIDTH := 32

  /** `sizeof(s_t_matedate)` and `sizeof(char *)`. */
  const HEADER_SIZE := 96
  const ADDRESS_SIZE := 8

  const BAR: byte := 124
  const EQUALS: byte := 61

  // ----- Sizes -------------------------------------------------------------

  /** `rel_line_num`: the bytes of a line, with its line break. */
  function LineWidth(x: nat, colwidth: nat): (w: nat)
    ensures w >= 3
  {
    Times(colwidth + 1, x) + 3
  }

  /** A product, with its sign. */
  function Times(a: nat, b: nat): (r: nat) {
    a * b
  }

  /** `s_table_size_compute`. */
  function SizeCompute(x: nat, y: nat, colwidth: nat): nat {
    var wide := LineWidth(x, colwidth);
    HEADER_SIZE + Times(ADDRESS_SIZE * x, y) + wide + (Times(wide, 2 * y + 3) + 1)
  }

  /** Where the text starts in the block. */
  function TextStart(x: nat, y: nat): nat {
    HEADER_SIZE + Times(ADDRESS_SIZE * x, y)
  }

  /** What the header, the pointers, the lines and the NUL take. */
  function Needed(x: nat, y: nat, colwidth: nat): nat {
    TextStart(x, y) + Times(LineWidth(x, colwidth), 2 * y + 3) + 1
  }

  /** The least size that `s_table_create` lets pass. */
  function LeastAccepted(x: nat, y: nat, colwidth: nat): nat {
    HEADER_SIZE + Times(ADDRESS_SIZE * x, y) + Times(x * (colwidth + 1) + 1, y + 2)
  }

  /** What the writes of `s_table_create` need: the NUL behind the text is inside the block, the stretch
      of the title line that is cleared has no negative size, and the title fits into its field. */
  predicate WritesFit(len: nat, x: nat, y: nat, colwidth: nat, num: nat) {
    && TextStart(x, y) + Times(LineWidth(x, colwidth), 2 * y + 3) < num
    && LineWidth(x, colwidth) - 5 >= 0 && len <= MAX_TABLE_NAME
  }

  /** Of the tables whose title is accepted, exactly those have all their writes in place that get a block
      for all lines, are not a single column of width 0 without a title, and do not have the longest
      title of all. */
  lemma WritesFitExactly(len: nat, x: nat, y: nat, colwidth: nat, num: nat)
    requires TitleAccepted(len, x, colwidth)
    ensures WritesFit(len, x, y, colwidth, num)
            <==> Needed(x, y, colwidth) <= num && !(x == 1 && colwidth == 0 && len == 0) && len != MAX_TABLE_NAME + 1
  {
    TitleLineIsWide(len, x, colwidth);
  }

  /** One table for each way to be accepted without room for the writes. */
  lemma AcceptedWithoutRoom(num: nat)
    ensures LeastAccepted(1, 1, 1) <= 113 && TitleAccepted(0, 1, 1) && !WritesFit(0, 1, 1, 1, 113)
    ensures TitleAccepted(0, 1, 0) && !WritesFit(0, 1, 1, 0, num)
    ensures TitleAccepted(65, 33, 1) && !WritesFit(65, 33, 1, 1, num)
  {
  }

  /** The documented size is enough. The size that `s_table_create` checks for never is: the test
      looks at half of the lines only. */
  lemma SizesCompared(x: nat, y: nat, colwidth: nat)
    ensures LeastAccepted(x, y, colwidth) < Needed(x, y, colwidth) < SizeCompute(x, y, colwidth)
  {
    var wide := LineWidth(x, colwidth);
    assert x * (colwidth + 1) + 1 == wide - 2;
    MulMono(wide - 2, wide, y + 2);
    assert wide * (2 * y + 3) == wide * (y + 2) + wide * (y + 1);
  }

  lemma MulMono(a: nat, b: nat, n: nat)
    requires a <= b
    ensures a * n <= b * n
  {
  }

  /** The length of the title passes the test of `s_table_create`. */
  predicate TitleAccepted(len: nat, x: nat, colwidth: nat) {
    !(len - 1 > MAX_TABLE_NAME || len - 1 > LineWidth(x, colwidth) - 5)
  }

  /** The `memset` that clears the title line has a size that is not negative, but for one table that
      is accepted: one column of width 0, without a title. */
  lemma TitleLineIsWide(len: nat, x: nat, colwidth: nat)
    requires TitleAccepted(len, x, colwidth)
    ensures LineWidth(x, colwidth) - 5 >= 0 <==> !(x == 1 && colwidth == 0 && len == 0)
  {
    if x >= 2 {
      MulMono(2, x, colwidth + 1);
    }
  }

  // ----- Grids and their text ----------------------------------------------

  /** What a table shows: `w` columns and `h` rows of cells, each `cw` bytes wide. Column by column. */
  datatype Grid = Grid(w: nat, h: nat, cw: nat, title: Text, cells: seq<Text>)

  function Repeat(b: byte, n: nat): (r: Text)
    ensures |r| == n && forall k :: 0 <= k < n ==> r[k] == b
  {
    seq(n, _ => b)
  }

  /** The number of cell (x, y), the index of its pointer: `s_table_get`. */
  function Index(h: nat, x: nat, y: nat): nat {
    Times(x, h) + y
  }

  /** Different cells have different pointers, and there is one for every cell. */
  lemma IndexInRange(w: nat, h: nat, x: nat, y: nat)
    requires x < w && y < h
    ensures Index(h, x, y) < Times(w, h)
  {
    MulMono(x + 1, w, h);
    assert (x + 1) * h == x * h + h;
  }

  lemma IndexInOrder(h: nat, x: nat, y: nat, x': nat, y': nat)
    requires y < h && x < x'
    ensures Index(h, x, y) < Index(h, x', y')
  {
    MulMono(x + 1, x', h);
  }

  lemma IndexIsInjective(h: nat, x: nat, y: nat, x': nat, y': nat)
    requires y < h && y' < h
    ensures Index(h, x, y) == Index(h, x', y') <==> x == x' && y == y'
  {
    if x < x' {
      IndexInOrder(h, x, y, x', y');
    } else if x' < x {
      IndexInOrder(h, x', y', x, y);
    }
  }

  lemma IndexIsOnto(w: nat, h: nat, k: nat) returns (x: nat, y: nat)
    requires k < Times(w, h)
    ensures x < w && y < h && Index(h, x, y) == k
  {
    assert h != 0;
    x, y := k / h, k % h;
    assert k == Times(x, h) + y;
    Cancel(x, w, h, y);
  }

  lemma Cancel(x: nat, w: nat, h: nat, y: nat)
    requires Times(x, h) + y < Times(w, h)
    ensures x < w
  {
  }

  ghost predicate Sound(g: Grid) {
    && |g.cells| == Times(g.w, g.h) && (forall i :: 0 <= i < |g.cells| ==> |g.cells[i]| == g.cw)
    && |g.title| <= MAX_TABLE_NAME && TitleAccepted(|g.title|, g.w, g.cw) && LineWidth(g.w, g.cw) >= 5
  }

  function Width(g: Grid): (w: nat)
    ensures w >= 3
  {
    LineWidth(g.w, g.cw)
  }

  function Border(g: Grid): (r: Text)
    ensures |r| == Width(g)
  {
    Repeat(EQUALS, Width(g) - 2) + [SPACE, LF]
  }

  /** The cells of row `y` from column `x` on, each behind its bar. */
  ghost function RowFrom(g: Grid, y: nat, x: nat): (r: Text)
    requires Sound(g) && y < g.h && x <= g.w
    ensures |r| == Times(g.cw + 1, g.w - x)
    decreases g.w - x
  {
    if x == g.w then []
    else
      IndexInRange(g.w, g.h, x, y);
      assert (g.cw + 1) * (g.w - x) == (g.cw + 1) + (g.cw + 1) * (g.w - (x + 1));
      [BAR] + g.cells[Index(g.h, x, y)] + RowFrom(g, y, x + 1)
  }

  ghost function RowLine(g: Grid, y: nat): (r: Text)
    requires Sound(g) && y < g.h
    ensures |r| == Width(g)
  {
    RowFrom(g, y, 0) + [BAR, SPACE, LF]
  }

  /** The title line before the title is there; the blanks start in the third column. */
  function EmptyTitle(w: nat, cw: nat): (r: Text)
    requires LineWidth(w, cw) >= 5
    ensures |r| == LineWidth(w, cw) - 2
  {
    [BAR, if cw == 0 then BAR else SPACE] + Repeat(SPACE, LineWidth(w, cw) - 5) + [BAR]
  }

  /** The column where the title starts. */
  function TitleColumn(width: nat, len: nat): int {
    1 + (width - 2) / 2 - len / 2
  }

  ghost function TitleLine(g: Grid): (r: Text)
    requires Sound(g)
    ensures |r| == Width(g)
  {
    var e, s := EmptyTitle(g.w, g.cw), TitleColumn(Width(g), |g.title|);
    e[..s] + g.title + e[s + |g.title|..] + [SPACE, LF]
  }

  ghost function Line(g: Grid, l: nat): (r: Text)
    requires Sound(g) && l < 2 * g.h + 3
    ensures |r| == Width(g)
  {
    if l == 1 then TitleLine(g) else if l % 2 == 0 then Border(g) else RowLine(g, (l - 3) / 2)
  }

  /** All lines from line `l` on. */
  ghost function Render(g: Grid, l: nat): Text
    requires Sound(g) && l <= 2 * g.h + 3
    decreases 2 * g.h + 3 - l
  {
    if l == 2 * g.h + 3 then [] else Line(g, l) + Render(g, l + 1)
  }

  // ----- Writing into the block --------------------------------------------

  /** `s` with `t` written over it at `at`. */
  function Splice(s: seq<byte>, at: nat, t: seq<byte>): (r: seq<byte>)
    requires at + |t| <= |s|
    ensures |r| == |s|
  {
    s[..at] + t + s[at + |t|..]
  }

  /** Nothing changed before `from`, nor at or after `to`. */
  ghost predicate SameOutside(s: seq<byte>, t: seq<byte>, from: nat, to: nat) {
    |s| == |t| && from <= to <= |s| && s[..from] == t[..from] && s[to..] == t[to..]
  }

  lemma SpliceInside(s0: seq<byte>, s: seq<byte>, from: nat, to: nat, at: nat, t: seq<byte>)
    requires SameOutside(s0, s, from, to) && from <= at && at + |t| <= to
    ensures SameOutside(s0, Splice(s, at, t), from, to)
  {
    var r := Splice(s, at, t);
    assert r[..from] == s[..from] && r[to..] == s[to..];
  }

  /** `memset`. */
  method MemSet(mem: array<byte>, at: nat, b: byte, n: nat)
    requires at + n <= mem.Length
    modifies mem
    ensures mem[..] == Splice(old(mem[..]), at, Repeat(b, n))
  {
    forall k | at <= k < at + n {
      mem[k] := b;
    }
  }

  /** `memcpy` of a string. */
  method MemCpy(mem: array<byte>, at: nat, t: Text)
    requires at + |t| <= mem.Length
    modifies mem
    ensures mem[..] == Splice(old(mem[..]), at, t)
  {
    forall k | at <= k < at + |t| {
      mem[k] := t[k - at];
    }
  }

  /** Line `l` of the text that starts at `start`. */
  ghost function LineAt(s: seq<byte>, start: nat, width: nat, l: nat): seq<byte> {
    var at := start + Times(width, l);
    if at + width <= |s| then s[at..at + width] else []
  }

  lemma LinesInOrder(width: nat, l: nat, m: nat)
    requires l < m
    ensures Times(width, l) + width <= Times(width, m)
  {
    MulMono(l + 1, m, width);
    assert width * l == l * width && width * m == m * width;
  }

  lemma SpliceParts(s: seq<byte>, at: nat, t: seq<byte>)
    requires at + |t| <= |s|
    ensures var r := Splice(s, at, t);
            r[0..at] == s[0..at] && r[at..at + |t|] == t && r[at + |t|..|s|] == s[at + |t|..|s|]
  {
  }

  /** A slice inside an equal stretch. */
  lemma SameSlice(s: seq<byte>, r: seq<byte>, from: nat, to: nat, k: nat, n: nat)
    requires |r| == |s| && from <= to <= |s| && r[from..to] == s[from..to]
    ensures from <= k && k + n <= to ==> r[k..k + n] == s[k..k + n]
  {
    if from <= k && k + n <= to {
      forall j | k <= j < k + n ensures r[j] == s[j] {
        assert r[from..to][j - from] == s[from..to][j - from];
      }
    }
  }

  /** Writing over a line changes this line and no other. */
  lemma SplicedLine(s: seq<byte>, start: nat, width: nat, y: nat, t: seq<byte>, l: nat)
    requires |t| == width && start + Times(width, y) + width <= |s|
    ensures LineAt(Splice(s, start + Times(width, y), t), start, width, l)
            == if l == y then t else LineAt(s, start, width, l)
  {
    var at, r := start + Times(width, y), Splice(s, start + Times(width, y), t);
    hide Times, Splice;
    SpliceParts(s, at, t);
    if l < y {
      LinesInOrder(width, l, y);
      SameSlice(s, r, 0, at, start + Times(width, l), width);
    } else if y < l {
      LinesInOrder(width, y, l);
      SameSlice(s, r, at + width, |s|, start + Times(width, l), width);
    }
  }

  /** Writing inside a line is writing over the line. */
  lemma SpliceInLine(s: seq<byte>, start: nat, width: nat, y: nat, c: nat, t: seq<byte>)
    requires start + Times(width, y) + width <= |s| && c + |t| <= width
    ensures Splice(s, start + Times(width, y) + c, t)
         == Splice(s, start + Times(width, y), Splice(LineAt(s, start, width, y), c, t))
  {
    hide Times;
  }

  // ----- Drawing the empty table -------------------------------------------

  /** A line after the first phase. */
  function BlankLine(width: nat, l: nat): (r: Text)
    requires width >= 2
    ensures |r| == width
  {
    Repeat(if l % 2 == 0 then EQUALS else SPACE, width - 2) + [SPACE, LF]
  }

  /** The first phase. */
  method DrawLines(mem: array<byte>, start: nat, width: nat, lines: nat)
    requires width >= 2 && start + Times(width, lines) < mem.Length
    modifies mem
    ensures forall l :: 0 <= l < lines ==> LineAt(mem[..], start, width, l) == BlankLine(width, l)
    ensures mem[start + Times(width, lines)] == 0
    ensures SameOutside(old(mem[..]), mem[..], start, start + Times(width, lines) + 1)
  {
    hide Splice, LineAt, BlankLine, Times, SameOutside;
    ghost var end := start + Times(width, lines);
    NothingChanged(mem[..], start, end + 1);
    var at := start;
    NoLines(width);
    for y := 0 to lines
      invariant at == start + Times(width, y) && SameOutside(old(mem[..]), mem[..], start, end + 1)
      invariant forall l :: 0 <= l < y ==> LineAt(mem[..], start, width, l) == BlankLine(width, l)
    {
      LinesInOrder(width, y, y + 1);
      NextLine(width, y);
      if y + 1 < lines {
        LinesInOrder(width, y + 1, lines);
      }
      ghost var before := mem[..];
      FillLine(mem, at, width, y);
      SpliceInside(old(mem[..]), before, start, end + 1, at, BlankLine(width, y));
      forall l | 0 <= l < y + 1 ensures LineAt(mem[..], start, width, l) == BlankLine(width, l) {
        SplicedLine(before, start, width, y, BlankLine(width, y), l);
      }
      at := at + width;
    }
    ghost var before := mem[..];
    mem[at] := 0;
    LastByte(old(mem[..]), before, mem[..], start, at);
    forall l | 0 <= l < lines ensures LineAt(mem[..], start, width, l) == LineAt(before, start, width, l) {
      LinesInOrder(width, l, lines);
      AfterTheText(before, mem[..], start, width, l, at);
    }
  }

  lemma NothingChanged(s: seq<byte>, from: nat, to: nat)
    requires from <= to <= |s|
    ensures SameOutside(s, s, from, to)
  {
  }

  lemma LastByte(s0: seq<byte>, s: seq<byte>, t: seq<byte>, from: nat, at: nat)
    requires from <= at < |s| && SameOutside(s0, s, from, at + 1) && |t| == |s| && t[..at] == s[..at]
             && t[at + 1..] == s[at + 1..]
    ensures SameOutside(s0, t, from, at + 1)
  {
    assert t[..from] == t[..at][..from] && s[..from] == s[..at][..from];
  }

  lemma NoLines(width: nat)
    ensures Times(width, 0) == 0
  {
  }

  lemma NextLine(width: nat, y: nat)
    ensures Times(width, y + 1) == Times(width, y) + width
  {
  }

  lemma AfterTheText(before: seq<byte>, after: seq<byte>, start: nat, width: nat, l: nat, end: nat)
    requires |before| == |after| && end <= |after| && before[..end] == after[..end]
             && start + Times(width, l) + width <= end
    ensures LineAt(after, start, width, l) == LineAt(before, start, width, l)
  {
    var at := start + Times(width, l);
    assert after[at..at + width] == after[..end][at..at + width];
    assert before[at..at + width] == before[..end][at..at + width];
  }

  /** One line of the first phase. */
  method FillLine(mem: array<byte>, at: nat, width: nat, y: nat)
    requires width >= 2 && at + width <= mem.Length
    modifies mem
    ensures mem[..] == Splice(old(mem[..]), at, BlankLine(width, y))
  {
    MemSet(mem, at, if y % 2 == 0 then EQUALS else SPACE, width);
    mem[at + width - 2] := SPACE;
    mem[at + width - 1] := LF;
  }

  /** A line with `b` at every multiple of `n`, but for the line break. */
  function Barred(line: Text, n: nat, b: byte): (r: Text)
    requires |line| >= 2 && n > 0
    ensures |r| == |line|
  {
    seq(|line|, c requires 0 <= c < |line| => if c < |line| - 2 && c % n == 0 then b else line[c])
  }

  /** The symbol of the second phase. */
  function Bar(l: nat): byte {
    if l % 2 == 0 then EQUALS else BAR
  }

  /** One line of the second phase. */
  method BarLine(mem: array<byte>, at: nat, width: nat, n: nat, b: byte)
    requires width >= 2 && n > 0 && at + width <= mem.Length
    modifies mem
    ensures mem[..] == Splice(old(mem[..]), at, Barred(old(mem[at..at + width]), n, b))
  {
    for x := 0 to width - 2
      invariant forall k :: 0 <= k < mem.Length ==>
        mem[k] == if at <= k < at + x && (k - at) % n == 0 then b else old(mem[k])
    {
      if x % n == 0 {
        mem[at + x] := b;
      }
    }
  }

  /** The second phase. */
  method DrawBars(mem: array<byte>, start: nat, width: nat, lines: nat, n: nat)
    requires width >= 2 && n > 0 && start + Times(width, lines) < mem.Length && mem[start + Times(width, lines)] == 0
    requires forall l :: 0 <= l < lines ==> LineAt(mem[..], start, width, l) == BlankLine(width, l)
    modifies mem
    ensures forall l :: 0 <= l < lines ==> LineAt(mem[..], start, width, l) == Barred(BlankLine(width, l), n, Bar(l))
    ensures mem[start + Times(width, lines)] == 0
    ensures SameOutside(old(mem[..]), mem[..], start, start + Times(width, lines) + 1)
  {
    hide Splice, LineAt, BlankLine, Times, Barred, Bar, SameOutside;
    ghost var end := start + Times(width, lines);
    NothingChanged(mem[..], start, end + 1);
    var at := start;
    NoLines(width);
    for y := 0 to lines
      invariant at == start + Times(width, y) && mem[end] == 0 && SameOutside(old(mem[..]), mem[..], start, end + 1)
      invariant forall l :: 0 <= l < y ==> LineAt(mem[..], start, width, l) == Barred(BlankLine(width, l), n, Bar(l))
      invariant forall l :: y <= l < lines ==> LineAt(mem[..], start, width, l) == BlankLine(width, l)
    {
      LinesInOrder(width, y, lines);
      NextLine(width, y);
      ghost var before := mem[..];
      ghost var line := Barred(BlankLine(width, y), n, Bar(y));
      SliceIsLine(before, start, width, y);
      BarLine(mem, at, width, n, if y % 2 == 0 then EQUALS else BAR);
      assert mem[..] == Splice(before, at, line) by {
        BarOf(y);
      }
      BehindSplice(before, at, line, end);
      SpliceInside(old(mem[..]), before, start, end + 1, at, line);
      forall l | 0 <= l < lines
        ensures LineAt(mem[..], start, width, l) == if l == y then line else LineAt(before, start, width, l)
      {
        SplicedLine(before, start, width, y, line, l);
      }
      at := at + width;
    }
  }

  lemma BarOf(l: nat)
    ensures Bar(l) == if l % 2 == 0 then EQUALS else BAR
  {
  }

  lemma SliceIsLine(s: seq<byte>, start: nat, width: nat, l: nat)
    requires start + Times(width, l) + width <= |s|
    ensures LineAt(s, start, width, l) == s[start + Times(width, l)..start + Times(width, l) + width]
  {
  }

  lemma BehindSplice(s: seq<byte>, at: nat, t: seq<byte>, k: nat)
    requires at + |t| <= k < |s|
    ensures Splice(s, at, t)[k] == s[k]
  {
  }

  // ----- What the phases draw ----------------------------------------------

  /** The table without values. */
  function EmptyGrid(x: nat, y: nat, colwidth: nat, title: Text): Grid {
    Grid(x, y, colwidth, title, seq(Times(x, y), _ => Repeat(SPACE, colwidth)))
  }

  lemma ModBelow(j: nat, n: nat)
    requires j < n
    ensures j % n == j
  {
  }

  lemma ModAbove(j: nat, n: nat)
    requires j >= n > 0
    ensures j % n == (j - n) % n
  {
    var q, r := (j - n) / n, (j - n) % n;
    assert j == (q + 1) * n + r;
    ModUnique(j, n, q + 1, r);
  }

  lemma ModUnique(j: nat, n: nat, q: nat, r: nat)
    requires n > 0 && j == q * n + r && r < n
    ensures j % n == r
  {
    IndexIsInjective(n, q, r, j / n, j % n);
  }

  /** In an empty row there is a bar at the multiples of the distance between bars. */
  lemma {:induction false} EmptyRowAt(g: Grid, y: nat, x: nat, j: nat)
    requires Sound(g) && y < g.h && x <= g.w && j < |RowFrom(g, y, x)|
    requires forall i :: 0 <= i < |g.cells| ==> g.cells[i] == Repeat(SPACE, g.cw)
    ensures RowFrom(g, y, x)[j] == if j % (g.cw + 1) == 0 then BAR else SPACE
    decreases g.w - x
  {
    var n := g.cw + 1;
    IndexInRange(g.w, g.h, x, y);
    if j < n {
      ModBelow(j, n);
    } else {
      ModAbove(j, n);
      EmptyRowAt(g, y, x + 1, j - n);
    }
  }

  lemma EmptyRow(g: Grid, y: nat, l: nat)
    requires Sound(g) && y < g.h && l % 2 == 1
    requires forall i :: 0 <= i < |g.cells| ==> g.cells[i] == Repeat(SPACE, g.cw)
    ensures Barred(BlankLine(Width(g), l), g.cw + 1, BAR) == RowLine(g, y)
  {
    var n, r := g.cw + 1, RowLine(g, y);
    assert |r| == Times(n, g.w) + 3;
    ModUnique(Times(n, g.w), n, g.w, 0);
    forall c | 0 <= c < |r| ensures Barred(BlankLine(Width(g), l), n, BAR)[c] == r[c] {
      if c < Times(n, g.w) {
        EmptyRowAt(g, y, 0, c);
      }
    }
  }

  lemma BarredBorder(g: Grid, l: nat)
    requires l % 2 == 0
    ensures Barred(BlankLine(Width(g), l), g.cw + 1, EQUALS) == Border(g)
  {
  }

  /** The third phase: the title line is cleared from its third column to its last but three, and the
      title is written into its middle. */
  lemma ClearedTitle(w: nat, cw: nat)
    requires LineWidth(w, cw) >= 5
    ensures var width := LineWidth(w, cw);
            Splice(Barred(BlankLine(width, 1), cw + 1, BAR), 2, Repeat(SPACE, width - 5))
              == EmptyTitle(w, cw) + [SPACE, LF]
  {
    var n, width := cw + 1, LineWidth(w, cw);
    ModUnique(Times(n, w), n, w, 0);
    ModBelow(0, n);
    if cw > 0 {
      ModBelow(1, n);
    }
  }

  lemma TitleFits(g: Grid)
    requires Sound(g)
    ensures 2 <= TitleColumn(Width(g), |g.title|) && TitleColumn(Width(g), |g.title|) + |g.title| <= Width(g) - 2
    ensures Splice(EmptyTitle(g.w, g.cw) + [SPACE, LF], TitleColumn(Width(g), |g.title|), g.title) == TitleLine(g)
  {
  }

  // ----- The table ---------------------------------------------------------

  /** The text in the block is that of the grid, line by line. */
  ghost predicate Shows(s: seq<byte>, start: nat, g: Grid) {
    && Sound(g) && start + Times(Width(g), 2 * g.h + 3) < |s| && s[start + Times(Width(g), 2 * g.h + 3)] == 0
    && forall l :: 0 <= l < 2 * g.h + 3 ==> LineAt(s, start, Width(g), l) == Line(g, l)
  }

  lemma OneLine(width: nat)
    ensures Times(width, 1) == width
  {
  }

  /** Without values the lines are those that the second phase leaves, but for the title line. */
  lemma EmptyLines(g: Grid, l: nat)
    requires Sound(g) && l < 2 * g.h + 3 && l != 1
    requires forall i :: 0 <= i < |g.cells| ==> g.cells[i] == Repeat(SPACE, g.cw)
    ensures Barred(BlankLine(Width(g), l), g.cw + 1, Bar(l)) == Line(g, l)
  {
    if l % 2 == 0 {
      BarredBorder(g, l);
    } else {
      EmptyRow(g, (l - 3) / 2, l);
    }
  }

  /** The last bar of the title line stays unless the title takes all the room that the test of its
      length leaves, or, in a line of even width, all but one byte. */
  lemma TitleCoversBar(g: Grid)
    requires Sound(g)
    ensures var n, width := |g.title|, Width(g);
            TitleLine(g)[width - 3]
            == if n == width - 4 || (width % 2 == 0 && n == width - 5) then g.title[n - 1] else BAR
  {
    TitleFits(g);
    hide LineWidth, Splice, TitleAccepted;
  }

  /** Writing inside a line, seen from all lines. */
  lemma SplicedInLine(s: seq<byte>, start: nat, width: nat, y: nat, c: nat, t: seq<byte>, l: nat)
    requires start + Times(width, y) + width <= |s| && c + |t| <= width
    ensures LineAt(Splice(s, start + Times(width, y) + c, t), start, width, l)
         == if l == y then Splice(LineAt(s, start, width, y), c, t) else LineAt(s, start, width, l)
  {
    SpliceInLine(s, start, width, y, c, t);
    SplicedLine(s, start, width, y, Splice(LineAt(s, start, width, y), c, t), l);
  }

  /** The third phase: the title line. */
  method DrawTitle(mem: array<byte>, start: nat, width: nat, name: Text, ghost g: Grid)
    requires Sound(g) && g.title == name && width == Width(g) && start + Times(width, 2 * g.h + 3) < mem.Length
    requires mem[start + Times(width, 2 * g.h + 3)] == 0
    requires forall l :: 0 <= l < 2 * g.h + 3 ==>
               LineAt(mem[..], start, width, l) == Barred(BlankLine(width, l), g.cw + 1, Bar(l))
    requires forall i :: 0 <= i < |g.cells| ==> g.cells[i] == Repeat(SPACE, g.cw)
    modifies mem
    ensures Shows(mem[..], start, g) && SameOutside(old(mem[..]), mem[..], start, start + Times(width, 2 * g.h + 3) + 1)
  {
    assert width == LineWidth(g.w, g.cw) >= 5;
    hide *;
    TitleFits(g);
    LinesInOrder(width, 1, 2 * g.h + 3);
    OneLine(width);
    var cleared, at := start + width + 2, start + width + TitleColumn(width, |name|);
    var blanks := width - 5;
    TitleDrawn(mem[..], start, width, g, cleared, blanks, at);
    ghost var s0, end := mem[..], start + Times(width, 2 * g.h + 3) + 1;
    NothingChanged(s0, start, end);
    MemSet(mem, cleared, SPACE, blanks);
    ghost var s1 := mem[..];
    SpliceInside(s0, s0, start, end, cleared, Repeat(SPACE, blanks));
    MemCpy(mem, at, name);
    SpliceInside(s0, s1, start, end, at, name);
  }

  lemma LineOne(g: Grid)
    requires Sound(g)
    ensures Line(g, 1) == TitleLine(g)
  {
  }

  lemma TitleDrawn(s: seq<byte>, start: nat, width: nat, g: Grid, cleared: nat, blanks: nat, at: nat)
    requires Sound(g) && width == Width(g) == LineWidth(g.w, g.cw) >= 5 && start + Times(width, 2 * g.h + 3) < |s|
    requires s[start + Times(width, 2 * g.h + 3)] == 0
    requires forall l :: 0 <= l < 2 * g.h + 3 ==>
               LineAt(s, start, width, l) == Barred(BlankLine(width, l), g.cw + 1, Bar(l))
    requires forall i :: 0 <= i < |g.cells| ==> g.cells[i] == Repeat(SPACE, g.cw)
    requires cleared == start + width + 2 && blanks == width - 5 && at == start + width + TitleColumn(width, |g.title|)
    requires Times(width, 1) == width && 2 * width <= Times(width, 2 * g.h + 3)
    ensures at + |g.title| <= |s| && Shows(Splice(Splice(s, cleared, Repeat(SPACE, blanks)), at, g.title), start, g)
  {
    hide *;
    ClearedTitle(g.w, g.cw);
    TitleFits(g);
    BarOf(1);
    LineOne(g);
    var clear, col := Repeat(SPACE, blanks), TitleColumn(width, |g.title|);
    var s1 := Splice(s, cleared, clear);
    var s2 := Splice(s1, at, g.title);
    var end := start + Times(width, 2 * g.h + 3);
    BehindSplice(s, cleared, clear, end);
    BehindSplice(s1, at, g.title, end);
    SplicedInLine(s, start, width, 1, 2, clear, 1);
    SplicedInLine(s1, start, width, 1, col, g.title, 1);
    forall l | 0 <= l < 2 * g.h + 3 ensures LineAt(s2, start, width, l) == Line(g, l) {
      if l != 1 {
        SplicedInLine(s, start, width, 1, 2, clear, l);
        SplicedInLine(s1, start, width, 1, col, g.title, l);
        EmptyLines(g, l);
      }
    }
    AllLinesShow(s2, start, g);
  }

  lemma AllLinesShow(s: seq<byte>, start: nat, g: Grid)
    requires Sound(g) && start + Times(Width(g), 2 * g.h + 3) < |s| && s[start + Times(Width(g), 2 * g.h + 3)] == 0
    requires forall l :: 0 <= l < 2 * g.h + 3 ==> LineAt(s, start, Width(g), l) == Line(g, l)
    ensures Shows(s, start, g)
  {
  }

  // ----- The pointers ------------------------------------------------------

  /** Where the text of cell (x, y) starts: in the line of its row, behind the bar of its column. */
  function CellStart(data: nat, width: nat, n: nat, x: nat, y: nat): nat {
    data + Times(width, 2 * y + 3) + (Times(n, x) + 1)
  }

  /** The pointers of the cells in the first `y` rows. */
  ghost predicate PointersTo(ps: seq<nat>, data: nat, width: nat, n: nat, w: nat, h: nat, y: nat) {
    && |ps| == Times(w, h)
    && forall a, b :: 0 <= a < w && 0 <= b < y ==>
         Index(h, a, b) < |ps| && ps[Index(h, a, b)] == CellStart(data, width, n, a, b)
  }

  /** The fourth phase. */
  method SetPointers(pointers: array<nat>, data: nat, width: nat, n: nat, w: nat, h: nat)
    requires pointers.Length == Times(w, h)
    modifies pointers
    ensures PointersTo(pointers[..], data, width, n, w, h, h)
  {
    hide Times, Index, CellStart;
    var at := data + 2 * width;
    FirstLines(width);
    for y := 0 to h
      invariant at == data + Times(width, 2 * y + 2) && PointersTo(pointers[..], data, width, n, w, h, y)
    {
      NextLine(width, 2 * y + 2);
      NextLine(width, 2 * y + 3);
      at := at + width;
      SetRow(pointers, data, width, n, w, h, y, at);
      at := at + width;
    }
  }

  lemma FirstLines(width: nat)
    ensures Times(width, 2) == 2 * width
  {
  }

  method SetRow(pointers: array<nat>, data: nat, width: nat, n: nat, w: nat, h: nat, y: nat, at: nat)
    requires y < h && at == data + Times(width, 2 * y + 3) && PointersTo(pointers[..], data, width, n, w, h, y)
    modifies pointers
    ensures PointersTo(pointers[..], data, width, n, w, h, y + 1)
  {
    hide Times, Index;
    for x := 0 to w
      invariant PointersTo(pointers[..], data, width, n, w, h, y)
      invariant forall a :: 0 <= a < x ==>
                  Index(h, a, y) < pointers.Length && pointers[Index(h, a, y)] == CellStart(data, width, n, a, y)
    {
      IndexInRange(w, h, x, y);
      forall a, b | 0 <= a < w && 0 <= b < h ensures Index(h, a, b) == Index(h, x, y) <==> a == x && b == y {
        IndexIsInjective(h, a, b, x, y);
      }
      pointers[Index(h, x, y)] := at + (Times(n, x) + 1);
    }
  }

  // ----- The table ---------------------------------------------------------

  /** `s_t_matedate` and the memory behind it. The pointers are positions in the block; the bytes
      that hold them, and those that hold the other fields, are not modelled. */
  class Table {
    const mem: array<byte>
    const pointers: array<nat>
    var name: Text
    var tableX: nat
    var tableY: nat
    var memNum: nat
    var colwidth: nat
    var relLineNum: nat
    var data: nat
    ghost var grid: Grid

    ghost predicate Valid()
      reads this, mem, pointers
    {
      && Sound(grid) && grid.w == tableX <= INT_MAX && grid.h == tableY <= INT_MAX && grid.cw == colwidth
      && relLineNum == Width(grid) && data == TextStart(tableX, tableY)
      && PointersTo(pointers[..], data, relLineNum, colwidth + 1, tableX, tableY, tableY)
      && Shows(mem[..], data, grid)
    }

    constructor (mem: array<byte>, n: nat)
      ensures this.mem == mem && fresh(pointers) && pointers.Length == n
    {
      this.mem := mem;
      pointers := new nat[n];
    }
  }

  lemma EmptyGridIsSound(x: nat, y: nat, colwidth: nat, title: Text)
    requires |title| <= MAX_TABLE_NAME && TitleAccepted(|title|, x, colwidth)
             && !(x == 1 && colwidth == 0 && title == [])
    ensures Sound(EmptyGrid(x, y, colwidth, title))
    ensures forall i :: 0 <= i < Times(x, y) ==> EmptyGrid(x, y, colwidth, title).cells[i] == Repeat(SPACE, colwidth)
  {
    TitleLineIsWide(|title|, x, colwidth);
  }

  /** `s_table_tableinit`: the five phases. Of the block, only the text and the NUL behind it are written. */
  method TableInit(t: Table)
    requires t.relLineNum == LineWidth(t.tableX, t.colwidth) && t.tableX <= INT_MAX && t.tableY <= INT_MAX
    requires TitleAccepted(|t.name|, t.tableX, t.colwidth)
    requires WritesFit(|t.name|, t.tableX, t.tableY, t.colwidth, t.mem.Length)
    requires t.pointers.Length == Times(t.tableX, t.tableY)
    modifies t`data, t`grid, t.mem, t.pointers
    ensures t.Valid() && t.grid == EmptyGrid(t.tableX, t.tableY, t.colwidth, t.name)
    ensures SameOutside(old(t.mem[..]), t.mem[..], t.data, Needed(t.tableX, t.tableY, t.colwidth))
  {
    var w, h, cw, width := t.tableX, t.tableY, t.colwidth, t.relLineNum;
    t.grid := EmptyGrid(w, h, cw, t.name);
    EmptyGridIsSound(w, h, cw, t.name);
    hide LineWidth, Times, LineAt, BlankLine, Barred, Bar, PointersTo, Shows, Sound, TitleAccepted, SameOutside;
    var start := TextStart(w, h);
    ghost var s0, end := t.mem[..], Needed(w, h, cw);
    DrawLines(t.mem, start, width, 2 * h + 3);
    ghost var s1 := t.mem[..];
    DrawBars(t.mem, start, width, 2 * h + 3, cw + 1);
    ghost var s2 := t.mem[..];
    DrawTitle(t.mem, start, width, t.name, t.grid);
    SameThrice(s0, s1, s2, t.mem[..], start, end);
    SetPointers(t.pointers, start, width, cw + 1, w, h);
    t.data := start;
  }

  lemma SameThrice(a: seq<byte>, b: seq<byte>, c: seq<byte>, d: seq<byte>, from: nat, to: nat)
    requires SameOutside(a, b, from, to) && SameOutside(b, c, from, to) && SameOutside(c, d, from, to)
    ensures SameOutside(a, d, from, to)
  {
  }

  /** `s_table_create` in a block of `num` bytes. An accepted table must have room for its writes;
      `WritesFitExactly` says which tables have. Nothing behind the block is written. */
  method Create(tableName: Text, x: nat, y: nat, gridWide: nat, memspace: array?<byte>, num: nat) returns (t: Table?)
    requires x <= INT_MAX && y <= INT_MAX && (memspace != null ==> num <= memspace.Length)
    requires memspace != null && LeastAccepted(x, y, gridWide) <= num && TitleAccepted(|tableName|, x, gridWide)
             ==> WritesFit(|tableName|, x, y, gridWide, num)
    modifies memspace
    ensures t == null <==>
              memspace == null || num < LeastAccepted(x, y, gridWide) || !TitleAccepted(|tableName|, x, gridWide)
    ensures t != null ==>
              && fresh(t) && fresh(t.pointers) && t.mem == memspace && t.Valid()
                && t.grid == EmptyGrid(x, y, gridWide, tableName)
    ensures memspace != null ==> memspace[..][num..] == old(memspace[..])[num..]
  {
    if memspace == null {
      return null;
    }
    if num < LeastAccepted(x, y, gridWide) {
      return null;
    }
    hide Times, LineWidth, Sound, SameOutside, Splice;
    ghost var s0 := memspace[..];
    MemSet(memspace, 0, 0, num);
    ghost var s1 := memspace[..];
    SpliceTail(s0, 0, Repeat(0, num), num);
    t := new Table(memspace, Times(x, y));
    t.tableX, t.tableY, t.memNum, t.colwidth := x, y, num, gridWide;
    t.relLineNum := LineWidth(x, gridWide);
    if |tableName| - 1 > MAX_TABLE_NAME || |tableName| - 1 > t.relLineNum - 5 {
      return null;
    }
    t.name := tableName;
    TableInit(t);
    SameTail(s1, memspace[..], t.data, Needed(x, y, gridWide), num);
  }

  lemma SpliceTail(s: seq<byte>, at: nat, t: seq<byte>, num: nat)
    requires at + |t| <= num <= |s|
    ensures Splice(s, at, t)[num..] == s[num..]
  {
  }

  lemma SameTail(s: seq<byte>, t: seq<byte>, from: nat, to: nat, num: nat)
    requires SameOutside(s, t, from, to) && to <= num <= |s|
    ensures s[num..] == t[num..]
  {
    assert s[num..] == s[to..][num - to..] && t[num..] == t[to..][num - to..];
  }

  // ----- Setting a value ---------------------------------------------------

  /** A value in its cell: blanks behind it up to the width of the column. */
  function Padded(v: Text, cw: nat): (r: Text)
    requires |v| <= cw
    ensures |r| == cw
  {
    v + Repeat(SPACE, cw - |v|)
  }

  /** There is a cell (x, y), and the value is not too long for it. */
  predicate CanSet(g: Grid, x: nat, y: nat, v: Text) {
    x < g.w && y < g.h && |v| <= g.cw
  }

  /** The grid with value `v` in cell (x, y), if that can be. */
  ghost function SetCell(g: Grid, x: nat, y: nat, v: Text): (r: Grid)
    requires Sound(g)
    ensures Sound(r) && r.w == g.w && r.h == g.h && r.cw == g.cw && r.title == g.title
  {
    if CanSet(g, x, y, v) then
      IndexInRange(g.w, g.h, x, y);
      g.(cells := g.cells[Index(g.h, x, y) := Padded(v, g.cw)])
    else g
  }

  lemma RowStep(g: Grid, y: nat, a: nat)
    requires Sound(g) && y < g.h && a < g.w
    ensures Index(g.h, a, y) < |g.cells| && |g.cells[Index(g.h, a, y)]| == g.cw
    ensures RowFrom(g, y, a) == [BAR] + g.cells[Index(g.h, a, y)] + RowFrom(g, y, a + 1)
  {
    IndexInRange(g.w, g.h, a, y);
  }

  /** Setting a cell changes this cell only. */
  lemma CellOf(g: Grid, x: nat, y: nat, v: Text, a: nat, b: nat)
    requires Sound(g) && CanSet(g, x, y, v) && a < g.w && b < g.h
    ensures Index(g.h, a, b) < |g.cells| == |SetCell(g, x, y, v).cells|
    ensures SetCell(g, x, y, v).cells[Index(g.h, a, b)]
         == if a == x && b == y then Padded(v, g.cw) else g.cells[Index(g.h, a, b)]
  {
    IndexInRange(g.w, g.h, a, b);
    IndexIsInjective(g.h, a, b, x, y);
  }

  /** The cells of a row without the changed cell. */
  lemma {:induction false} SameCells(g: Grid, x: nat, y: nat, v: Text, a: nat, b: nat)
    requires Sound(g) && CanSet(g, x, y, v) && a <= g.w && b < g.h && (b != y || a > x)
    ensures RowFrom(SetCell(g, x, y, v), b, a) == RowFrom(g, b, a)
    decreases g.w - a
  {
    if a < g.w {
      hide RowFrom, SetCell, Index, Sound;
      RowStep(g, b, a);
      RowStep(SetCell(g, x, y, v), b, a);
      CellOf(g, x, y, v, a, b);
      SameCells(g, x, y, v, a + 1, b);
    }
  }

  /** The cells of the row with the changed cell. */
  lemma {:induction false} ChangedCell(g: Grid, x: nat, y: nat, v: Text, a: nat)
    requires Sound(g) && CanSet(g, x, y, v) && a <= x
    ensures Times(g.cw + 1, x - a) + 1 + g.cw <= |RowFrom(g, y, a)|
    ensures RowFrom(SetCell(g, x, y, v), y, a) == Splice(RowFrom(g, y, a), Times(g.cw + 1, x - a) + 1, Padded(v, g.cw))
    decreases g.w - a
  {
    hide RowFrom, SetCell, Index, Sound, Times, Splice, Padded;
    var n, g' := g.cw + 1, SetCell(g, x, y, v);
    RowStep(g, y, a);
    RowStep(g', y, a);
    CellOf(g, x, y, v, a, y);
    if a == x {
      SameCells(g, x, y, v, a + 1, y);
      NoLines(n);
      SpliceCell(BAR, g.cells[Index(g.h, a, y)], RowFrom(g, y, a + 1), Padded(v, g.cw));
    } else {
      ChangedCell(g, x, y, v, a + 1);
      NextLine(n, x - (a + 1));
      SpliceBehind([BAR] + g.cells[Index(g.h, a, y)], RowFrom(g, y, a + 1), Times(n, x - (a + 1)) + 1, Padded(v, g.cw));
    }
  }

  lemma SpliceCell(bar: byte, cell: Text, rest: Text, v: Text)
    requires |v| == |cell|
    ensures Splice([bar] + cell + rest, 1, v) == [bar] + v + rest
  {
  }

  lemma SpliceBehind(a: seq<byte>, b: seq<byte>, c: nat, t: seq<byte>)
    requires c + |t| <= |b|
    ensures Splice(a + b, |a| + c, t) == a + Splice(b, c, t)
  {
  }

  lemma SpliceBefore(a: seq<byte>, b: seq<byte>, c: nat, t: seq<byte>)
    requires c + |t| <= |a|
    ensures Splice(a + b, c, t) == Splice(a, c, t) + b
  {
  }

  lemma SpliceTwice(s: seq<byte>, p: nat, v: Text, cw: nat)
    requires |v| <= cw && p + cw <= |s|
    ensures Splice(Splice(s, p, Repeat(SPACE, cw)), p, v) == Splice(s, p, Padded(v, cw))
  {
  }

  lemma ChangedRow(g: Grid, x: nat, y: nat, v: Text, b: nat)
    requires Sound(g) && CanSet(g, x, y, v) && b < g.h
    ensures Times(g.cw + 1, x) + 1 + g.cw <= Width(g)
    ensures RowLine(SetCell(g, x, y, v), b)
         == if b == y then Splice(RowLine(g, b), Times(g.cw + 1, x) + 1, Padded(v, g.cw)) else RowLine(g, b)
  {
    ChangedCell(g, x, y, v, 0);
    hide Times, RowFrom, Sound, SetCell, Splice, Padded;
    if b == y {
      SpliceBefore(RowFrom(g, y, 0), [BAR, SPACE, LF], Times(g.cw + 1, x) + 1, Padded(v, g.cw));
    } else {
      SameCells(g, x, y, v, 0, b);
    }
  }

  lemma SameTitle(g: Grid, g': Grid)
    requires Sound(g) && Sound(g') && g'.w == g.w && g'.cw == g.cw && g'.title == g.title
    ensures TitleLine(g') == TitleLine(g) && Border(g') == Border(g)
  {
  }

  /** Every line of the changed grid. */
  lemma ChangedLine(g: Grid, x: nat, y: nat, v: Text, l: nat)
    requires Sound(g) && CanSet(g, x, y, v) && l < 2 * g.h + 3
    ensures Times(g.cw + 1, x) + 1 + g.cw <= Width(g)
    ensures Line(SetCell(g, x, y, v), l)
         == if l == 2 * y + 3 then Splice(Line(g, l), Times(g.cw + 1, x) + 1, Padded(v, g.cw)) else Line(g, l)
  {
    hide Times, RowLine, TitleLine, Border, Sound, SetCell, Splice, Padded, LineWidth;
    ChangedRow(g, x, y, v, if l % 2 == 1 && l > 1 then (l - 3) / 2 else y);
    SameTitle(g, SetCell(g, x, y, v));
  }

  /** Writing a value over its cell shows the changed grid: no border, no line break and no other
      cell is touched. */
  lemma SetShows(s: seq<byte>, start: nat, g: Grid, x: nat, y: nat, v: Text, p: nat)
    requires Shows(s, start, g) && CanSet(g, x, y, v) && p == CellStart(start, Width(g), g.cw + 1, x, y)
    ensures p + g.cw <= |s| && Shows(Splice(Splice(s, p, Repeat(SPACE, g.cw)), p, v), start, SetCell(g, x, y, v))
  {
    SetLines(s, start, Width(g), g, x, y, v, Times(g.cw + 1, x) + 1, p);
    SpliceTwice(s, p, v, g.cw);
  }

  lemma SetLines(s: seq<byte>, start: nat, width: nat, g: Grid, x: nat, y: nat, v: Text, c: nat, p: nat)
    requires Sound(g) && width == Width(g) && CanSet(g, x, y, v) && c == Times(g.cw + 1, x) + 1
    requires start + Times(width, 2 * g.h + 3) < |s| && s[start + Times(width, 2 * g.h + 3)] == 0
    requires forall l :: 0 <= l < 2 * g.h + 3 ==> LineAt(s, start, width, l) == Line(g, l)
    requires y < g.h && |v| <= g.cw && p == start + Times(width, 2 * y + 3) + c
    ensures p + g.cw <= |s| && Shows(Splice(s, p, Padded(v, g.cw)), start, SetCell(g, x, y, v))
  {
    hide *;
    var t, g' := Padded(v, g.cw), SetCell(g, x, y, v);
    ChangedLine(g, x, y, v, 0);
    LinesInOrder(width, 2 * y + 3, 2 * g.h + 3);
    BehindSplice(s, p, t, start + Times(width, 2 * g.h + 3));
    SameWidth(g, g');
    forall l | 0 <= l < 2 * g.h + 3 ensures LineAt(Splice(s, p, t), start, width, l) == Line(g', l) {
      ChangedLine(g, x, y, v, l);
      SplicedInLine(s, start, width, 2 * y + 3, c, t, l);
    }
    AllLinesShow(Splice(s, p, t), start, g');
  }

  lemma SameWidth(g: Grid, g': Grid)
    requires g'.w == g.w && g'.cw == g.cw
    ensures Width(g') == Width(g)
  {
  }

  /** `s_table_valueset`. */
  method ValueSet(table: Table?, x: nat, y: nat, value: array?<byte>, ghost v: Text) returns (r: int)
    requires table != null ==> table.Valid()
    requires value != null ==> Holds(value, v) && (table != null ==> value != table.mem)
    modifies (if table == null then {} else {table})`grid, if table == null then {} else {table.mem}
    ensures r == if table != null && value != null && CanSet(old(table.grid), x, y, v) then 1 else 0
    ensures table != null ==> table.Valid()
    ensures table != null ==> table.grid == if value == null then old(table.grid) else SetCell(old(table.grid), x, y, v)
  {
    if table == null || value == null {
      return 0;
    }
    if x >= table.tableX || y >= table.tableY {
      return 0;
    }
    var len := StrLen(value, v);
    if len > table.colwidth {
      return 0;
    }
    hide Splice, Padded, LineAt, Line, Times, Sound, LineWidth, SetCell, Shows, Holds, Index;
    IndexInRange(table.tableX, table.tableY, x, y);
    SetShows(table.mem[..], table.data, table.grid, x, y, v, table.pointers[Index(table.tableY, x, y)]);
    var p := table.pointers[Index(table.tableY, x, y)];
    MemSet(table.mem, p, SPACE, table.colwidth);
    CopyValue(table.mem, p, value, len, v);
    table.grid := SetCell(table.grid, x, y, v);
    return 1;
  }

  /** `memcpy(p, value, strlen(value))`. */
  method CopyValue(mem: array<byte>, p: nat, value: array<byte>, len: nat, ghost v: Text)
    requires Holds(value, v) && len == |v| && p + len <= mem.Length && value != mem
    modifies mem
    ensures mem[..] == Splice(old(mem[..]), p, v)
  {
    forall k | p <= k < p + len {
      mem[k] := value[k - p];
    }
  }

  // ----- Setting a row or a column -----------------------------------------

  /** Where the value that starts at `i` ends: at a separator, or at the NUL. */
  function TokenEnd(vs: Text, i: nat, separ: byte): (k: nat)
    requires i <= |vs|
    ensures i <= k <= |vs| && (At(vs, k) == separ || At(vs, k) == 0 || k == |vs|)
    ensures forall j :: i <= j < k ==> vs[j] != separ && vs[j] != 0
    decreases |vs| - i
  {
    if i == |vs| || vs[i] == separ || vs[i] == 0 then i else TokenEnd(vs, i + 1, separ)
  }

  /** Behind the separators at `k`, of which there may be several. */
  function BehindSeparators(vs: Text, k: nat, separ: byte): (n: nat)
    requires k <= |vs|
    ensures k <= n <= |vs| && (n < |vs| ==> vs[n] != separ)
    decreases |vs| - k
  {
    if k < |vs| && vs[k] == separ then BehindSeparators(vs, k + 1, separ) else k
  }

  function Token(vs: Text, i: nat, separ: byte): Text
    requires i <= |vs|
  {
    vs[i..TokenEnd(vs, i, separ)]
  }

  function NextToken(vs: Text, i: nat, separ: byte): (n: nat)
    requires i <= |vs|
    ensures i <= n <= |vs|
  {
    BehindSeparators(vs, TokenEnd(vs, i, separ), separ)
  }

  /** `s_table_values_get`: -1 stands for the null pointer. */
  method ValuesGet(values: array<byte>, at: nat, separ: byte, value: array<byte>, ghost vs: Text) returns (next: int)
    requires Holds(values, vs) && at <= |vs| && separ != 0 && values != value && |Token(vs, at, separ)| < value.Length
    modifies value
    ensures Holds(value, Token(vs, at, separ))
    ensures next == if NextToken(vs, at, separ) == |vs| then -1 else NextToken(vs, at, separ)
  {
    var i := at;
    HeldByte(values, vs, i);
    while values[i] != separ && values[i] != 0
      invariant at <= i <= |vs| && Holds(values, vs) && TokenEnd(vs, i, separ) == TokenEnd(vs, at, separ)
      invariant value[..i - at] == vs[at..i]
      decreases |vs| - i
    {
      HeldByte(values, vs, i);
      value[i - at] := values[i];
      i := i + 1;
    }
    HeldByte(values, vs, i);
    value[i - at] := 0;
    while values[i] == separ
      invariant at <= i <= |vs| && Holds(values, vs) && Holds(value, Token(vs, at, separ))
      invariant BehindSeparators(vs, i, separ) == NextToken(vs, at, separ)
      decreases |vs| - i
    {
      HeldByte(values, vs, i);
      i := i + 1;
    }
    HeldByte(values, vs, i);
    if values[i] == 0 {
      return -1;
    }
    return i;
  }

  /** An `int` passed for an `unsigned int`. */
  function Unsigned(n: int): (u: nat)
    requires INT_MIN <= n <= INT_MAX
  {
    if n < 0 then n + 0x1_0000_0000 else n
  }

  /** What `s_table_valuesetxs_ex` does to the grid, and its result: it goes along a column if `down`,
      else along a row, from the cell with number `s`. */
  ghost function SetTokens(g: Grid, xy: int, s: int, vs: Text, i: nat, separ: byte, down: bool): (r: (Grid, nat))
    requires Sound(g) && i <= |vs| && INT_MIN <= xy <= INT_MAX && INT_MIN <= s && g.w <= INT_MAX && g.h <= INT_MAX
    ensures Sound(r.0) && r.0.w == g.w && r.0.h == g.h && r.0.cw == g.cw && r.0.title == g.title
    decreases (if down then g.h else g.w) - s
  {
    if s >= if down then g.h else g.w then (g, 0)
    else
      var v := Token(vs, i, separ);
      var x, y := Unsigned(if down then xy else s), Unsigned(if down then s else xy);
      if !CanSet(g, x, y, v) then (g, 0)
      else
        var g' := SetCell(g, x, y, v);
        if NextToken(vs, i, separ) == |vs| then (g', 1)
        else
          var r := SetTokens(g', xy, s + 1, vs, NextToken(vs, i, separ), separ, down);
          (r.0, r.1 + 1)
  }

  /** The cell that is set for number `s`. */
  function Target(xy: int, s: int, down: bool): (nat, nat)
    requires INT_MIN <= xy <= INT_MAX && INT_MIN <= s <= INT_MAX
  {
    if down then (Unsigned(xy), Unsigned(s)) else (Unsigned(s), Unsigned(xy))
  }

  /** After `sum` cells have been set, what is left to do leads to the result `all`. */
  ghost predicate Remaining(all: (Grid, nat), g: Grid, sum: nat, xy: int, s: int, vs: Text, i: nat, separ: byte,
                            down: bool) {
    && Sound(g) && i <= |vs| && INT_MIN <= xy <= INT_MAX && INT_MIN <= s && g.w <= INT_MAX && g.h <= INT_MAX
    && var r := SetTokens(g, xy, s, vs, i, separ, down);
       all == (r.0, sum + r.1)
  }

  /** One value: it does not fit or has no cell, or it is the last, or there is more to do. */
  lemma RemainingStep(all: (Grid, nat), g: Grid, sum: nat, xy: int, s: int, vs: Text, i: nat, separ: byte, down: bool)
    requires Remaining(all, g, sum, xy, s, vs, i, separ, down) && s < if down then g.h else g.w
    ensures var v, c := Token(vs, i, separ), Target(xy, s, down);
            var g', n := SetCell(g, c.0, c.1, v), NextToken(vs, i, separ);
            if !CanSet(g, c.0, c.1, v) then g' == g && all == (g, sum)
            else if n == |vs| then all == (g', sum + 1)
            else Remaining(all, g', sum + 1, xy, s + 1, vs, n, separ, down)
  {
    hide Token, NextToken;
  }

  lemma NothingRemains(all: (Grid, nat), g: Grid, sum: nat, xy: int, s: int, vs: Text, i: nat, separ: byte, down: bool)
    requires Remaining(all, g, sum, xy, s, vs, i, separ, down) && s >= if down then g.h else g.w
    ensures all == (g, sum)
  {
  }

  /** A value that is read fits, and so do those behind it if it is not the last. */
  lemma TokensFitStep(g: Grid, xy: int, s: int, vs: Text, i: nat, separ: byte, down: bool)
    requires i <= |vs| && INT_MIN <= xy <= INT_MAX && INT_MIN <= s && g.w <= INT_MAX && g.h <= INT_MAX && Sound(g)
    requires TokensFit(g, xy, s, vs, i, separ, down) && s < if down then g.h else g.w
    ensures var v, c := Token(vs, i, separ), Target(xy, s, down);
            && |v| <= MAX_COLWIDTH
            && (CanSet(g, c.0, c.1, v) && NextToken(vs, i, separ) < |vs| ==>
                  TokensFit(SetCell(g, c.0, c.1, v), xy, s + 1, vs, NextToken(vs, i, separ), separ, down))
  {
    hide Token, NextToken, SetCell;
    var v, c := Token(vs, i, separ), Target(xy, s, down);
    if CanSet(g, c.0, c.1, v) && NextToken(vs, i, separ) < |vs| {
      TokensFitSameSize(g, SetCell(g, c.0, c.1, v), xy, s + 1, vs, NextToken(vs, i, separ), separ, down);
    }
  }

  method SetNext(table: Table, xy: int, s: int, tmpValue: array<byte>, down: bool, ghost v: Text) returns (ret: int)
    requires table.Valid() && Sound(table.grid) && Holds(tmpValue, v) && tmpValue != table.mem
    requires INT_MIN <= xy <= INT_MAX && INT_MIN <= s <= INT_MAX
    modifies table`grid, table.mem
    ensures table.Valid()
    ensures var c := Target(xy, s, down);
            && ret == (if CanSet(old(table.grid), c.0, c.1, v) then 1 else 0)
            && table.grid == SetCell(old(table.grid), c.0, c.1, v)
  {
    hide SetCell, CanSet, Holds, Sound;
    if down {
      ret := ValueSet(table, Unsigned(xy), Unsigned(s), tmpValue, v);
    } else {
      ret := ValueSet(table, Unsigned(s), Unsigned(xy), tmpValue, v);
    }
  }

  /** Every value that is read fits into the buffer for one of them. */
  ghost predicate TokensFit(g: Grid, xy: int, s: int, vs: Text, i: nat, separ: byte, down: bool)
    requires i <= |vs| && INT_MIN <= xy <= INT_MAX && INT_MIN <= s && g.w <= INT_MAX && g.h <= INT_MAX
    decreases (if down then g.h else g.w) - s
  {
    s < (if down then g.h else g.w) ==>
      var v, c := Token(vs, i, separ), Target(xy, s, down);
      && |v| <= MAX_COLWIDTH
      && (CanSet(g, c.0, c.1, v) && NextToken(vs, i, separ) < |vs| ==>
            TokensFit(g, xy, s + 1, vs, NextToken(vs, i, separ), separ, down))
  }

  /** Only the size of the grid matters. */
  lemma {:induction false} TokensFitSameSize(g: Grid, g': Grid, xy: int, s: int, vs: Text, i: nat, separ: byte,
                                             down: bool)
    requires i <= |vs| && INT_MIN <= xy <= INT_MAX && INT_MIN <= s && g.w <= INT_MAX && g.h <= INT_MAX
    requires TokensFit(g, xy, s, vs, i, separ, down) && g'.w == g.w && g'.h == g.h && g'.cw == g.cw
    ensures TokensFit(g', xy, s, vs, i, separ, down)
    decreases (if down then g.h else g.w) - s
  {
    hide Token, NextToken;
    if s < if down then g.h else g.w {
      var v, c := Token(vs, i, separ), Target(xy, s, down);
      if CanSet(g, c.0, c.1, v) && NextToken(vs, i, separ) < |vs| {
        TokensFitSameSize(g, g', xy, s + 1, vs, NextToken(vs, i, separ), separ, down);
      }
    }
  }

  /** `s_table_valuesetxs_ex`. */
  method ValueSetMany(table: Table, xy: int, s0: int, values: array<byte>, separ: byte, down: bool, ghost vs: Text)
    returns (sum: nat)
    requires table.Valid() && Holds(values, vs) && values != table.mem && separ != 0
    requires INT_MIN <= xy <= INT_MAX && INT_MIN <= s0 <= INT_MAX && TokensFit(table.grid, xy, s0, vs, 0, separ, down)
    modifies table`grid, table.mem
    ensures table.Valid()
    ensures (table.grid, sum) == SetTokens(old(table.grid), xy, s0, vs, 0, separ, down)
  {
    hide SetTokens, SetCell, CanSet, Token, NextToken, TokensFit, Holds, Splice;
    assert Sound(table.grid) && table.grid.w == table.tableX <= INT_MAX && table.grid.h == table.tableY <= INT_MAX;
    sum := 0;
    ghost var all := SetTokens(table.grid, xy, s0, vs, 0, separ, down);
    assert Remaining(all, table.grid, 0, xy, s0, vs, 0, separ, down);
    var tmpValue := new byte[MAX_COLWIDTH + 1](_ => 0);
    var wide := if down then table.tableY else table.tableX;
    hide *;
    var s, at := s0, 0;
    while s < wide
      invariant table.Valid() && Sound(table.grid) && Holds(values, vs) && 0 <= at <= |vs| && s0 <= s
      invariant wide == (if down then table.grid.h else table.grid.w) && table.grid.w <= INT_MAX
                && table.grid.h <= INT_MAX
      invariant TokensFit(table.grid, xy, s, vs, at, separ, down)
      invariant Remaining(all, table.grid, sum, xy, s, vs, at, separ, down)
    {
      RemainingStep(all, table.grid, sum, xy, s, vs, at, separ, down);
      TokensFitStep(table.grid, xy, s, vs, at, separ, down);
      MemSet(tmpValue, 0, 0, MAX_COLWIDTH + 1);
      var next := ValuesGet(values, at, separ, tmpValue, vs);
      var ret := SetNext(table, xy, s, tmpValue, down, Token(vs, at, separ));
      if ret == 0 {
        return;
      }
      sum := sum + ret;
      if next == -1 {
        return;
      }
      at, s := next, s + 1;
    }
    NothingRemains(all, table.grid, sum, xy, s, vs, at, separ, down);
  }

  /** `s_table_valuesetxs`: along row `x` of the table, from its column `s`. */
  method ValueSetXs(table: Table, x: int, s: int, values: array<byte>, separ: byte, ghost vs: Text) returns (sum: nat)
    requires table.Valid() && Holds(values, vs) && values != table.mem && separ != 0
    requires INT_MIN <= x <= INT_MAX && INT_MIN <= s <= INT_MAX && TokensFit(table.grid, x, s, vs, 0, separ, false)
    modifies table`grid, table.mem
    ensures table.Valid() && (table.grid, sum) == SetTokens(old(table.grid), x, s, vs, 0, separ, false)
  {
    sum := ValueSetMany(table, x, s, values, separ, false, vs);
  }

  /** `s_table_valuesetys`: along column `y` of the table, from its row `s`. */
  method ValueSetYs(table: Table, y: int, s: int, values: array<byte>, separ: byte, ghost vs: Text) returns (sum: nat)
    requires table.Valid() && Holds(values, vs) && values != table.mem && separ != 0
    requires INT_MIN <= y <= INT_MAX && INT_MIN <= s <= INT_MAX && TokensFit(table.grid, y, s, vs, 0, separ, true)
    modifies table`grid, table.mem
    ensures table.Valid() && (table.grid, sum) == SetTokens(old(table.grid), y, s, vs, 0, separ, true)
  {
    sum := ValueSetMany(table, y, s, values, separ, true, vs);
  }

  /** Text `t` stands at `at`, and a NUL behind it. */
  ghost predicate StandsAt(s: seq<byte>, at: nat, t: Text) {
    at + |t| < |s| && s[at..at + |t|] == t && s[at + |t|] == 0
  }

  /** `s_table_string_get`: the position of the text, or -1 for the null pointer. The text is the
      picture of the grid, and a NUL stands behind it. */
  method StringGet(table: Table?) returns (p: int)
    requires table != null ==> table.Valid()
    ensures p == -1 <==> table == null
    ensures table != null ==>
              p == table.data && Sound(table.grid) && StandsAt(table.mem[..], table.data, Render(table.grid, 0))
  {
    if table == null {
      return -1;
    }
    hide *;
    TextIsShown(table);
    WholeText(table.mem[..], table.data, table.grid);
    return table.data;
  }

  lemma TextIsShown(t: Table)
    requires t.Valid()
    ensures Shows(t.mem[..], t.data, t.grid)
  {
  }

  lemma WholeText(s: seq<byte>, start: nat, g: Grid)
    requires Shows(s, start, g)
    ensures Sound(g) && StandsAt(s, start, Render(g, 0))
  {
    hide LineWidth, Times, Shows, Sound, Render;
    ShownEnd(s, start, g);
    RenderIsShown(s, start, g, 0);
    NoLines(Width(g));
  }

  lemma {:induction false} RenderIsShown(s: seq<byte>, start: nat, g: Grid, l: nat)
    requires Shows(s, start, g) && l <= 2 * g.h + 3
    ensures var from, end := start + Times(Width(g), l), start + Times(Width(g), 2 * g.h + 3);
            from <= end < |s| && s[end] == 0 && s[from..end] == Render(g, l)
    decreases 2 * g.h + 3 - l
  {
    hide *;
    if l < 2 * g.h + 3 {
      ShownLine(s, start, g, l);
      NextLine(Width(g), l);
      RenderIsShown(s, start, g, l + 1);
      RenderStep(g, l);
      Slices(s, start + Times(Width(g), l), start + Times(Width(g), l) + Width(g),
             start + Times(Width(g), 2 * g.h + 3));
    } else {
      ShownEnd(s, start, g);
    }
  }

  lemma ShownEnd(s: seq<byte>, start: nat, g: Grid)
    requires Shows(s, start, g)
    ensures Sound(g) && Render(g, 2 * g.h + 3) == []
    ensures start + Times(Width(g), 2 * g.h + 3) < |s| && s[start + Times(Width(g), 2 * g.h + 3)] == 0
  {
  }

  lemma Slices(s: seq<byte>, a: nat, b: nat, c: nat)
    requires a <= b <= c <= |s|
    ensures s[a..c] == s[a..b] + s[b..c]
  {
  }

  lemma ShownLine(s: seq<byte>, start: nat, g: Grid, l: nat)
    requires Shows(s, start, g) && l < 2 * g.h + 3
    ensures Sound(g) && start + Times(Width(g), l) + Width(g) <= |s|
    ensures s[start + Times(Width(g), l)..start + Times(Width(g), l) + Width(g)] == Line(g, l)
  {
    LinesInOrder(Width(g), l, 2 * g.h + 3);
    hide Times, Line, Sound, LineWidth;
    assert LineAt(s, start, Width(g), l) == Line(g, l);
  }

  lemma RenderStep(g: Grid, l: nat)
    requires Sound(g) && l < 2 * g.h + 3
    ensures Render(g, l) == Line(g, l) + Render(g, l + 1)
  {
    hide Line, Sound;
  }

  // ----- What the operations mean ------------------------------------------

  /** The bytes of different cells are apart. */
  lemma CellsAreApart(data: nat, g: Grid, x: nat, y: nat, x': nat, y': nat)
    requires x < g.w && y < g.h && x' < g.w && y' < g.h && (x, y) != (x', y')
    ensures var c, c' := CellStart(data, Width(g), g.cw + 1, x, y), CellStart(data, Width(g), g.cw + 1, x', y');
            c + g.cw <= c' || c' + g.cw <= c
  {
    var n, width := g.cw + 1, Width(g);
    CellsInLine(g.w, n, x);
    CellsInLine(g.w, n, x');
    if y < y' {
      LinesInOrder(width, 2 * y + 3, 2 * y' + 3);
    } else if y' < y {
      LinesInOrder(width, 2 * y' + 3, 2 * y + 3);
    } else if x < x' {
      LinesInOrder(n, x, x');
    } else {
      LinesInOrder(n, x', x);
    }
  }

  lemma CellsInLine(w: nat, n: nat, x: nat)
    requires x < w
    ensures Times(n, x) + n <= Times(n, w)
  {
    LinesInOrder(n, x, w);
  }

  /** No byte of a cell is in a border or in the title line, and in its own line none is a bar or
      belongs to the line break. */
  lemma CellsAvoidBorders(data: nat, g: Grid, x: nat, y: nat, k: nat)
    requires x < g.w && y < g.h && k < g.cw
    ensures var l, c := 2 * y + 3, Times(g.cw + 1, x) + 1 + k;
            && CellStart(data, Width(g), g.cw + 1, x, y) + k == data + Times(Width(g), l) + c
            && 1 < l < 2 * g.h + 3 && l % 2 == 1 && c % (g.cw + 1) != 0 && c < Width(g) - 2
  {
    CellsInLine(g.w, g.cw + 1, x);
    ModUnique(Times(g.cw + 1, x) + 1 + k, g.cw + 1, x, 1 + k);
  }

  /** Where the `n`th value of a list starts, if there is one. */
  ghost function TokenStart(vs: Text, i: nat, separ: byte, n: nat): (r: nat)
    requires i <= |vs|
    ensures r <= |vs|
    decreases n
  {
    if n == 0 then i else TokenStart(vs, NextToken(vs, i, separ), separ, n - 1)
  }

  /** The number that `s_table_valuesetxs_ex` returns counts the cells that it sets, all of them cells
      of the table; and it stops because there is no further cell, no further value, or because the
      next value has no cell or is too long for it. */
  lemma {:induction false} CountIsExact(g: Grid, xy: int, s: int, vs: Text, i: nat, separ: byte, down: bool)
    requires Sound(g) && i <= |vs| && INT_MIN <= xy <= INT_MAX && INT_MIN <= s && g.w <= INT_MAX && g.h <= INT_MAX
    ensures var n, wide := SetTokens(g, xy, s, vs, i, separ, down).1, if down then g.h else g.w;
            && (n > 0 ==> 0 <= s && s + n <= wide && 0 <= xy < if down then g.w else g.h)
            && (s + n >= wide
                || (n > 0 && NextToken(vs, TokenStart(vs, i, separ, n - 1), separ) == |vs|)
                || var c := Target(xy, s + n, down);
                   !CanSet(g, c.0, c.1, Token(vs, TokenStart(vs, i, separ, n), separ)))
    decreases (if down then g.h else g.w) - s
  {
    hide Token, NextToken;
    if s < if down then g.h else g.w {
      var v, c := Token(vs, i, separ), Target(xy, s, down);
      if CanSet(g, c.0, c.1, v) && NextToken(vs, i, separ) != |vs| {
        var g' := SetCell(g, c.0, c.1, v);
        CountIsExact(g', xy, s + 1, vs, NextToken(vs, i, separ), separ, down);
      }
    }
  }

  /** The number that `s_table_valuesetxs_ex` returns counts the cells that it sets: consecutive cells
      of one row or column hold consecutive values, and all other cells are as they were. */
  lemma {:induction false} CountIsCellsSet(g: Grid, xy: int, s: int, vs: Text, i: nat, separ: byte, down: bool,
                                           x: nat, y: nat)
    requires Sound(g) && i <= |vs| && INT_MIN <= xy <= INT_MAX && INT_MIN <= s && g.w <= INT_MAX && g.h <= INT_MAX
    requires x < g.w && y < g.h
    ensures var r := SetTokens(g, xy, s, vs, i, separ, down);
            var k := (if down then y else x) - s;
            && Index(g.h, x, y) < |g.cells| && |r.0.cells| == |g.cells|
            && if (if down then x else y) == xy && 0 <= k < r.1 then
                 var v := Token(vs, TokenStart(vs, i, separ, k), separ);
                 |v| <= g.cw && r.0.cells[Index(g.h, x, y)] == Padded(v, g.cw)
               else r.0.cells[Index(g.h, x, y)] == g.cells[Index(g.h, x, y)]
    decreases (if down then g.h else g.w) - s
  {
    hide Token, NextToken, Times, Padded, Index;
    IndexInRange(g.w, g.h, x, y);
    if s < if down then g.h else g.w {
      var v, c := Token(vs, i, separ), Target(xy, s, down);
      if CanSet(g, c.0, c.1, v) {
        IndexIsInjective(g.h, x, y, c.0, c.1);
        var g' := SetCell(g, c.0, c.1, v);
        if NextToken(vs, i, separ) != |vs| {
          CountIsCellsSet(g', xy, s + 1, vs, NextToken(vs, i, separ), separ, down, x, y);
        }
      }
    }
  }

  // ----- The picture, byte by byte -----------------------------------------

  /** The sizes of a table of two columns and two rows, three bytes wide each, and its longest title. */
  lemma SizesOfOne()
    ensures LineWidth(2, 3) == 11 && TextStart(2, 2) == 128 && Needed(2, 2, 3) == 206
    ensures SizeCompute(2, 2, 3) == 217 && LeastAccepted(2, 2, 3) == 164
    ensures MAX_TABLE_NAME == 64 && MAX_COLWIDTH == 32
    ensures TitleAccepted(7, 2, 3) && !TitleAccepted(8, 2, 3) && TitleAccepted(65, 99, 3) && !TitleAccepted(66, 99, 3)
  {
  }

  lemma TailOfLine(g: Grid, l: nat)
    requires Sound(g) && l < 2 * g.h + 3
    ensures var line := Line(g, l);
            line[Width(g) - 2] as char == ' ' && line[Width(g) - 1] as char == '\n'
  {
  }

  lemma {:induction false} RowByte(g: Grid, y: nat, x: nat, x': nat, k: nat)
    requires Sound(g) && y < g.h && x <= x' < g.w && k <= g.cw
    ensures var r, c := RowFrom(g, y, x), Times(g.cw + 1, x' - x) + k;
            && c < |r| && Index(g.h, x', y) < |g.cells|
            && r[c] == if k == 0 then BAR else g.cells[Index(g.h, x', y)][k - 1]
    decreases x' - x
  {
    hide RowFrom, Index, Sound, Times;
    RowStep(g, y, x);
    if x < x' {
      RowByte(g, y, x + 1, x', k);
      NextLine(g.cw + 1, x' - (x + 1));
    } else {
      NoLines(g.cw + 1);
    }
  }

  /** The borders, the bars, and what is in the cells, each at its place in its line. */
  lemma BorderByte(g: Grid, l: nat, c: nat)
    requires Sound(g) && l < 2 * g.h + 3 && l % 2 == 0 && c < Width(g) - 2
    ensures Line(g, l)[c] as char == '='
  {
  }

  lemma TimesIs(a: nat, b: nat)
    ensures Times(a, b) == b * a
  {
  }

  lemma CellByte(g: Grid, x: nat, y: nat, k: nat)
    requires Sound(g) && x < g.w && y < g.h && k <= g.cw
    ensures var line, c := Line(g, 2 * y + 3), x * (g.cw + 1) + k;
            && c < |line| && Index(g.h, x, y) < |g.cells|
            && if k == 0 then line[c] as char == '|' else line[c] == g.cells[Index(g.h, x, y)][k - 1]
    ensures Line(g, 2 * y + 3)[g.w * (g.cw + 1)] as char == '|'
  {
    hide RowFrom, Index, Sound, Times;
    RowByte(g, y, 0, x, k);
    TimesIs(g.cw + 1, x);
    TimesIs(g.cw + 1, g.w);
    assert Line(g, 2 * y + 3) == RowFrom(g, y, 0) + [BAR, SPACE, LF];
  }

  /** The title is in the middle of its line, between two bars. */
  lemma TitleByte(g: Grid, k: nat)
    requires Sound(g) && k < |g.title|
    ensures var at := 1 + (Width(g) - 2) / 2 - |g.title| / 2;
            && 2 <= at && at + k < Width(g) - 2 && Line(g, 1)[at + k] == g.title[k]
            && Line(g, 1)[0] as char == '|'
  {
    TitleFits(g);
  }

  /** A value that is set is in the text at the place of its cell, with blanks behind it. */
  lemma ValueByte(g: Grid, x: nat, y: nat, v: Text, k: nat)
    requires Sound(g) && CanSet(g, x, y, v) && k < g.cw
    ensures var line, c := Line(SetCell(g, x, y, v), 2 * y + 3), x * (g.cw + 1) + 1 + k;
            && c < |line| && if k < |v| then line[c] == v[k] else line[c] as char == ' '
  {
    CellByte(SetCell(g, x, y, v), x, y, k + 1);
    CellOf(g, x, y, v, x, y);
    hide Line, SetCell, Sound, Index;
  }

  /** The lines follow each other in the text. */
  lemma {:induction false} TextByte(g: Grid, l: nat, m: nat, c: nat)
    requires Sound(g) && l <= m < 2 * g.h + 3 && c < Width(g)
    ensures var at := Times(Width(g), m - l) + c;
            at < |Render(g, l)| && Render(g, l)[at] == Line(g, m)[c]
    decreases m - l
  {
    hide Line, Sound, Times, LineWidth;
    RenderStep(g, l);
    if l < m {
      TextByte(g, l + 1, m, c);
      NextLine(Width(g), m - (l + 1));
    } else {
      NoLines(Width(g));
    }
  }

  // ----- Lists of values ---------------------------------------------------

  /** Values with one or more separators between them. */
  ghost predicate IsList(vs: Text, i: nat, separ: byte, values: seq<Text>)
    requires i <= |vs|
    decreases |values|
  {
    values != [] ==>
      var k := i + |values[0]|;
      && k <= |vs| && vs[i..k] == values[0] && separ !in values[0] && 0 !in values[0]
      && if |values| == 1 then k == |vs|
         else
           exists n :: k < n < |vs| && (forall j :: k <= j < n ==> vs[j] == separ) && vs[n] != separ
                       && IsList(vs, n, separ, values[1..])
  }

  lemma {:induction false} TokenEndIs(vs: Text, i: nat, separ: byte, k: nat)
    requires i <= k <= |vs| && (k == |vs| || vs[k] == separ) && forall j :: i <= j < k ==> vs[j] != separ && vs[j] != 0
    ensures TokenEnd(vs, i, separ) == k
    decreases k - i
  {
    if i < k {
      TokenEndIs(vs, i + 1, separ, k);
    }
  }

  lemma {:induction false} BehindIs(vs: Text, k: nat, separ: byte, n: nat)
    requires k <= n <= |vs| && (n < |vs| ==> vs[n] != separ) && forall j :: k <= j < n ==> vs[j] == separ
    ensures BehindSeparators(vs, k, separ) == n
    decreases n - k
  {
    if k < n {
      BehindIs(vs, k + 1, separ, n);
    }
  }

  /** The first value of a list. */
  lemma FirstOfList(vs: Text, i: nat, separ: byte, values: seq<Text>) returns (n: nat)
    requires i <= |vs| && IsList(vs, i, separ, values) && values != []
    ensures Token(vs, i, separ) == values[0] && n == NextToken(vs, i, separ) <= |vs|
    ensures if |values| == 1 then n == |vs| else n < |vs| && IsList(vs, n, separ, values[1..])
  {
    var k := i + |values[0]|;
    forall j | i <= j < k ensures vs[j] != separ && vs[j] != 0 {
      assert vs[j] == vs[i..k][j - i];
    }
    if |values| == 1 {
      n := k;
    } else {
      n :| k < n < |vs| && (forall j :: k <= j < n ==> vs[j] == separ) && vs[n] != separ
           && IsList(vs, n, separ, values[1..]);
    }
    TokenEndIs(vs, i, separ, k);
    BehindIs(vs, k, separ, n);
  }

  /** The `n`th value of a list is the `n`th one that is read, and behind the last one nothing is left. */
  lemma {:induction false} ListIsRead(vs: Text, i: nat, separ: byte, values: seq<Text>, n: nat)
    requires i <= |vs| && IsList(vs, i, separ, values) && n < |values|
    ensures Token(vs, TokenStart(vs, i, separ, n), separ) == values[n]
    ensures n == |values| - 1 <==> NextToken(vs, TokenStart(vs, i, separ, n), separ) == |vs|
    decreases n
  {
    hide IsList, Token, NextToken;
    var next := FirstOfList(vs, i, separ, values);
    if n > 0 {
      ListIsRead(vs, next, separ, values[1..], n - 1);
    }
  }

  /** If all values of a list fit into the cells of a row or column of the table, as many are set as there
      are values, or cells up to the end of the table. */
  lemma {:induction false} ListIsSet(g: Grid, xy: int, s: int, vs: Text, i: nat, separ: byte, down: bool,
                                     values: seq<Text>)
    requires Sound(g) && i <= |vs| && g.w <= INT_MAX && g.h <= INT_MAX
    requires 0 <= xy < (if down then g.w else g.h) && 0 <= s <= if down then g.h else g.w
    requires values != [] && IsList(vs, i, separ, values) && forall k :: 0 <= k < |values| ==> |values[k]| <= g.cw
    ensures var left := (if down then g.h else g.w) - s;
            SetTokens(g, xy, s, vs, i, separ, down).1 == if |values| < left then |values| else left
    decreases |values|
  {
    hide IsList, Token, NextToken, SetCell, Sound;
    if s < if down then g.h else g.w {
      var next := FirstOfList(vs, i, separ, values);
      var c := if down then (xy, s) else (s, xy);
      var g' := SetCell(g, c.0, c.1, Token(vs, i, separ));
      if |values| > 1 {
        ListIsSet(g', xy, s + 1, vs, next, separ, down, values[1..]);
      }
    }
  }
}
