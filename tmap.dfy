/** The tile-map console of the graphics library
    (XGS_AVR_GFX_LIB_V010.c:2293-2409): a width by height map of tile
    indices, one byte per cell in row-major order (tile_map_ptr), and a
    cursor (g_tmap_cursor_x, g_tmap_cursor_y). Characters are bytes. */
module TileMap {
  import opened Bytes
  import opened Pixels

  /** The tile indices of the printable character set
      (XGS_AVR_GFX_LIB_V010.h:138-142). */
  const TMAP_BASE_BLANK: uint8 := 0
  const TMAP_BASE_NUMBERS: uint8 := 1
  const TMAP_BASE_PUNC: uint8 := 11
  const TMAP_BASE_LETTERS: uint8 := 13
  const TMAP_NUM_CHARACTERS: uint8 := 39

  /** ASCII codes used by the console. */
  const LF: uint8 := 0x0A
  const CR: uint8 := 0x0D
  const SPACE: uint8 := 0x20
  const COMMA: uint8 := 0x2C
  const PERIOD: uint8 := 0x2E
  const DIGIT_0: uint8 := 0x30
  const DIGIT_9: uint8 := 0x39
  const UPPER_A: uint8 := 0x41
  const UPPER_Z: uint8 := 0x5A
  const LOWER_A: uint8 := 0x61
  const LOWER_Z: uint8 := 0x7A

  predicate IsUpper(ch: uint8) {
    UPPER_A <= ch <= UPPER_Z
  }

  predicate IsDigit(ch: uint8) {
    DIGIT_0 <= ch <= DIGIT_9
  }

  /** toupper. */
  function Upper(ch: uint8): uint8 {
    if LOWER_A <= ch <= LOWER_Z then ch - 0x20 else ch
  }

  /** A character the set has a tile for, in either case. */
  predicate Printable(ch: uint8) {
    IsUpper(Upper(ch)) || IsDigit(ch) || ch == PERIOD || ch == COMMA
  }

  /** The tile of a printable character: letters from TMAP_BASE_LETTERS,
      digits from TMAP_BASE_NUMBERS, '.' and ',' from TMAP_BASE_PUNC, and
      the blank tile for anything else. */
  function Tile(ch: uint8): (t: uint8)
    ensures t < TMAP_NUM_CHARACTERS
    ensures t == TMAP_BASE_BLANK <==> !Printable(ch)
  {
    var u := Upper(ch);
    if IsUpper(u) then u - UPPER_A + TMAP_BASE_LETTERS
    else if IsDigit(u) then u - DIGIT_0 + TMAP_BASE_NUMBERS
    else if u == PERIOD then TMAP_BASE_PUNC
    else if u == COMMA then TMAP_BASE_PUNC + 1
    else TMAP_BASE_BLANK
  }

  /** The character a tile shows: the inverse of Tile. */
  function Glyph(t: uint8): uint8 {
    if TMAP_BASE_LETTERS <= t < TMAP_NUM_CHARACTERS then t - TMAP_BASE_LETTERS + UPPER_A
    else if TMAP_BASE_NUMBERS <= t < TMAP_BASE_PUNC then t - TMAP_BASE_NUMBERS + DIGIT_0
    else if t == TMAP_BASE_PUNC then PERIOD
    else if t == TMAP_BASE_PUNC + 1 then COMMA
    else SPACE
  }

  /** Every tile of the set is the tile of the character it shows. */
  lemma TileOfGlyph(t: uint8)
    requires t < TMAP_NUM_CHARACTERS
    ensures Tile(Glyph(t)) == t
  {
  }

  /** A printable character comes back upper-cased, anything else as a
      space: so the mapping ignores case and is otherwise one-to-one. */
  lemma GlyphOfTile(ch: uint8)
    ensures Glyph(Tile(ch)) == if Printable(ch) then Upper(ch) else SPACE
  {
  }

  /** The console's state as a value: the tiles and the cursor. */
  datatype Term = Term(tiles: seq<uint8>, x: int, y: int)

  /** The map has width * height cells and the cursor is on one of them. */
  predicate Fits(t: Term, w: int, h: int) {
    0 < w && 0 < h && |t.tiles| == w * h && 0 <= t.x < w && 0 <= t.y < h
  }

  /** The index of cell (x, y): x + y * width. */
  function Cell(w: int, h: int, x: int, y: int): (i: int)
    requires 0 < w && 0 <= x < w && 0 <= y < h
    ensures 0 <= i < w * h
  {
    MulLe(y, h - 1, w);
    x + y * w
  }

  /** The memcpy and memset of a scroll: rows 1 .. h - 1 move up one row
      and the last row becomes blank. */
  function Scroll(tiles: seq<uint8>, w: int, h: int): (r: seq<uint8>)
    requires 0 < w && 0 < h && |tiles| == w * h
    ensures |r| == |tiles|
  {
    var n := w * (h - 1);
    assert n + w == w * h;
    seq(|tiles|, i requires 0 <= i < |tiles| => if i < n then tiles[i + w] else TMAP_BASE_BLANK)
  }

  /** A scroll moves every cell of rows 1 .. h - 1 one row up and blanks
      the last row. */
  lemma ScrollRows(tiles: seq<uint8>, w: int, h: int, x: int, y: int)
    requires 0 < w && 0 < h && |tiles| == w * h && 0 <= x < w && 0 <= y < h
    ensures y < h - 1 ==> Scroll(tiles, w, h)[Cell(w, h, x, y)] == tiles[Cell(w, h, x, y + 1)]
    ensures y == h - 1 ==> Scroll(tiles, w, h)[Cell(w, h, x, y)] == TMAP_BASE_BLANK
  {
    if y < h - 1 {
      MulLe(y + 1, h - 1, w);
      assert (y + 1) * w == y * w + w;
    } else {
      assert y * w == w * (h - 1);
    }
  }

  /** The cursor goes to the start of the next row; past the last row it
      stays on the last row and the map scrolls. */
  function LineFeed(t: Term, w: int, h: int): (r: Term)
    requires Fits(t, w, h)
    ensures Fits(r, w, h) && r.x == 0
  {
    if t.y + 1 >= h then Term(Scroll(t.tiles, w, h), 0, h - 1)
    else Term(t.tiles, 0, t.y + 1)
  }

  /** GFX_TMap_Print_Char on the state: LF and CR feed a line; any other
      character writes its tile under the cursor, which moves right and
      wraps at the end of the row. */
  function PutChar(t: Term, w: int, h: int, ch: uint8): (r: Term)
    requires Fits(t, w, h)
    ensures Fits(r, w, h)
  {
    if ch == LF || ch == CR then LineFeed(t, w, h)
    else
      var tiles := t.tiles[Cell(w, h, t.x, t.y) := Tile(ch)];
      if t.x + 1 >= w then LineFeed(Term(tiles, t.x, t.y), w, h)
      else Term(tiles, t.x + 1, t.y)
  }

  /** GFX_TMap_Print_String on the state: every character in order. */
  function PutString(t: Term, w: int, h: int, s: seq<uint8>): (r: Term)
    requires Fits(t, w, h)
    ensures Fits(r, w, h)
    decreases |s|
  {
    if |s| == 0 then t
    else PutChar(PutString(t, w, h, s[..|s| - 1]), w, h, s[|s| - 1])
  }

  /** A string of characters that fits on the rest of the cursor's row
      appears there, tile by tile, and the cursor stops just after it. */
  lemma {:induction false} PutStringOnRow(t: Term, w: int, h: int, s: seq<uint8>)
    requires Fits(t, w, h) && t.x + |s| < w
    requires forall k :: 0 <= k < |s| ==> s[k] != LF && s[k] != CR
    ensures var r := PutString(t, w, h, s);
            r.x == t.x + |s| && r.y == t.y &&
            (forall k :: 0 <= k < |s| ==> r.tiles[Cell(w, h, t.x + k, t.y)] == Tile(s[k])) &&
            (forall i :: 0 <= i < w * h && !(Cell(w, h, t.x, t.y) <= i < Cell(w, h, t.x, t.y) + |s|) ==>
               r.tiles[i] == t.tiles[i])
    decreases |s|
  {
    if |s| > 0 {
      var init := s[..|s| - 1];
      PutStringOnRow(t, w, h, init);
      var k := |s| - 1;
      assert Cell(w, h, t.x + k, t.y) == Cell(w, h, t.x, t.y) + k;
      forall j | 0 <= j < k
        ensures Cell(w, h, t.x + j, t.y) == Cell(w, h, t.x, t.y) + j && init[j] == s[j]
      {
      }
    }
  }

  /** The characters of a C string: everything before the first NUL. */
  function Text(s: seq<uint8>): (r: seq<uint8>)
    ensures r <= s && 0 !in r
    ensures |r| < |s| ==> s[|r|] == 0
  {
    if |s| == 0 then []
    else if s[0] == 0 then []
    else [s[0]] + Text(s[1..])
  }

  /** The console: g_tile_map_width, g_tile_map_height, tile_map_ptr and
      the cursor. */
  class Console {
    const width: int
    const height: int
    const tiles: array<uint8>
    var cursorX: int
    var cursorY: int

    predicate Valid()
      reads this
    {
      0 < width && 0 < height && tiles.Length == width * height &&
      0 <= cursorX < width && 0 <= cursorY < height
    }

    function State(): Term
      reads this, tiles
    {
      Term(tiles[..], cursorX, cursorY)
    }

    /** A console over a map, with the cursor at its initial (0, 0). */
    constructor (w: int, h: int, cells: array<uint8>)
      requires 0 < w && 0 < h && cells.Length == w * h
      ensures Valid() && width == w && height == h && tiles == cells
      ensures cursorX == 0 && cursorY == 0
    {
      width, height, tiles := w, h, cells;
      cursorX, cursorY := 0, 0;
    }

    /** The overlapping memcpy moving rows 1 .. h - 1 up by one, copying
        upward, and the memset of the last row. */
    method ScrollUp()
      requires Valid()
      modifies tiles
      ensures tiles[..] == Scroll(old(tiles[..]), width, height)
    {
      ghost var before := tiles[..];
      var n := width * (height - 1);
      assert n + width == tiles.Length;
      for i := 0 to n
        invariant forall k :: 0 <= k < i ==> tiles[k] == before[k + width]
        invariant forall k :: i <= k < tiles.Length ==> tiles[k] == before[k]
      {
        tiles[i] := tiles[i + width];
      }
      for i := n to tiles.Length
        invariant forall k :: 0 <= k < n ==> tiles[k] == before[k + width]
        invariant forall k :: n <= k < i ==> tiles[k] == TMAP_BASE_BLANK
      {
        tiles[i] := TMAP_BASE_BLANK;
      }
    }

    /** The line-feed code shared by LF, CR and the end of a row. */
    method NewLine()
      requires Valid()
      modifies this, tiles
      ensures Valid() && State() == LineFeed(old(State()), width, height)
    {
      cursorX := 0;
      cursorY := cursorY + 1;
      if cursorY >= height {
        cursorY := height - 1;
        ScrollUp();
      }
    }

    /** GFX_TMap_Print_Char (XGS_AVR_GFX_LIB_V010.c:2293-2362). */
    method PrintChar(ch: uint8)
      requires Valid()
      modifies this, tiles
      ensures Valid() && State() == PutChar(old(State()), width, height, ch)
    {
      if ch == LF || ch == CR {
        NewLine();
        return;
      }
      var t := Tile(ch);
      var i := Cell(width, height, cursorX, cursorY);
      tiles[i] := t;
      if cursorX + 1 >= width {
        NewLine();
      } else {
        cursorX := cursorX + 1;
      }
    }

    /** GFX_TMap_Print_String (XGS_AVR_GFX_LIB_V010.c:2367-2373): the
        characters up to the terminating NUL, one at a time. */
    method PrintString(s: seq<uint8>)
      requires Valid() && 0 in s
      modifies this, tiles
      ensures Valid() && State() == PutString(old(State()), width, height, Text(s))
    {
      ghost var start := State();
      var i := 0;
      while s[i] != 0
        invariant 0 <= i < |s| && i <= |Text(s)| && s[..i] == Text(s)[..i]
        invariant Valid() && State() == PutString(start, width, height, s[..i])
        decreases |s| - i
      {
        PrintChar(s[i]);
        assert s[..i + 1][..i] == s[..i];
        i := i + 1;
      }
      assert s[..i] == Text(s);
    }

    /** GFX_TMap_CLS (XGS_AVR_GFX_LIB_V010.c:2377-2388): every cell gets
        tile_index and the cursor goes home. */
    method Clear(tile: uint8)
      requires Valid()
      modifies this, tiles
      ensures Valid() && cursorX == 0 && cursorY == 0
      ensures tiles[..] == Filled(old(tiles[..]), 0, width * height, tile)
    {
      for i := 0 to tiles.Length
        invariant forall k :: 0 <= k < i ==> tiles[k] == tile
      {
        tiles[i] := tile;
      }
      cursorX, cursorY := 0, 0;
    }

    /** GFX_TMap_Setcursor (XGS_AVR_GFX_LIB_V010.c:2392-2409). */
    method SetCursor(x: int, y: int)
      requires Valid()
      modifies this
      ensures Valid() && cursorX == Clamp(x, width) && cursorY == Clamp(y, height)
    {
      var cx, cy := x, y;
      if cx < 0 {
        cx := 0;
      } else if cx >= width {
        cx := width - 1;
      }
      if cy < 0 {
        cy := 0;
      } else if cy >= height {
        cy := height - 1;
      }
      cursorX, cursorY := cx, cy;
    }
  }
}
