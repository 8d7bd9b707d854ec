/**
 * CMenuModListModel: the table model of the Custom Game screen. Update copies
 * the engine's list of installed games into fixed-size character buffers,
 * one row per game, and the table reads them back through GetRows, GetColumns
 * and GetCellText.
 *
 * The source's buffers are C arrays `char modsDir[512][64]`,
 * `char modsWebSites[512][256]` and `char modsDescription[512][5][32]`; each is
 * modelled as one `array<char>` laid out row by row exactly as C stores it, so
 * row r of modsDir is the 64 characters from index r * 64 on.
 */
module ModList {
  import opened CStrings

  /** Row capacity of every buffer, the engine's limit on installed games. */
  const MAX_MODS: int := 512
  const DIR_SIZE: int := 64
  const URL_SIZE: int := 256
  /** Description slots per row; only the first COLUMNS are ever written or shown. */
  const DESC_SLOTS: int := 5
  const CELL_SIZE: int := 32
  const COLUMNS: int := 4
  /** Widest title, in colour-stripped characters, that is copied without truncation. */
  const TITLE_LIMIT: int := 31
  /** What the size column shows when the engine reports no usable size. */
  const SIZE_FALLBACK: CStr := "0.0 Mb"

  /** One entry of the engine's games list, each field as the C string it holds. */
  datatype GameInfo = GameInfo(folder: CStr, url: CStr, gameType: CStr, title: CStr, version: CStr, size: CStr)

  /**
   * The 32 bytes of a title cell as lines 132-139 write it on `cell`, where
   * `width` is the title's colour-stripped length: a wide title is copied with
   * bound 28 and the bytes 28 to 31 are then set to three dots and a NUL.
   */
  function TitleCellAsWritten(cell: seq<char>, title: CStr, width: int): (r: seq<char>)
    requires |cell| == CELL_SIZE
    ensures |r| == CELL_SIZE
  {
    if width > TITLE_LIMIT then
      Strlcpy(cell, title, CELL_SIZE - 4)[28 := '.'][29 := '.'][30 := '.'][31 := NUL]
    else
      Strlcpy(cell, title, CELL_SIZE)
  }

  /**
   * As written, a wide title leaves bytes 28, 29 and 30 of its cell set to '.'
   * and byte 31 to NUL, but the copy has already put a NUL at index 27 or
   * earlier: the cell shows at most 27 characters of the title and none of
   * the dots.
   */
  lemma WideTitleHidesEllipsis(cell: seq<char>, title: CStr, width: int)
    requires |cell| == CELL_SIZE && width > TITLE_LIMIT
    ensures TitleCellAsWritten(cell, title, width)[28..] == "...\0"
    ensures NUL in TitleCellAsWritten(cell, title, width)
    ensures TextOf(TitleCellAsWritten(cell, title, width)) == title[..Min(|title|, 27)]
  {
    var r := TitleCellAsWritten(cell, title, width);
    var k := Min(|title|, 27);
    StrlcpyText(cell, title, CELL_SIZE - 4);
    assert r[k] == NUL && r[..k] == title[..k];
    TextOfFollowedByNul(r, title[..k]);
  }

  /**
   * The title cell as the comment on line 135 intends it, which the rest of
   * the model uses: a wide title is copied with bound 29, so its first 28
   * characters are followed by the three dots.
   */
  function TitleCell(cell: seq<char>, title: CStr, width: int): (r: seq<char>)
    requires |cell| == CELL_SIZE
    ensures |r| == CELL_SIZE
  {
    if width > TITLE_LIMIT then
      Strlcpy(cell, title, CELL_SIZE - 3)[28 := '.'][29 := '.'][30 := '.'][31 := NUL]
    else
      Strlcpy(cell, title, CELL_SIZE)
  }

  /** A title whose colour-stripped width is at most 31 is shown cut to the 31 characters a cell can hold. */
  lemma NarrowTitleText(cell: seq<char>, title: CStr, width: int)
    requires |cell| == CELL_SIZE && width <= TITLE_LIMIT
    ensures NUL in TitleCell(cell, title, width)
    ensures TextOf(TitleCell(cell, title, width)) == title[..Min(|title|, TITLE_LIMIT)]
  {
    StrlcpyText(cell, title, CELL_SIZE);
  }

  /**
   * With the corrected bound a wide title keeps bytes 28 to 31 as three dots
   * and a NUL, and shows as its first 28 characters followed by "...". A
   * title of fewer than 28 characters (its width counted wide all the same)
   * shows whole, its NUL coming before the dots.
   */
  lemma WideTitleShowsEllipsis(cell: seq<char>, title: CStr, width: int)
    requires |cell| == CELL_SIZE && width > TITLE_LIMIT
    ensures TitleCell(cell, title, width)[28..] == "...\0"
    ensures NUL in TitleCell(cell, title, width)
    ensures TextOf(TitleCell(cell, title, width)) == if |title| >= 28 then title[..28] + "..." else title
  {
    var r := TitleCell(cell, title, width);
    StrlcpyText(cell, title, CELL_SIZE - 3);
    if |title| >= 28 {
      assert r[..31] == title[..28] + "...";
      TextOfFollowedByNul(r, title[..28] + "...");
    } else {
      assert r[|title|] == NUL && r[..|title|] == title;
      TextOfFollowedByNul(r, title);
    }
  }

  /** The string lines 143-145 copy into the size cell. */
  function SizeText(size: CStr): (shown: CStr)
    ensures shown == size || shown == SIZE_FALLBACK
    ensures |shown| > 0
  {
    if |size| > 0 && Atoi(size) != 0 then size else SIZE_FALLBACK
  }

  /**
   * The size cell shows the engine's size (cut to 31 characters) exactly when
   * that size is non-empty and atoi reads a non-zero number from it, and
   * "0.0 Mb" otherwise.
   */
  lemma SizeCellText(cell: seq<char>, size: CStr)
    requires |cell| == CELL_SIZE
    ensures NUL in Strlcpy(cell, SizeText(size), CELL_SIZE)
    ensures TextOf(Strlcpy(cell, SizeText(size), CELL_SIZE))
         == if |size| > 0 && Atoi(size) != 0 then size[..Min(|size|, CELL_SIZE - 1)] else SIZE_FALLBACK
  {
    StrlcpyText(cell, SizeText(size), CELL_SIZE);
  }

  /** A size with no digit from 1 to 9 in it, empty or not, shows as "0.0 Mb". */
  lemma SizeWithoutNonZeroDigitFallsBack(cell: seq<char>, size: CStr)
    requires |cell| == CELL_SIZE && NoNonZeroDigit(size)
    ensures NUL in Strlcpy(cell, SizeText(size), CELL_SIZE)
    ensures TextOf(Strlcpy(cell, SizeText(size), CELL_SIZE)) == SIZE_FALLBACK
  {
    AtoiWithoutNonZeroDigit(size);
    SizeCellText(cell, size);
  }

  /**
   * A size that is not a number, one whose first character after the white
   * space and an optional sign is not a digit ("N/A 12", "abc5"), shows as
   * "0.0 Mb".
   */
  lemma SizeWithoutLeadingDigitFallsBack(cell: seq<char>, size: CStr)
    requires |cell| == CELL_SIZE
    requires var u := AfterSign(size); |u| == 0 || !IsDigit(u[0])
    ensures NUL in Strlcpy(cell, SizeText(size), CELL_SIZE)
    ensures TextOf(Strlcpy(cell, SizeText(size), CELL_SIZE)) == SIZE_FALLBACK
  {
    AtoiWithoutLeadingDigit(size);
    SizeCellText(cell, size);
  }

  /**
   * A numeric size, one whose leading digits (after the white space and an
   * optional sign) include a digit from 1 to 9, shows as itself cut to 31
   * characters.
   */
  lemma NumericSizeShowsItself(cell: seq<char>, size: CStr)
    requires |cell| == CELL_SIZE
    requires !NoNonZeroDigit(DigitRun(AfterSign(size)))
    ensures NUL in Strlcpy(cell, SizeText(size), CELL_SIZE)
    ensures TextOf(Strlcpy(cell, SizeText(size), CELL_SIZE)) == size[..Min(|size|, CELL_SIZE - 1)]
  {
    AtoiZeroIff(size);
    SizeCellText(cell, size);
  }

  /**
   * One description cell of row i after Update, by column: the
   * type, the title, the version and the size; the fifth slot is not written.
   */
  function FormattedCell(cell: seq<char>, column: int, game: GameInfo, width: int): (r: seq<char>)
    requires |cell| == CELL_SIZE
    ensures |r| == CELL_SIZE
  {
    if column == 0 then Strlcpy(cell, game.gameType, CELL_SIZE)
    else if column == 1 then TitleCell(cell, game.title, width)
    else if column == 2 then Strlcpy(cell, game.version, CELL_SIZE)
    else if column == 3 then Strlcpy(cell, SizeText(game.size), CELL_SIZE)
    else cell
  }

  /** The first n characters of s, or all of s when it is shorter. */
  function Prefix(s: CStr, n: nat): (t: CStr)
    ensures |t| == Min(|s|, n) && t == s[..|t|]
  {
    s[..Min(|s|, n)]
  }

  /**
   * How a title shows: cut to the 31 characters a cell holds or, when its
   * colour-stripped width exceeds 31, its first 28 characters followed by
   * "..." (a shorter title shows whole).
   */
  function ShownTitle(title: CStr, width: int): CStr {
    if width <= TITLE_LIMIT then Prefix(title, TITLE_LIMIT)
    else if |title| >= 28 then Prefix(title, 28) + "..."
    else title
  }

  /**
   * What the table shows in column `column` of a game's row: the type, version
   * and size cut to the 31 characters a cell holds, and the title as
   * ShownTitle has it.
   */
  function ShownText(column: int, game: GameInfo, width: int): CStr {
    if column == 0 then Prefix(game.gameType, CELL_SIZE - 1)
    else if column == 1 then ShownTitle(game.title, width)
    else if column == 2 then Prefix(game.version, CELL_SIZE - 1)
    else if |game.size| > 0 && Atoi(game.size) != 0 then Prefix(game.size, CELL_SIZE - 1)
    else SIZE_FALLBACK
  }

  /**
   * Formatting a terminated cell leaves it terminated; each of the four shown
   * columns then holds its ShownText, and the fifth slot is left as it was.
   */
  lemma FormattedCellText(cell: seq<char>, column: int, game: GameInfo, width: int)
    requires |cell| == CELL_SIZE && NUL in cell && 0 <= column < DESC_SLOTS
    ensures NUL in FormattedCell(cell, column, game, width)
    ensures column < COLUMNS ==> TextOf(FormattedCell(cell, column, game, width)) == ShownText(column, game, width)
    ensures column == COLUMNS ==> FormattedCell(cell, column, game, width) == cell
  {
    if column == 0 {
      StrlcpyText(cell, game.gameType, CELL_SIZE);
    } else if column == 1 {
      if width > TITLE_LIMIT {
        WideTitleShowsEllipsis(cell, game.title, width);
      } else {
        NarrowTitleText(cell, game.title, width);
      }
    } else if column == 2 {
      StrlcpyText(cell, game.version, CELL_SIZE);
    } else if column == 3 {
      SizeCellText(cell, game.size);
    }
  }

  /** Row j of a row-major buffer whose rows are w characters wide. */
  function Slot(buf: seq<char>, j: int, w: int): (s: seq<char>)
    requires 0 <= j && 0 < w && (j + 1) * w <= |buf|
    ensures |s| == w
  {
    buf[j * w .. j * w + w]
  }

  lemma MulMonotonic(a: int, b: int, w: int)
    requires a <= b && 0 < w
    ensures a * w <= b * w
  {
    assert b * w - a * w == (b - a) * w;
  }

  /** Q_strncpy into row j of a row-major buffer gives that row the copy. */
  lemma CopiedSlot(buf: seq<char>, j: int, w: int, src: CStr, size: nat)
    requires 0 <= j && 0 < size <= w && (j + 1) * w <= |buf|
    ensures Slot(StrlcpyAt(buf, j * w, src, size), j, w) == Strlcpy(Slot(buf, j, w), src, size)
  {
    MulMonotonic(0, j, w);
    assert (j + 1) * w == j * w + w;
    CopiedSpan(buf, j * w, w, src, size);
  }

  /** Q_strncpy into row j of a row-major buffer leaves row j' != j alone. */
  lemma UntouchedSlot(buf: seq<char>, j: int, w: int, src: CStr, size: nat, j': int)
    requires 0 <= j && 0 < size <= w && (j + 1) * w <= |buf|
    requires 0 <= j' && (j' + 1) * w <= |buf| && j' != j
    ensures Slot(StrlcpyAt(buf, j * w, src, size), j', w) == Slot(buf, j', w)
  {
    MulMonotonic(0, j, w);
    MulMonotonic(0, j', w);
    assert (j + 1) * w == j * w + w && (j' + 1) * w == j' * w + w;
    if j' < j {
      MulMonotonic(j' + 1, j, w);
    } else {
      MulMonotonic(j + 1, j', w);
    }
    UntouchedSpan(buf, j * w, src, size, j' * w, w);
  }

  /** Every row of a row-major buffer holds a terminated C string. */
  ghost predicate RowsTerminated(buf: seq<char>, w: int)
    requires 0 < w
  {
    forall r :: 0 <= r && (r + 1) * w <= |buf| ==> NUL in Slot(buf, r, w)
  }

  /** A buffer of NULs holds the empty string in every row. */
  lemma BlankRows(buf: seq<char>, w: int)
    requires 0 < w && forall k :: 0 <= k < |buf| ==> buf[k] == NUL
    ensures RowsTerminated(buf, w)
    ensures forall r :: 0 <= r && (r + 1) * w <= |buf| ==> TextOf(Slot(buf, r, w)) == []
  {
    forall r | 0 <= r && (r + 1) * w <= |buf|
      ensures NUL in Slot(buf, r, w) && TextOf(Slot(buf, r, w)) == []
    {
      MulMonotonic(0, r, w);
      assert Slot(buf, r, w)[0] == NUL;
    }
  }

  /**
   * The whole of a row-major buffer after Q_strncpy(buf[k], texts[k], w) for
   * k = 0 to n - 1 in turn, each copy bounded by the row width w.
   */
  function CopyRows(buf: seq<char>, w: int, texts: seq<CStr>, n: int): (r: seq<char>)
    requires 0 < w && 0 <= n <= |texts| && n * w <= |buf|
    ensures |r| == |buf|
  {
    if n == 0 then buf
    else
      MulMonotonic(n - 1, n, w);
      StrlcpyAt(CopyRows(buf, w, texts, n - 1), (n - 1) * w, texts[n - 1], w)
  }

  /** The first n + 1 copies are the first n followed by the copy into row n. */
  lemma CopyRowsNext(buf: seq<char>, w: int, texts: seq<CStr>, n: int)
    requires 0 < w && 0 <= n < |texts| && (n + 1) * w <= |buf|
    ensures n * w + w <= |buf|
    ensures CopyRows(buf, w, texts, n + 1) == StrlcpyAt(CopyRows(buf, w, texts, n), n * w, texts[n], w)
  {
    assert (n + 1) * w == n * w + w;
  }

  /** After the first n copies, row r < n holds the copy of texts[r] and every later row is untouched. */
  lemma {:induction false} CopyRowsSlot(buf: seq<char>, w: int, texts: seq<CStr>, n: int, r: int)
    requires 0 < w && 0 <= n <= |texts| && n * w <= |buf|
    requires 0 <= r && (r + 1) * w <= |buf|
    ensures Slot(CopyRows(buf, w, texts, n), r, w)
         == if r < n then Strlcpy(Slot(buf, r, w), texts[r], w) else Slot(buf, r, w)
  {
    if n > 0 {
      MulMonotonic(n - 1, n, w);
      var prev := CopyRows(buf, w, texts, n - 1);
      CopyRowsSlot(buf, w, texts, n - 1, r);
      if r == n - 1 {
        CopiedSlot(prev, n - 1, w, texts[n - 1], w);
      } else {
        UntouchedSlot(prev, n - 1, w, texts[n - 1], w, r);
      }
    }
  }

  /** Row r < n then holds texts[r] cut to the w - 1 characters that fit before its NUL. */
  lemma CopyRowsText(buf: seq<char>, w: int, texts: seq<CStr>, n: int, r: int)
    requires 0 < w && 0 <= n <= |texts| && n * w <= |buf|
    requires 0 <= r < n
    ensures (r + 1) * w <= |buf|
    ensures NUL in Slot(CopyRows(buf, w, texts, n), r, w)
    ensures TextOf(Slot(CopyRows(buf, w, texts, n), r, w)) == texts[r][..Min(|texts[r]|, w - 1)]
  {
    MulMonotonic(r + 1, n, w);
    CopyRowsSlot(buf, w, texts, n, r);
    StrlcpyText(Slot(buf, r, w), texts[r], w);
  }

  /** The copies keep every row of a buffer terminated. */
  lemma CopyRowsTerminated(buf: seq<char>, w: int, texts: seq<CStr>, n: int)
    requires 0 < w && 0 <= n <= |texts| && n * w <= |buf| && RowsTerminated(buf, w)
    ensures RowsTerminated(CopyRows(buf, w, texts, n), w)
  {
    forall r | 0 <= r && (r + 1) * w <= |buf|
      ensures NUL in Slot(CopyRows(buf, w, texts, n), r, w)
    {
      CopyRowsSlot(buf, w, texts, n, r);
      if r < n {
        StrlcpyText(Slot(buf, r, w), texts[r], w);
      }
    }
  }

  /** The games' folder names, in list order. */
  function Folders(games: seq<GameInfo>): (texts: seq<CStr>)
    ensures |texts| == |games| && forall k :: 0 <= k < |games| ==> texts[k] == games[k].folder
  {
    seq(|games|, k requires 0 <= k < |games| => games[k].folder)
  }

  /** The games' web addresses, in list order. */
  function Urls(games: seq<GameInfo>): (texts: seq<CStr>)
    ensures |texts| == |games| && forall k :: 0 <= k < |games| ==> texts[k] == games[k].url
  {
    seq(|games|, k requires 0 <= k < |games| => games[k].url)
  }

  /** Length of the C array modsDescription[MAX_MODS][5][32], flattened. */
  const DESC_LENGTH: int := MAX_MODS * DESC_SLOTS * CELL_SIZE

  /** Index of the first byte of modsDescription[line][column] in the flattened buffer. */
  function CellOffset(line: int, column: int): int {
    (line * DESC_SLOTS + column) * CELL_SIZE
  }

  /** Every cell lies inside the description buffer. */
  lemma CellBounds(line: int, column: int)
    requires 0 <= line < MAX_MODS && 0 <= column < DESC_SLOTS
    ensures 0 <= CellOffset(line, column) && CellOffset(line, column) + CELL_SIZE <= DESC_LENGTH
  {
    var k := line * DESC_SLOTS + column;
    assert 0 <= k < MAX_MODS * DESC_SLOTS;
    MulMonotonic(0, k, CELL_SIZE);
    MulMonotonic(k + 1, MAX_MODS * DESC_SLOTS, CELL_SIZE);
  }

  /** Two different cells never share a byte. */
  lemma CellsApart(line: int, column: int, line': int, column': int)
    requires 0 <= line < MAX_MODS && 0 <= column < DESC_SLOTS
    requires 0 <= line' < MAX_MODS && 0 <= column' < DESC_SLOTS
    requires line != line' || column != column'
    ensures CellOffset(line, column) + CELL_SIZE <= CellOffset(line', column')
         || CellOffset(line', column') + CELL_SIZE <= CellOffset(line, column)
  {
    var k := line * DESC_SLOTS + column;
    var k' := line' * DESC_SLOTS + column';
    if line < line' {
      MulMonotonic(line + 1, line', DESC_SLOTS);
    } else if line' < line {
      MulMonotonic(line' + 1, line, DESC_SLOTS);
    }
    assert k != k';
    if k < k' {
      MulMonotonic(k + 1, k', CELL_SIZE);
    } else {
      MulMonotonic(k' + 1, k, CELL_SIZE);
    }
  }

  /** The cell modsDescription[line][column] of a whole description buffer. */
  function CellOf(desc: seq<char>, line: int, column: int): (cell: seq<char>)
    requires 0 <= line < MAX_MODS && 0 <= column < DESC_SLOTS && |desc| == DESC_LENGTH
    ensures |cell| == CELL_SIZE && cell == desc[CellOffset(line, column)..CellOffset(line, column) + CELL_SIZE]
  {
    Slot(desc, line * DESC_SLOTS + column, CELL_SIZE)
  }

  /** Every cell of a description buffer holds a terminated C string. */
  ghost predicate CellsTerminated(desc: seq<char>)
    requires |desc| == DESC_LENGTH
  {
    forall line, column :: 0 <= line < MAX_MODS && 0 <= column < DESC_SLOTS ==> NUL in CellOf(desc, line, column)
  }

  /** A description buffer of NULs holds the empty string in every cell. */
  lemma BlankCells(desc: seq<char>)
    requires |desc| == DESC_LENGTH && forall k :: 0 <= k < |desc| ==> desc[k] == NUL
    ensures CellsTerminated(desc)
    ensures forall line, column :: 0 <= line < MAX_MODS && 0 <= column < DESC_SLOTS ==> TextOf(CellOf(desc, line, column)) == []
  {
    forall line, column | 0 <= line < MAX_MODS && 0 <= column < DESC_SLOTS
      ensures NUL in CellOf(desc, line, column) && TextOf(CellOf(desc, line, column)) == []
    {
      assert CellOf(desc, line, column)[0] == NUL;
    }
  }

  /**
   * The description buffer after Q_strncpy(modsDescription[i][column], src, 32)
   * (lines 130, 139, 141 and 144-145).
   */
  function CopyCell(desc: seq<char>, i: int, column: int, src: CStr): (r: seq<char>)
    requires 0 <= i < MAX_MODS && 0 <= column < DESC_SLOTS && |desc| == DESC_LENGTH
    ensures |r| == DESC_LENGTH
  {
    StrlcpyAt(desc, CellOffset(i, column), src, CELL_SIZE)
  }

  /** A cell copy changes the cell it names into the copy, and no other cell. */
  lemma CopyCellEffect(desc: seq<char>, i: int, column: int, src: CStr, line: int, column': int)
    requires 0 <= i < MAX_MODS && 0 <= column < DESC_SLOTS && |desc| == DESC_LENGTH
    requires 0 <= line < MAX_MODS && 0 <= column' < DESC_SLOTS
    ensures CellOf(CopyCell(desc, i, column, src), line, column')
         == if line == i && column' == column then Strlcpy(CellOf(desc, line, column'), src, CELL_SIZE)
            else CellOf(desc, line, column')
  {
    var off := CellOffset(i, column);
    var off' := CellOffset(line, column');
    CellBounds(i, column);
    CellBounds(line, column');
    var after := CopyCell(desc, i, column, src);
    assert after == StrlcpyAt(desc, off, src, CELL_SIZE);
    assert CellOf(after, line, column') == after[off'..off' + CELL_SIZE];
    assert CellOf(desc, line, column') == desc[off'..off' + CELL_SIZE];
    if line == i && column' == column {
      CopiedSpan(desc, off, CELL_SIZE, src, CELL_SIZE);
    } else {
      CellsApart(i, column, line, column');
      UntouchedSpan(desc, off, src, CELL_SIZE, off', CELL_SIZE);
    }
  }

  /**
   * The description buffer after lines 133-137 write the title cell of row i
   * for a wide title, with the corrected bound: a copy with bound 29, then
   * three dots and a NUL in the cell's last four bytes.
   */
  function WideTitleStep(desc: seq<char>, i: int, title: CStr): (r: seq<char>)
    requires 0 <= i < MAX_MODS && |desc| == DESC_LENGTH
    ensures |r| == DESC_LENGTH
  {
    var off := CellOffset(i, 1);
    CellBounds(i, 1);
    StrlcpyAt(desc, off, title, CELL_SIZE - 3)[off + 28 := '.'][off + 29 := '.'][off + 30 := '.'][off + 31 := NUL]
  }

  /** The description buffer after lines 132-139 write the title cell of row i. */
  function TitleStep(desc: seq<char>, i: int, title: CStr, width: int): (r: seq<char>)
    requires 0 <= i < MAX_MODS && |desc| == DESC_LENGTH
    ensures |r| == DESC_LENGTH
  {
    if width > TITLE_LIMIT then WideTitleStep(desc, i, title) else CopyCell(desc, i, 1, title)
  }

  /** The wide title step gives the title cell of row i the dotted copy. */
  lemma WideTitleStepCell(desc: seq<char>, i: int, title: CStr)
    requires 0 <= i < MAX_MODS && |desc| == DESC_LENGTH
    ensures CellOf(WideTitleStep(desc, i, title), i, 1)
         == Strlcpy(CellOf(desc, i, 1), title, CELL_SIZE - 3)[28 := '.'][29 := '.'][30 := '.'][31 := NUL]
  {
    var off := CellOffset(i, 1);
    CellBounds(i, 1);
    var copied := StrlcpyAt(desc, off, title, CELL_SIZE - 3);
    CopiedSpan(desc, off, CELL_SIZE, title, CELL_SIZE - 3);
    var cell := copied[off..off + CELL_SIZE];
    var r := copied[off + 28 := '.'][off + 29 := '.'][off + 30 := '.'][off + 31 := NUL];
    var after := r[off..off + CELL_SIZE];
    var dotted := cell[28 := '.'][29 := '.'][30 := '.'][31 := NUL];
    assert after == dotted by {
      forall t | 0 <= t < CELL_SIZE
        ensures after[t] == dotted[t]
      {
      }
    }
  }

  /** The title step turns the title cell of row i into its TitleCell. */
  lemma TitleStepCell(desc: seq<char>, i: int, title: CStr, width: int)
    requires 0 <= i < MAX_MODS && |desc| == DESC_LENGTH
    ensures CellOf(TitleStep(desc, i, title, width), i, 1) == TitleCell(CellOf(desc, i, 1), title, width)
  {
    if width > TITLE_LIMIT {
      WideTitleStepCell(desc, i, title);
    } else {
      CopyCellEffect(desc, i, 1, title, i, 1);
    }
  }

  /** Writing the three dots and the NUL at p leaves a window that does not overlap them alone. */
  lemma EllipsisOutside(buf: seq<char>, p: int, lo: int, hi: int)
    requires 0 <= p && p + 4 <= |buf| && 0 <= lo <= hi <= |buf| && (p + 4 <= lo || hi <= p)
    ensures buf[p := '.'][p + 1 := '.'][p + 2 := '.'][p + 3 := NUL][lo..hi] == buf[lo..hi]
  {
    var r := buf[p := '.'][p + 1 := '.'][p + 2 := '.'][p + 3 := NUL];
    forall t | lo <= t < hi
      ensures r[t] == buf[t]
    {
    }
    assert r[lo..hi] == buf[lo..hi];
  }

  /** The wide title step changes no cell but the title cell of row i. */
  lemma WideTitleStepOtherCell(desc: seq<char>, i: int, title: CStr, line: int, column: int)
    requires 0 <= i < MAX_MODS && |desc| == DESC_LENGTH
    requires 0 <= line < MAX_MODS && 0 <= column < DESC_SLOTS && (line != i || column != 1)
    ensures CellOf(WideTitleStep(desc, i, title), line, column) == CellOf(desc, line, column)
  {
    var off := CellOffset(i, 1);
    var off' := CellOffset(line, column);
    CellBounds(i, 1);
    CellBounds(line, column);
    CellsApart(i, 1, line, column);
    var copied := StrlcpyAt(desc, off, title, CELL_SIZE - 3);
    UntouchedSpan(desc, off, title, CELL_SIZE - 3, off', CELL_SIZE);
    EllipsisOutside(copied, off + 28, off', off' + CELL_SIZE);
  }

  /** The title step changes no cell but the title cell of row i. */
  lemma TitleStepOtherCell(desc: seq<char>, i: int, title: CStr, width: int, line: int, column: int)
    requires 0 <= i < MAX_MODS && |desc| == DESC_LENGTH
    requires 0 <= line < MAX_MODS && 0 <= column < DESC_SLOTS && (line != i || column != 1)
    ensures CellOf(TitleStep(desc, i, title, width), line, column) == CellOf(desc, line, column)
  {
    if width > TITLE_LIMIT {
      WideTitleStepOtherCell(desc, i, title, line, column);
    } else {
      CopyCellEffect(desc, i, 1, title, line, column);
    }
  }

  /**
   * The description buffer after lines 130-146 format the cells of row i
   * from `game`, `width` being the colour-stripped length of its title.
   */
  function DescribeRow(desc: seq<char>, i: int, game: GameInfo, width: int): (r: seq<char>)
    requires 0 <= i < MAX_MODS && |desc| == DESC_LENGTH
    ensures |r| == DESC_LENGTH
  {
    CopyCell(CopyCell(TitleStep(CopyCell(desc, i, 0, game.gameType), i, game.title, width), i, 2, game.version), i, 3, SizeText(game.size))
  }

  /** Formatting row i gives each of its cells its FormattedCell and leaves every other row alone. */
  lemma DescribeRowEffect(desc: seq<char>, i: int, game: GameInfo, width: int, line: int, column: int)
    requires 0 <= i < MAX_MODS && |desc| == DESC_LENGTH
    requires 0 <= line < MAX_MODS && 0 <= column < DESC_SLOTS
    ensures CellOf(DescribeRow(desc, i, game, width), line, column)
         == if line == i then FormattedCell(CellOf(desc, line, column), column, game, width)
            else CellOf(desc, line, column)
  {
    var d1 := CopyCell(desc, i, 0, game.gameType);
    var d2 := TitleStep(d1, i, game.title, width);
    var d3 := CopyCell(d2, i, 2, game.version);
    CopyCellEffect(desc, i, 0, game.gameType, line, column);
    if line == i && column == 1 {
      TitleStepCell(d1, i, game.title, width);
    } else {
      TitleStepOtherCell(d1, i, game.title, width, line, column);
    }
    CopyCellEffect(d2, i, 2, game.version, line, column);
    CopyCellEffect(d3, i, 3, SizeText(game.size), line, column);
  }

  /**
   * The description buffer after the first n rows are formatted in order from
   * games, the title of each measured by colorStrlen.
   */
  function DescribeRows(desc: seq<char>, games: seq<GameInfo>, colorStrlen: CStr -> int, n: int): (r: seq<char>)
    requires 0 <= n <= |games| <= MAX_MODS && |desc| == DESC_LENGTH
    ensures |r| == DESC_LENGTH
  {
    if n == 0 then desc
    else DescribeRow(DescribeRows(desc, games, colorStrlen, n - 1), n - 1, games[n - 1], colorStrlen(games[n - 1].title))
  }

  /** Formatting the first n + 1 rows is formatting the first n, then row n. */
  lemma DescribeRowsNext(desc: seq<char>, games: seq<GameInfo>, colorStrlen: CStr -> int, n: int)
    requires 0 <= n < |games| <= MAX_MODS && |desc| == DESC_LENGTH
    ensures DescribeRows(desc, games, colorStrlen, n + 1)
         == DescribeRow(DescribeRows(desc, games, colorStrlen, n), n, games[n], colorStrlen(games[n].title))
  {
  }

  /**
   * The cells of d are those of desc with the first n rows formatted from
   * games: a formatted row's cells are their FormattedCell, every other cell
   * is as in desc. As the cells make up the whole buffer, this fixes every
   * byte of d.
   */
  ghost predicate Described(d: seq<char>, desc: seq<char>, games: seq<GameInfo>, colorStrlen: CStr -> int, n: int)
    requires 0 <= n <= |games| <= MAX_MODS && |d| == DESC_LENGTH && |desc| == DESC_LENGTH
  {
    forall line, column :: 0 <= line < MAX_MODS && 0 <= column < DESC_SLOTS ==>
      CellOf(d, line, column)
        == if line < n then FormattedCell(CellOf(desc, line, column), column, games[line], colorStrlen(games[line].title))
           else CellOf(desc, line, column)
  }

  /** Formatting row n of a buffer that has its first n rows formatted gives one with n + 1. */
  lemma DescribedNext(d: seq<char>, desc: seq<char>, games: seq<GameInfo>, colorStrlen: CStr -> int, n: int)
    requires 0 <= n < |games| <= MAX_MODS && |d| == DESC_LENGTH && |desc| == DESC_LENGTH
    requires Described(d, desc, games, colorStrlen, n)
    ensures Described(DescribeRow(d, n, games[n], colorStrlen(games[n].title)), desc, games, colorStrlen, n + 1)
  {
    var width := colorStrlen(games[n].title);
    forall line, column | 0 <= line < MAX_MODS && 0 <= column < DESC_SLOTS
      ensures CellOf(DescribeRow(d, n, games[n], width), line, column)
        == if line < n + 1 then FormattedCell(CellOf(desc, line, column), column, games[line], colorStrlen(games[line].title))
           else CellOf(desc, line, column)
    {
      DescribeRowEffect(d, n, games[n], width, line, column);
    }
  }

  /** Formatting the first n rows in order leaves them formatted and every later row alone. */
  lemma {:induction false} DescribeRowsDescribed(desc: seq<char>, games: seq<GameInfo>, colorStrlen: CStr -> int, n: int)
    requires 0 <= n <= |games| <= MAX_MODS && |desc| == DESC_LENGTH
    ensures Described(DescribeRows(desc, games, colorStrlen, n), desc, games, colorStrlen, n)
  {
    if n > 0 {
      DescribeRowsDescribed(desc, games, colorStrlen, n - 1);
      DescribeRowsNext(desc, games, colorStrlen, n - 1);
      DescribedNext(DescribeRows(desc, games, colorStrlen, n - 1), desc, games, colorStrlen, n - 1);
    }
  }

  /**
   * What the table then shows: each of the four columns of a formatted row
   * holds its ShownText, and the fifth slot of every row, like every cell of
   * a later row, keeps its bytes.
   */
  lemma DescribeRowsText(desc: seq<char>, games: seq<GameInfo>, colorStrlen: CStr -> int, n: int, line: int, column: int)
    requires 0 <= n <= |games| <= MAX_MODS && |desc| == DESC_LENGTH && CellsTerminated(desc)
    requires 0 <= line < MAX_MODS && 0 <= column < DESC_SLOTS
    ensures NUL in CellOf(DescribeRows(desc, games, colorStrlen, n), line, column)
    ensures line < n && column < COLUMNS ==>
      TextOf(CellOf(DescribeRows(desc, games, colorStrlen, n), line, column)) == ShownText(column, games[line], colorStrlen(games[line].title))
    ensures line >= n || column == COLUMNS ==>
      CellOf(DescribeRows(desc, games, colorStrlen, n), line, column) == CellOf(desc, line, column)
  {
    assert NUL in CellOf(desc, line, column);
    DescribeRowsDescribed(desc, games, colorStrlen, n);
    if line < n {
      FormattedCellText(CellOf(desc, line, column), column, games[line], colorStrlen(games[line].title));
    }
  }

  /** Formatting keeps every cell terminated. */
  lemma DescribeRowsTerminated(desc: seq<char>, games: seq<GameInfo>, colorStrlen: CStr -> int, n: int)
    requires 0 <= n <= |games| <= MAX_MODS && |desc| == DESC_LENGTH && CellsTerminated(desc)
    ensures CellsTerminated(DescribeRows(desc, games, colorStrlen, n))
  {
    forall line, column | 0 <= line < MAX_MODS && 0 <= column < DESC_SLOTS
      ensures NUL in CellOf(DescribeRows(desc, games, colorStrlen, n), line, column)
    {
      DescribeRowsText(desc, games, colorStrlen, n, line, column);
    }
  }

  /**
   * One pass of Update's loop on the three buffers' contents: if the first i
   * rows are formatted and row i is then formatted, the first i + 1 are.
   */
  lemma FormatRowsStep(dir: seq<char>, sites: seq<char>, desc: seq<char>, games: seq<GameInfo>, colorStrlen: CStr -> int, i: int,
                       dir': seq<char>, sites': seq<char>, desc': seq<char>, dir'': seq<char>, sites'': seq<char>, desc'': seq<char>)
    requires 0 <= i < |games| <= MAX_MODS
    requires |dir| == MAX_MODS * DIR_SIZE && |sites| == MAX_MODS * URL_SIZE && |desc| == DESC_LENGTH
    requires dir' == CopyRows(dir, DIR_SIZE, Folders(games), i)
    requires sites' == CopyRows(sites, URL_SIZE, Urls(games), i)
    requires desc' == DescribeRows(desc, games, colorStrlen, i)
    requires dir'' == StrlcpyAt(dir', i * DIR_SIZE, games[i].folder, DIR_SIZE)
    requires sites'' == StrlcpyAt(sites', i * URL_SIZE, games[i].url, URL_SIZE)
    requires desc'' == DescribeRow(desc', i, games[i], colorStrlen(games[i].title))
    ensures dir'' == CopyRows(dir, DIR_SIZE, Folders(games), i + 1)
    ensures sites'' == CopyRows(sites, URL_SIZE, Urls(games), i + 1)
    ensures desc'' == DescribeRows(desc, games, colorStrlen, i + 1)
  {
    MulMonotonic(i + 1, MAX_MODS, DIR_SIZE);
    MulMonotonic(i + 1, MAX_MODS, URL_SIZE);
    CopyRowsNext(dir, DIR_SIZE, Folders(games), i);
    CopyRowsNext(sites, URL_SIZE, Urls(games), i);
    DescribeRowsNext(desc, games, colorStrlen, i);
  }

  class ModListModel {
    const modsDir: array<char>
    const modsWebSites: array<char>
    const modsDescription: array<char>
    var numItems: int

    /** The three buffers have the sizes of the C arrays and are distinct. */
    ghost predicate Shaped()
    {
      && modsDir.Length == MAX_MODS * DIR_SIZE
      && modsWebSites.Length == MAX_MODS * URL_SIZE
      && modsDescription.Length == DESC_LENGTH
      && modsDir != modsWebSites && modsDir != modsDescription && modsWebSites != modsDescription
    }

    /** modsDir[r], the 64 characters of row r. */
    function DirRow(r: int): (row: seq<char>)
      reads modsDir
      requires Shaped() && 0 <= r < MAX_MODS
      ensures |row| == DIR_SIZE
    {
      Slot(modsDir[..], r, DIR_SIZE)
    }

    /** modsWebSites[r], the 256 characters of row r. */
    function SiteRow(r: int): (row: seq<char>)
      reads modsWebSites
      requires Shaped() && 0 <= r < MAX_MODS
      ensures |row| == URL_SIZE
    {
      Slot(modsWebSites[..], r, URL_SIZE)
    }

    /** modsDescription[line][column], the 32 characters of one cell. */
    function DescCell(line: int, column: int): (cell: seq<char>)
      reads modsDescription
      requires Shaped() && 0 <= line < MAX_MODS && 0 <= column < DESC_SLOTS
      ensures |cell| == CELL_SIZE
    {
      CellOf(modsDescription[..], line, column)
    }

    /** Every row of every buffer holds a terminated C string. */
    ghost predicate Terminated()
      reads modsDir, modsWebSites, modsDescription
    {
      && Shaped()
      && RowsTerminated(modsDir[..], DIR_SIZE)
      && RowsTerminated(modsWebSites[..], URL_SIZE)
      && CellsTerminated(modsDescription[..])
    }

    /**
     * The object invariant: at most MAX_MODS rows are shown, and every row of
     * every buffer holds a terminated C string.
     */
    ghost predicate Valid()
      reads this, modsDir, modsWebSites, modsDescription
    {
      Terminated() && 0 <= numItems <= MAX_MODS
    }

    /** The screen is a static object, so its buffers start out all zero. */
    constructor ()
      ensures Valid() && numItems == 0
      ensures fresh(modsDir) && fresh(modsWebSites) && fresh(modsDescription)
      ensures forall r :: 0 <= r < MAX_MODS ==> DirText(r) == [] && SiteText(r) == []
      ensures forall line, column :: 0 <= line < MAX_MODS && 0 <= column < DESC_SLOTS ==> GetCellText(line, column) == []
    {
      modsDir := new char[MAX_MODS * DIR_SIZE](_ => NUL);
      modsWebSites := new char[MAX_MODS * URL_SIZE](_ => NUL);
      modsDescription := new char[DESC_LENGTH](_ => NUL);
      numItems := 0;
      new;
      BlankRows(modsDir[..], DIR_SIZE);
      BlankRows(modsWebSites[..], URL_SIZE);
      BlankCells(modsDescription[..]);
    }

    /** The folder name row r holds. */
    function DirText(r: int): CStr
      reads this, modsDir, modsWebSites, modsDescription
      requires Valid() && 0 <= r < MAX_MODS
    {
      TextOf(DirRow(r))
    }

    /** The web address row r holds. */
    function SiteText(r: int): CStr
      reads this, modsDir, modsWebSites, modsDescription
      requires Valid() && 0 <= r < MAX_MODS
    {
      TextOf(SiteRow(r))
    }

    /** The table has four columns, so the fifth description slot is never shown. */
    function GetColumns(): (n: int)
      ensures 0 < n < DESC_SLOTS
    {
      COLUMNS
    }

    /** The number of rows the table shows never exceeds the buffers' capacity. */
    function GetRows(): (n: int)
      reads this, modsDir, modsWebSites, modsDescription
      requires Valid()
      ensures 0 <= n <= MAX_MODS
    {
      numItems
    }

    /** The text of a cell: the C string at modsDescription[line][column]. */
    function GetCellText(line: int, column: int): (text: CStr)
      reads this, modsDir, modsWebSites, modsDescription
      requires Valid() && 0 <= line < MAX_MODS && 0 <= column < DESC_SLOTS
      ensures |text| < CELL_SIZE && text == DescCell(line, column)[..|text|]
      ensures DescCell(line, column)[|text|] == NUL
    {
      TextOf(DescCell(line, column))
    }

    /**
     * Lines 130-146: the description cells of row i, formatted from `game`,
     * the wide title copied with the corrected bound 29 (line 134 has 28).
     */
    method Describe(i: int, game: GameInfo, width: int)
      requires Shaped() && 0 <= i < MAX_MODS
      modifies modsDescription
      ensures modsDescription[..] == DescribeRow(old(modsDescription[..]), i, game, width)
    {
      StrNCpy(modsDescription, CellOffset(i, 0), game.gameType, CELL_SIZE);
      ghost var d1 := modsDescription[..];
      var title := CellOffset(i, 1);
      if width > TITLE_LIMIT {
        StrNCpy(modsDescription, title, game.title, CELL_SIZE - 3);
        ghost var copied := modsDescription[..];
        modsDescription[title + 28] := '.';
        modsDescription[title + 29] := '.';
        modsDescription[title + 30] := '.';
        modsDescription[title + 31] := NUL;
        assert modsDescription[..] == copied[title + 28 := '.'][title + 29 := '.'][title + 30 := '.'][title + 31 := NUL];
        assert modsDescription[..] == WideTitleStep(d1, i, game.title);
      } else {
        StrNCpy(modsDescription, title, game.title, CELL_SIZE);
        assert modsDescription[..] == CopyCell(d1, i, 1, game.title);
      }
      assert modsDescription[..] == TitleStep(d1, i, game.title, width);
      StrNCpy(modsDescription, CellOffset(i, 2), game.version, CELL_SIZE);
      if |game.size| > 0 && Atoi(game.size) != 0 {
        StrNCpy(modsDescription, CellOffset(i, 3), game.size, CELL_SIZE);
      } else {
        StrNCpy(modsDescription, CellOffset(i, 3), SIZE_FALLBACK, CELL_SIZE);
      }
    }

    /**
     * One pass of Update's loop (lines 123-146) for row i: the folder and the
     * web address are copied into row i of their buffers and the description
     * cells of row i are formatted.
     */
    method FormatRow(i: int, game: GameInfo, width: int)
      requires Shaped() && 0 <= i < MAX_MODS
      modifies modsDir, modsWebSites, modsDescription
      ensures modsDir[..] == StrlcpyAt(old(modsDir[..]), i * DIR_SIZE, game.folder, DIR_SIZE)
      ensures modsWebSites[..] == StrlcpyAt(old(modsWebSites[..]), i * URL_SIZE, game.url, URL_SIZE)
      ensures modsDescription[..] == DescribeRow(old(modsDescription[..]), i, game, width)
    {
      StrNCpy(modsDir, i * DIR_SIZE, game.folder, DIR_SIZE);
      StrNCpy(modsWebSites, i * URL_SIZE, game.url, URL_SIZE);
      Describe(i, game, width);
    }

    /**
     * The loop of CMenuModListModel::Update (lines 121-147): the rows of all
     * three buffers are formatted from games[0], games[1], ... in order.
     * `colorStrlen` is the engine's ColorStrlen, the length of a title without
     * its colour codes.
     */
    method FormatRows(games: seq<GameInfo>, colorStrlen: CStr -> int)
      requires Shaped() && |games| <= MAX_MODS
      modifies modsDir, modsWebSites, modsDescription
      ensures modsDir[..] == CopyRows(old(modsDir[..]), DIR_SIZE, Folders(games), |games|)
      ensures modsWebSites[..] == CopyRows(old(modsWebSites[..]), URL_SIZE, Urls(games), |games|)
      ensures modsDescription[..] == DescribeRows(old(modsDescription[..]), games, colorStrlen, |games|)
    {
      ghost var dir, sites, desc := modsDir[..], modsWebSites[..], modsDescription[..];
      var i := 0;
      while i < |games|
        invariant 0 <= i <= |games|
        invariant modsDir[..] == CopyRows(dir, DIR_SIZE, Folders(games), i)
        invariant modsWebSites[..] == CopyRows(sites, URL_SIZE, Urls(games), i)
        invariant modsDescription[..] == DescribeRows(desc, games, colorStrlen, i)
      {
        ghost var dir', sites', desc' := modsDir[..], modsWebSites[..], modsDescription[..];
        FormatRow(i, games[i], colorStrlen(games[i].title));
        FormatRowsStep(dir, sites, desc, games, colorStrlen, i, dir', sites', desc', modsDir[..], modsWebSites[..], modsDescription[..]);
        i := i + 1;
      }
    }

    /**
     * CMenuModListModel::Update: formats one row per game the engine lists,
     * then sets the row count the table reports. The buffers become
     * CopyRows and DescribeRows of their old contents, which CopyRowsSlot,
     * CopyRowsText, DescribeRowsDescribed and DescribeRowsText spell out row by
     * row; every buffer row stays terminated.
     */
    method Update(games: seq<GameInfo>, colorStrlen: CStr -> int)
      requires Valid() && |games| <= MAX_MODS
      modifies this`numItems, modsDir, modsWebSites, modsDescription
      ensures Valid() && numItems == |games| && GetRows() == |games|
      ensures modsDir[..] == CopyRows(old(modsDir[..]), DIR_SIZE, Folders(games), |games|)
      ensures modsWebSites[..] == CopyRows(old(modsWebSites[..]), URL_SIZE, Urls(games), |games|)
      ensures modsDescription[..] == DescribeRows(old(modsDescription[..]), games, colorStrlen, |games|)
      ensures forall r :: 0 <= r < |games| ==>
        DirText(r) == games[r].folder[..Min(|games[r].folder|, DIR_SIZE - 1)]
        && SiteText(r) == games[r].url[..Min(|games[r].url|, URL_SIZE - 1)]
      ensures forall line, column :: 0 <= line < |games| && 0 <= column < COLUMNS ==>
        GetCellText(line, column) == ShownText(column, games[line], colorStrlen(games[line].title))
    {
      FormatRows(games, colorStrlen);
      numItems := |games|;
      CopyRowsTerminated(old(modsDir[..]), DIR_SIZE, Folders(games), |games|);
      CopyRowsTerminated(old(modsWebSites[..]), URL_SIZE, Urls(games), |games|);
      DescribeRowsTerminated(old(modsDescription[..]), games, colorStrlen, |games|);
      forall r | 0 <= r < |games|
        ensures DirText(r) == games[r].folder[..Min(|games[r].folder|, DIR_SIZE - 1)]
        ensures SiteText(r) == games[r].url[..Min(|games[r].url|, URL_SIZE - 1)]
      {
        CopyRowsText(old(modsDir[..]), DIR_SIZE, Folders(games), |games|, r);
        CopyRowsText(old(modsWebSites[..]), URL_SIZE, Urls(games), |games|, r);
      }
      forall line, column | 0 <= line < |games| && 0 <= column < COLUMNS
        ensures GetCellText(line, column) == ShownText(column, games[line], colorStrlen(games[line].title))
      {
        DescribeRowsText(old(modsDescription[..]), games, colorStrlen, |games|, line, column);
      }
    }
  }
}
