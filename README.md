# Custom Game menu: verified model

This project models the Custom Game screen of the menu library
(`menus/CustomGame.cpp`). The screen lists the installed games and lets the
player switch to one of them or visit its web site. It has two parts.

- **`CMenuModListModel`** is the table model. `Update` copies the engine's
  game list into three fixed-size character buffers. It writes one row per
  game: the folder name, the web address, and four 32-byte description cells
  (type, title, version, size). The table reads the buffers back through
  `GetRows`, `GetColumns` and `GetCellText`.
- **`CMenuCustomGame`** is the screen.
  - `UpdateExtras` runs whenever the selection changes. It points the
    Activate button, the Visit button and the "Leave current game?" dialog at
    the selected row, and greys the buttons that cannot act.
  - `ChangeGame` sends the engine a `game <folder>` console command.
  - `Go2Site` opens a web address, but only when the address is non-empty.
  - The loop at the end of `_Init` pre-selects the running game's row.

One Dafny `char` stands for one C `char`, that is, one byte. The copy bounds
therefore count bytes, and a UTF-8 title is cut by byte, not by character.

The model has three modules.

- `CStrings` (`cstrings.dfy`) defines the engine's string helpers, whose code
  is not part of this model, by the behaviour the menu relies on:
  - `Q_strncpy` is a bounded copy that always terminates. `StrlcpyAt` defines
    it byte by byte, and `StrNCpy` is the copy loop on an array.
  - `stricmp` compares ignoring ASCII case.
  - `atoi` reads a leading decimal number.
- `ModList` (`mod_list.dfy`) holds the class `ModListModel`. Its buffers are
  `array<char>` fields laid out row by row, exactly as C lays out
  `char modsDir[512][64]`, `char modsWebSites[512][256]` and
  `char modsDescription[512][5][32]`.
  - Each method states the whole new buffer contents as a specification
    function of the old contents: `StrlcpyAt`, `CopyRows`, `DescribeRow` or
    `DescribeRows`.
  - Lemmas then state what every row and cell holds, and which ones stay
    untouched.
- `CustomGame` (`custom_game.dfy`) holds the class `CustomGameMenu`. It models
  these parts of the source:
  - Each `pExtra` pointer, as the index of the row it points into.
  - The active game folder, as a parameter.
  - `EngFuncs::ClientCmd` and `EngFuncs::ShellExecute`, as the sequences of
    commands and addresses handed to them.

A title whose colour-stripped width exceeds 31 is meant to show its first 28 characters
and three dots. The code does not do that: its copy bound is one short (see
Findings). The model keeps the code as written in
`TitleCellAsWritten` and proves what it shows. `Update` is modelled with the
corrected bound (`TitleCell`), which gives the described behaviour.

## Model

| member | source | states |
|---|---|---|
| CStrings.TextOf | menus/CustomGame.cpp:46-49 | The C string a buffer holds is the prefix before its first NUL, and that NUL is the byte right after it. |
| CStrings.StrlcpyAt | menus/CustomGame.cpp:127-145 | Q_strncpy(buf + off, src, size) one byte per step: the buffer keeps its length, and StrlcpyAtBytes gives each byte it ends with. |
| CStrings.Strlcpy | menus/CustomGame.cpp:130-145 | Q_strncpy into a buffer from its first byte. The buffer keeps its length. StrlcpyText gives the string it then holds. |
| CStrings.StrlcpyAtBytes | menus/CustomGame.cpp:127-145 | The bytes written by Q_strncpy(buf + off, src, size) for size > 0: the first min(len, size - 1) characters of src, then one NUL. Every other byte is unchanged. |
| CStrings.StrlcpyText | menus/CustomGame.cpp:127-145 | A copy with a non-zero bound always terminates the copy within the bound. The string it leaves is src cut to size - 1 characters. Bytes from index size on are untouched. |
| CStrings.CopiedSpan | menus/CustomGame.cpp:127-128 | Seen through the row it targets, a copy into a larger buffer is a plain Q_strncpy of that row. |
| CStrings.UntouchedSpan | menus/CustomGame.cpp:127-128 | A copy leaves every byte range outside [off, off + size) unchanged. |
| CStrings.StrNCpy | menus/CustomGame.cpp:127-145 | The copy loop on an array: the array afterwards equals StrlcpyAt of its old contents. |
| CStrings.Stricmp | menus/CustomGame.cpp:105 | stricmp returns -1, 0 or 1. |
| CStrings.StricmpZeroIff | menus/CustomGame.cpp:105 | stricmp returns 0 exactly when the two strings are equal up to ASCII case, in both directions. |
| CStrings.AtoiWithoutNonZeroDigit | menus/CustomGame.cpp:143 | atoi returns 0 for every string with no digit from 1 to 9. |
| CStrings.Atoi | menus/CustomGame.cpp:143 | atoi reads optional white space, an optional sign and decimal digits. Its value is negative only when a minus sign leads the digits. |
| CStrings.AtoiWithoutLeadingDigit | menus/CustomGame.cpp:143 | atoi returns 0 for every string whose first character after the white space and an optional sign is not a digit, such as "N/A 12". |
| ModList.NarrowTitleText | menus/CustomGame.cpp:132-139 | A title whose colour-stripped width is at most 31 is copied with bound 32 and shows as its first 31 characters. |
| ModList.TitleCellAsWritten | menus/CustomGame.cpp:132-139 | The title cell as the code writes it: copy bound 28 for a wide title, then the dots and the NUL in bytes 28-31. Bound 32 otherwise. The cell keeps its 32 bytes. |
| ModList.WideTitleHidesEllipsis | menus/CustomGame.cpp:132-137 | As written (copy bound 28), a wider title leaves bytes 28-31 of the cell as '.', '.', '.', NUL. The visible text is still only the first 27 characters of the title, so no dots show. |
| ModList.TitleCell | menus/CustomGame.cpp:132-139 | The title cell with the corrected copy bound 29 for a wide title, then the dots and the NUL in bytes 28-31. Bound 32 otherwise. The cell keeps its 32 bytes. |
| ModList.WideTitleShowsEllipsis | menus/CustomGame.cpp:132-137 | With the copy bound corrected to 29, bytes 28-31 are still '.', '.', '.', NUL, and a wide title of at least 28 characters shows as its first 28 characters followed by "...". A shorter one shows whole. |
| ModList.SizeText | menus/CustomGame.cpp:143-145 | The string the size cell receives is either the engine's size or "0.0 Mb", and never empty. |
| ModList.SizeCellText | menus/CustomGame.cpp:143-145 | The size cell shows the engine's size exactly when that size is non-empty and atoi of it is non-zero. In every other case it shows "0.0 Mb". |
| ModList.SizeWithoutNonZeroDigitFallsBack | menus/CustomGame.cpp:143-145 | A size with no non-zero digit, empty or not, always shows as "0.0 Mb". |
| CStrings.AtoiZeroIff | menus/CustomGame.cpp:143 | atoi returns 0 exactly when every digit it reads, after the white space and an optional sign, is '0'. So any digit from 1 to 9 in that run gives a non-zero value. |
| ModList.NumericSizeShowsItself | menus/CustomGame.cpp:143-145 | A size whose leading digits, after white space and an optional sign, include a digit from 1 to 9 shows as itself cut to 31 characters. |
| ModList.SizeWithoutLeadingDigitFallsBack | menus/CustomGame.cpp:143-145 | A size that does not start with a digit after white space and an optional sign, such as "N/A 12", always shows as "0.0 Mb". |
| ModList.FormattedCellText | menus/CustomGame.cpp:130-145 | Formatting a terminated cell keeps it terminated. Columns 0-3 then show the type, title, version and size as ShownText gives them. Slot 4 is unchanged. |
| ModList.CopiedSlot | menus/CustomGame.cpp:127-128 | A copy into row j of a row-major buffer makes that row the Q_strncpy of its old contents. |
| ModList.UntouchedSlot | menus/CustomGame.cpp:127-128 | A copy into row j leaves every other row unchanged. |
| ModList.BlankRows | menus/CustomGame.cpp:81 | A zeroed buffer holds the empty string in every row. |
| ModList.CopyRows | menus/CustomGame.cpp:125-128 | The buffer after the row copies of the first n loop passes, in order. It keeps its length. CopyRowsSlot and CopyRowsText give each row. |
| ModList.CopyRowsSlot | menus/CustomGame.cpp:125-128 | After the first n copies, each row r < n is the copy of texts[r] into its old contents. Every row r >= n is unchanged. |
| ModList.CopyRowsText | menus/CustomGame.cpp:125-128 | After the copies, row r < n is terminated and holds texts[r] cut to w - 1 characters. |
| ModList.CopyRowsTerminated | menus/CustomGame.cpp:51-52 | The copies keep every row of a terminated buffer terminated. |
| ModList.BlankCells | menus/CustomGame.cpp:81 | A zeroed description buffer holds the empty string in every cell. |
| ModList.CopyCellEffect | menus/CustomGame.cpp:130 | CopyCell, the Q_strncpy into one description cell of lines 130, 141 and 144-145, changes only that cell, into its Q_strncpy. |
| ModList.WideTitleStepCell | menus/CustomGame.cpp:133-137 | WideTitleStep, the wide-title lines on the description buffer, turns the title cell of row i into the copy with bound 29 followed by the three dots and the NUL. |
| ModList.WideTitleStepOtherCell | menus/CustomGame.cpp:133-137 | The wide-title lines change no cell except the title cell of row i. |
| ModList.TitleStepCell | menus/CustomGame.cpp:132-139 | TitleStep, the title lines on the description buffer (WideTitleStep or CopyCell), turns the title cell of row i into TitleCell of its old contents, for a wide or a narrow title. |
| ModList.TitleStepOtherCell | menus/CustomGame.cpp:132-139 | The title lines change no cell except the title cell of row i. |
| ModList.DescribeRow | menus/CustomGame.cpp:130-145 | The description buffer after one loop pass formats row i. It keeps its length. DescribeRowEffect gives each cell. |
| ModList.DescribeRowEffect | menus/CustomGame.cpp:130-145 | Formatting row i gives each cell of that row its FormattedCell, the per-column cell of lines 130-145 (type, title, version, size, untouched slot 4). Every cell of every other row is unchanged. |
| ModList.DescribeRows | menus/CustomGame.cpp:125-146 | The description buffer after the first n loop passes, in order. It keeps its length. DescribeRowsDescribed and DescribeRowsText give each cell. |
| ModList.DescribedNext | menus/CustomGame.cpp:125-146 | Formatting row n of a buffer whose first n rows are formatted gives a buffer whose first n + 1 rows are formatted and whose later rows are still as they were. |
| ModList.DescribeRowsDescribed | menus/CustomGame.cpp:125-146 | After the loop, each cell of row r < numGames is the FormattedCell of its old contents for games[r]. Every cell of a row >= numGames keeps its bytes. |
| ModList.DescribeRowsText | menus/CustomGame.cpp:125-146 | After the loop, every cell is terminated. Columns 0-3 of row r < numGames show ShownText for games[r]. Slot 4 of every row, and every cell of a later row, keeps its bytes. |
| ModList.DescribeRowsTerminated | menus/CustomGame.cpp:53 | Formatting keeps every description cell terminated within its 32 bytes. |
| ModList.ModListModel.constructor | menus/CustomGame.cpp:51-54 | The zero-initialised static screen starts with no rows, and every buffer row holds the empty string. |
| ModList.ModListModel.GetColumns | menus/CustomGame.cpp:44 | The table shows four columns, each an existing description slot, so slot 4 is never shown. |
| ModList.ModListModel.GetRows | menus/CustomGame.cpp:45 | The row count never exceeds the 512-row capacity. |
| ModList.ModListModel.GetCellText | menus/CustomGame.cpp:46-49 | The text of a cell is the terminated string stored at modsDescription[line][column], shorter than 32 characters. |
| ModList.ModListModel.Describe | menus/CustomGame.cpp:130-145 | The four Q_strncpy calls and the dot stores of one row, with the corrected title bound, leave the description buffer equal to DescribeRow of its old contents. |
| ModList.ModListModel.FormatRow | menus/CustomGame.cpp:125-146 | One pass of the loop: the folder and address buffers each gain one bounded row copy, and the description buffer is DescribeRow of its old contents. |
| ModList.ModListModel.FormatRows | menus/CustomGame.cpp:125-147 | The loop over all games leaves the buffers equal to CopyRows and DescribeRows of their old contents. |
| ModList.ModListModel.Update | menus/CustomGame.cpp:118-149 | Update gives the model numGames rows, and GetRows returns that count. Every row stays terminated. Row r shows the folder cut to 63 characters and the address cut to 255. Each of its four columns shows its ShownText. |
| CustomGame.GameCommand | menus/CustomGame.cpp:86 | The command sprintf formats: the folder sits between "game " and the closing newline, six characters longer than the folder. |
| CustomGame.ParseGameCommandRoundTrip | menus/CustomGame.cpp:86 | ParseGameCommand inverts the "game %s\n" format: it recovers exactly the folder the command was formatted from. |
| CustomGame.GameCommandFits | menus/CustomGame.cpp:85-86 | A folder from a 64-byte row makes a command of at most 70 bytes with its NUL, well inside cmd[128]. |
| CustomGame.CustomGameMenu.constructor | menus/CustomGame.cpp:65-79 | A new screen has an empty table and no bound button payloads, and has sent no command. |
| CustomGame.CustomGameMenu.UpdateExtras | menus/CustomGame.cpp:97-111 | Activate, Visit and the dialog all carry the selected row. Activate is greyed exactly when that row's folder equals the running game's ignoring case. Visit is greyed exactly when the row's address is empty. |
| CustomGame.CustomGameMenu.ChangeGame | menus/CustomGame.cpp:83-88 | Exactly one command is sent: "game <folder>\n" for the row's folder, which fits the 128-byte buffer. |
| CustomGame.CustomGameMenu.Go2Site | menus/CustomGame.cpp:90-95 | The row's address is opened exactly when its first byte is not NUL. Otherwise nothing happens. |
| CustomGame.CustomGameMenu.PreSelect | menus/CustomGame.cpp:191-199 | When some listed row holds the running game's folder, the first such row is selected and UpdateExtras runs for it. When no row does, nothing changes. |

## Left out

- Layout and assets are not modelled: `_VidInit` coordinates, the column width fractions, the banner picture and `UI_CustomGame_Precache`.
- The `host_allow_changegame` check in `UI_CustomGame_Menu` (lines 225-233) is not modelled. It reads a float console variable of the host.
- The widget framework is not modelled: `CMenuTable`, `CMenuPicButton`, `CMenuYesNoMessageBox`, `AddItem`, `Link`, `MakeOpenEvent`, and the callback wiring in `_Init`. `SetGrayed` is modelled as the two flags `loadGrayed` and `go2urlGrayed`.
- The unused `TYPE_LENGTH` to `SIZE_LENGTH` macros (lines 34-38) are not modelled.
- Engine calls are inputs and outputs rather than code:
  - `EngFuncs::GetGamesList` is the `games` parameter of `Update`.
  - `gMenu.m_gameinfo.gamefolder` is the `activeFolder` parameter.
  - `ClientCmd` and `ShellExecute` are recorded in the `commands` and `visited` sequences.
- The helpers' implementations are not part of this model:
  - `ColorStrlen` is a parameter of `Update`. Nothing is assumed of it.
  - `Q_strncpy` is modelled as strlcpy without its return value, which the source ignores.
  - `stricmp` is modelled as an ASCII case fold, with only its sign returned.
  - `atoi` is modelled over unbounded integers, without the overflow of a C `int`.
- ModList.ModListModel.Describe: copies a wide title with bound 29, the corrected bound, where line 134 has 28 (see Findings). `TitleCellAsWritten` and `WideTitleHidesEllipsis` model the line as written.
- ModList.ModListModel.Update: requires at most 512 games. The source writes rows 0 to numGames - 1 with no capacity check and relies on the engine's limit (line 32). Like `Describe`, it writes the title column with the corrected bound 29, not line 134's 28.
- CustomGame.CustomGameMenu.UpdateExtras: requires the selected index to be a row of the buffers. The source indexes `modsDir[i]` with whatever the table reports.
- CustomGame.CustomGameMenu.ChangeGame: takes the row its `pExtra` points into, not a raw pointer, and requires that Activate or the dialog carries that row. Any other pointer would break the 128-byte bound, and it is not modelled.
- CustomGame.CustomGameMenu.Go2Site: takes the row its `pExtra` points into, not a raw pointer, and requires that Visit carries that row.
- A button pressed before `UpdateExtras` first runs is not modelled. Its `pExtra` is still NULL (`None` in the model), for instance when `_Init` finds no row of the running game. `sprintf` would then format a NULL string and `url[0]` would dereference NULL. Whether the widget framework lets such a press happen is outside this model.
- How the engine's console handles the command is not modelled. It splits commands at `;` and newlines and splits words at white space. So a folder name holding those characters is not taken as one name. `ParseGameCommand` only inverts the `"game %s\n"` format of line 86.
- The order of the chained assignment on line 136 is not modelled. It stores the same character to three distinct bytes, so its order does not matter.

## Findings

| source | as written | input that shows it | evidently intended | confidence | as-written member | corrected member |
|---|---|---|---|---|---|---|
| menus/CustomGame.cpp:134-137 | `Q_strncpy(modsDescription[i][1], title, 32 - 4)` copies at most 27 characters and writes the terminator at index 27 or earlier. The dots at indices 28-30 lie past it and never show. | Any title whose colour-stripped width exceeds 31, e.g. 40 'A's: the cell reads as 27 'A's, with no dots. | The comment on line 135 shows the dots were meant to be appended: 28 characters then "...", which needs a copy bound of 29 (32 - 3). | not executed | ModList.WideTitleHidesEllipsis | ModList.WideTitleShowsEllipsis |

`TitleCellAsWritten` is the title cell as line 134 writes it, and
`WideTitleHidesEllipsis` proves that its dots never show. `TitleCell` is the
corrected cell, and `WideTitleShowsEllipsis` proves its visible text. The rest
of the model (`TitleStep`, `Describe`, `Update`) uses the corrected cell.
