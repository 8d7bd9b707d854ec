/**
 * CMenuCustomGame: the Custom Game screen. Selecting a row of the table
 * points the Activate and Visit buttons (and the "Leave current game?"
 * dialog) at that row's folder and web address; Activate sends the engine a
 * "game <folder>" command and Visit opens the web address.
 *
 * An `onActivated.pExtra` / `onPositive.pExtra` pointer is NULL (`None`)
 * until UpdateExtras first runs, and from then on points at a row of modsDir
 * or modsWebSites, so it is modelled as that row's index; ChangeGame and
 * Go2Site run with the row their button carries, and the string it designates
 * is read from the buffer when the callback runs. The engine's ClientCmd and
 * ShellExecute are modelled by the sequences of commands and addresses handed
 * to them.
 */
module CustomGame {
  import opened CStrings
  import opened ModList

  datatype Option<T> = None | Some(value: T)

  /** Size of the `char cmd[128]` buffer ChangeGame formats its command into. */
  const CMD_SIZE: int := 128

  /**
   * The console command ChangeGame formats: "game %s\n" with the folder name,
   * which sits between the six characters of the format.
   */
  function GameCommand(folder: CStr): (cmd: CStr)
    ensures |cmd| == |folder| + 6 && cmd[5..|cmd| - 1] == folder
  {
    "game " + folder + "\n"
  }

  /**
   * The inverse of the "game %s\n" format: a command made of the word "game",
   * a space, a folder name and a closing newline gives back that folder name.
   */
  function ParseGameCommand(cmd: CStr): (folder: Option<CStr>)
    ensures folder.Some? ==> |folder.value| + 6 == |cmd|
  {
    if |cmd| >= 6 && cmd[..5] == "game " && cmd[|cmd| - 1] == '\n' then
      var name: CStr := cmd[5..|cmd| - 1];
      Some(name)
    else None
  }

  /** ParseGameCommand recovers exactly the folder that GameCommand formatted. */
  lemma ParseGameCommandRoundTrip(folder: CStr)
    ensures ParseGameCommand(GameCommand(folder)) == Some(folder)
  {
    var cmd := GameCommand(folder);
    assert cmd[..5] == "game ";
    assert cmd[5..|cmd| - 1] == folder;
  }

  /**
   * A folder name taken from a modsDir row has at most 63 characters, so its
   * command takes at most 5 + 63 + 1 characters plus the NUL: sprintf never
   * overflows the 128-byte buffer.
   */
  lemma GameCommandFits(folder: CStr)
    requires |folder| < DIR_SIZE
    ensures |GameCommand(folder)| + 1 <= 70 < CMD_SIZE
  {
  }

  /** Row r of a modsDir buffer holds the running game's folder, as stricmp sees it. */
  ghost predicate IsRunningGame(dir: seq<char>, r: int, activeFolder: CStr)
    requires |dir| == MAX_MODS * DIR_SIZE && RowsTerminated(dir, DIR_SIZE) && 0 <= r < MAX_MODS
  {
    SameIgnoringCase(TextOf(Slot(dir, r, DIR_SIZE)), activeFolder)
  }

  class CustomGameMenu {
    const modListModel: ModListModel
    /** The row the table has selected (CMenuTable::GetCurrentIndex). */
    var currentIndex: int
    /** load.onActivated.pExtra: the modsDir row Activate hands to ChangeGame. */
    var loadExtra: Option<int>
    /** go2url.onActivated.pExtra: the modsWebSites row Visit hands to Go2Site. */
    var go2urlExtra: Option<int>
    /** msgBox.onPositive.pExtra: the modsDir row the dialog's "yes" hands to ChangeGame. */
    var positiveExtra: Option<int>
    var loadGrayed: bool
    var go2urlGrayed: bool
    /** Every command passed to EngFuncs::ClientCmd, oldest first. */
    var commands: seq<CStr>
    /** Every address passed to EngFuncs::ShellExecute, oldest first. */
    var visited: seq<CStr>

    /** A pointer field is unset or points at one of the buffer's rows. */
    static predicate RowOrUnset(extra: Option<int>) {
      extra.None? || 0 <= extra.value < MAX_MODS
    }

    /**
     * The screen's invariant: its table model is valid, every button pointer
     * points into the buffers, and only non-empty addresses were visited.
     */
    ghost predicate Valid()
      reads this, modListModel, modListModel.modsDir, modListModel.modsWebSites, modListModel.modsDescription
    {
      && modListModel.Valid()
      && RowOrUnset(loadExtra) && RowOrUnset(go2urlExtra) && RowOrUnset(positiveExtra)
      && forall k :: 0 <= k < |visited| ==> visited[k] != []
    }

    /** The buttons and the dialog all point at row i, as UpdateExtras leaves them. */
    ghost predicate BoundTo(i: int)
      reads this
    {
      loadExtra == Some(i) && go2urlExtra == Some(i) && positiveExtra == Some(i)
    }

    constructor ()
      ensures Valid() && fresh(modListModel)
      ensures modListModel.numItems == 0 && commands == [] && visited == []
      ensures loadExtra.None? && go2urlExtra.None? && positiveExtra.None?
    {
      modListModel := new ModListModel();
      currentIndex := 0;
      loadExtra := None;
      go2urlExtra := None;
      positiveExtra := None;
      loadGrayed := false;
      go2urlGrayed := false;
      commands := [];
      visited := [];
    }

    /**
     * UpdateExtras, run when the table's selection changes: the Activate
     * button and the dialog point at the selected folder, Visit at the
     * selected web address. Activate is greyed exactly when the folder is
     * the running game's (`activeFolder`, compared ignoring ASCII case), and
     * Visit exactly when the row has no web address.
     */
    method UpdateExtras(activeFolder: CStr)
      requires Valid() && 0 <= currentIndex < MAX_MODS
      modifies this`loadExtra, this`go2urlExtra, this`positiveExtra, this`loadGrayed, this`go2urlGrayed
      ensures Valid() && BoundTo(currentIndex)
      ensures loadGrayed <==> SameIgnoringCase(modListModel.DirText(currentIndex), activeFolder)
      ensures go2urlGrayed <==> modListModel.SiteText(currentIndex) == []
    {
      var i := currentIndex;
      loadExtra := Some(i);
      var folder := modListModel.DirText(i);
      StricmpZeroIff(folder, activeFolder);
      loadGrayed := Stricmp(folder, activeFolder) == 0;
      go2urlExtra := Some(i);
      go2urlGrayed := modListModel.modsWebSites[i * URL_SIZE] == NUL;
      assert modListModel.SiteRow(i)[0] == modListModel.modsWebSites[i * URL_SIZE];
      positiveExtra := Some(i);
    }

    /**
     * ChangeGame, run by Activate or by the dialog's "yes" with the modsDir
     * row that button carries: formats "game <folder>\n" into its 128-byte
     * buffer, which the folder always fits, and hands it to the engine's
     * console.
     */
    method ChangeGame(row: int)
      requires Valid() && 0 <= row < MAX_MODS
      requires loadExtra == Some(row) || positiveExtra == Some(row)
      modifies this`commands
      ensures Valid()
      ensures commands == old(commands) + [GameCommand(modListModel.DirText(row))]
      ensures |GameCommand(modListModel.DirText(row))| < CMD_SIZE
    {
      var folder := modListModel.DirText(row);
      GameCommandFits(folder);
      commands := commands + [GameCommand(folder)];
    }

    /**
     * Go2Site, run by Visit with the modsWebSites row it carries: the address
     * is visited only when its first character is not the terminator.
     */
    method Go2Site(row: int)
      requires Valid() && 0 <= row < MAX_MODS
      requires go2urlExtra == Some(row)
      modifies this`visited
      ensures Valid()
      ensures visited == if modListModel.SiteText(row) != [] then old(visited) + [modListModel.SiteText(row)] else old(visited)
    {
      var url := modListModel.SiteText(row);
      if modListModel.modsWebSites[row * URL_SIZE] != NUL {
        assert modListModel.SiteRow(row)[0] != NUL;
        visited := visited + [url];
      } else {
        assert modListModel.SiteRow(row)[0] == NUL;
      }
    }

    /**
     * The loop at the end of _Init (lines 191-199): the first listed row whose
     * folder is the running game's becomes the selection and UpdateExtras runs
     * for it; when no row matches, nothing changes.
     */
    method PreSelect(activeFolder: CStr)
      requires Valid()
      modifies this`currentIndex, this`loadExtra, this`go2urlExtra, this`positiveExtra, this`loadGrayed, this`go2urlGrayed
      ensures Valid()
      ensures var dir := modListModel.modsDir[..];
        (exists r :: 0 <= r < modListModel.numItems && IsRunningGame(dir, r, activeFolder)) ==>
        && 0 <= currentIndex < modListModel.numItems
        && IsRunningGame(dir, currentIndex, activeFolder)
        && (forall r :: 0 <= r < currentIndex ==> !IsRunningGame(dir, r, activeFolder))
        && BoundTo(currentIndex) && loadGrayed
        && (go2urlGrayed <==> modListModel.SiteText(currentIndex) == [])
      ensures var dir := modListModel.modsDir[..];
        (forall r :: 0 <= r < modListModel.numItems ==> !IsRunningGame(dir, r, activeFolder)) ==> unchanged(this)
    {
      ghost var dir := modListModel.modsDir[..];
      var i := 0;
      while i < modListModel.GetRows()
        invariant 0 <= i <= modListModel.numItems
        invariant forall r :: 0 <= r < i ==> !IsRunningGame(dir, r, activeFolder)
        invariant unchanged(this)
      {
        var folder := modListModel.DirText(i);
        StricmpZeroIff(folder, activeFolder);
        if Stricmp(folder, activeFolder) == 0 {
          assert IsRunningGame(dir, i, activeFolder);
          currentIndex := i;
          UpdateExtras(activeFolder);
          return;
        }
        i := i + 1;
      }
    }
  }
}
