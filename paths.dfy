/** Path selection from user/paths.h. A `std::filesystem::path` is modelled as
    its sequence of components; `p / "x"` appends a component and
    `parent_path()` drops the last one. */
module Paths {
  import opened Wrappers

  type Path = seq<string>

  /** `USER_DIRECTORY`. */
  const UserDirectory: string := "UnleashedRecomp"

  /** The file name of the base-game save. */
  const SaveFileName: string := "SYS-DATA"

  /** `p / c`. */
  function Join(p: Path, c: string): (r: Path)
    ensures |r| == |p| + 1 && r[..|p|] == p && r[|p|] == c
  {
    p + [c]
  }

  /** `p.parent_path()`; the parent of the empty path is empty. */
  function Parent(p: Path): (r: Path)
    ensures |p| > 0 ==> |r| == |p| - 1 && p == r + [p[|p| - 1]]
    ensures |p| == 0 ==> r == []
  {
    if |p| == 0 then [] else p[..|p| - 1]
  }

  /** Taking the parent undoes a join. */
  lemma ParentOfJoin(p: Path, c: string)
    ensures Parent(Join(p, c)) == p
  {
  }

  /** `GetGamePath()`: `$HOME/.local/share/UnleashedRecomp` when `HOME` is set,
      otherwise the executable's directory. `home` is `getenv("HOME")` already
      split into components. */
  function GetGamePath(home: Option<Path>, executableRoot: Path): (r: Path)
    ensures home.Some? ==> r == home.value + [".local", "share", UserDirectory]
    ensures home.None? ==> r == executableRoot
  {
    match home
    case Some(h) => Join(Join(Join(h, ".local"), "share"), UserDirectory)
    case None => executableRoot
  }

  /** A mod save path is in use: `checkForMods && !s_saveFilePath.empty()`. */
  predicate UsesModSave(checkForMods: bool, modSaveFilePath: Path) {
    checkForMods && modSaveFilePath != []
  }

  /** `GetSavePath(checkForMods)`: the directory that holds the save file.
      `userPath` is `GetUserPath()` and `modSaveFilePath` is
      `ModLoader::s_saveFilePath`. */
  function GetSavePath(checkForMods: bool, modSaveFilePath: Path, userPath: Path): (r: Path)
    ensures UsesModSave(checkForMods, modSaveFilePath) ==> r == Parent(modSaveFilePath)
    ensures !UsesModSave(checkForMods, modSaveFilePath) ==> r == userPath + ["save"]
  {
    if checkForMods && modSaveFilePath != [] then Parent(modSaveFilePath)
    else Join(userPath, "save")
  }

  /** `GetSaveFilePath(checkForMods)`: the mod's save file verbatim when one is
      set, otherwise `GetUserPath()/save/SYS-DATA`. */
  function GetSaveFilePath(checkForMods: bool, modSaveFilePath: Path, userPath: Path): (r: Path)
    ensures UsesModSave(checkForMods, modSaveFilePath) ==> r == modSaveFilePath
    ensures !UsesModSave(checkForMods, modSaveFilePath) ==> r == userPath + ["save", SaveFileName]
  {
    if checkForMods && modSaveFilePath != [] then modSaveFilePath
    else Join(GetSavePath(false, modSaveFilePath, userPath), SaveFileName)
  }

  /** Whatever the inputs, the save file sits in the save directory. */
  lemma SaveFileInSaveDirectory(checkForMods: bool, modSaveFilePath: Path, userPath: Path)
    ensures Parent(GetSaveFilePath(checkForMods, modSaveFilePath, userPath))
         == GetSavePath(checkForMods, modSaveFilePath, userPath)
  {
    if !UsesModSave(checkForMods, modSaveFilePath) {
      ParentOfJoin(GetSavePath(false, modSaveFilePath, userPath), SaveFileName);
    }
  }

  /** Without a mod save path the file is always named `SYS-DATA`. */
  lemma SaveFileNameIsSysData(checkForMods: bool, modSaveFilePath: Path, userPath: Path)
    requires !UsesModSave(checkForMods, modSaveFilePath)
    ensures var f := GetSaveFilePath(checkForMods, modSaveFilePath, userPath);
      |f| > 0 && f[|f| - 1] == SaveFileName
  {
  }

  /** With a mod save path the file name is the mod's choice: it need not be
      `SYS-DATA`. */
  lemma ModSaveFileNameMayDiffer(userPath: Path)
    ensures var f := GetSaveFilePath(true, ["mods", "slot1.sav"], userPath);
      f[|f| - 1] == "slot1.sav" != SaveFileName
  {
  }
}
