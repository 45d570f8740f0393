/**
 * The main-process database service: the per-window file map, the most-recently-opened
 * vault list kept in the workspaces configuration, and the save-path helpers.
 * Dialogs, the file system and `safeStorage` are parameters or left out; a window id is
 * an `int`, a path a `string`.
 */
module MainDatabase {
  import opened Wrappers
  import opened Strings
  import opened Sequences

  /** The recently-opened list is cut to this many entries. */
  const MaxRecent: nat := 10

  /** `_fileMap` values: the open vault's path and its stored password, if any. */
  datatype FileEntry = FileEntry(file: string, password: Option<string>)

  /** `appConfig.workspaces` and the JSON written to the workspaces file. */
  datatype Workspaces = Workspaces(workspace: string, recentlyOpened: seq<string>)

  /** What `dialog.showOpenDialog` resolved to. */
  datatype OpenDialog = Canceled | Picked(filePaths: seq<string>)

  /** `findIndex` followed by `splice(index, 1)` when the item was found. */
  function RemoveFirst(list: seq<string>, item: string): (r: seq<string>)
    ensures item !in list ==> r == list
    ensures forall f :: f in r ==> f in list
    ensures item in list ==> |r| == |list| - 1 && multiset(r) + multiset{item} == multiset(list)
    ensures item in list ==>
      exists i :: 0 <= i < |list| && list[i] == item && item !in list[..i] && r == list[..i] + list[i + 1..]
  {
    var i := FindIndex(list, item);
    if i == -1 then list
    else
      assert list == list[..i] + [list[i]] + list[i + 1..];
      list[..i] + list[i + 1..]
  }

  /** The recently-opened list after `setDatabaseEntry(_, path)`. */
  function MruUpdate(list: seq<string>, path: string): (r: seq<string>)
    ensures 1 <= |r| <= MaxRecent && r[0] == path
    ensures forall f :: f in r ==> f == path || f in list
  {
    var moved := [path] + RemoveFirst(list, path);
    if |moved| > MaxRecent then moved[..MaxRecent] else moved
  }

  /**
   * The entries after the head are the old list without the first occurrence of
   * `path`, in their old order, cut so that at most ten entries remain.
   */
  lemma MruUpdateOrder(list: seq<string>, path: string)
    ensures var r := MruUpdate(list, path);
      var rest := RemoveFirst(list, path);
      && |r| == (if |rest| + 1 > MaxRecent then MaxRecent else |rest| + 1)
      && r[1..] == rest[..|r| - 1]
  {
  }

  lemma {:induction false} NoDupsRemoveFirst(list: seq<string>, item: string)
    requires NoDups(list)
    ensures NoDups(RemoveFirst(list, item)) && item !in RemoveFirst(list, item)
  {
    var r := RemoveFirst(list, item);
    if item in list {
      var i := FindIndex(list, item);
      assert r == list[..i] + list[i + 1..];
      forall a, b | 0 <= a < b < |r|
        ensures r[a] != r[b]
      {
        var a' := if a < i then a else a + 1;
        var b' := if b < i then b else b + 1;
        assert r[a] == list[a'] && r[b] == list[b'];
      }
    }
  }

  /** A duplicate-free list stays duplicate-free, with `path` exactly once, at the head. */
  lemma MruUpdateNoDups(list: seq<string>, path: string)
    requires NoDups(list)
    ensures NoDups(MruUpdate(list, path))
    ensures path !in MruUpdate(list, path)[1..]
  {
    NoDupsRemoveFirst(list, path);
    var moved := [path] + RemoveFirst(list, path);
    assert NoDups(moved) by {
      forall a, b | 0 <= a < b < |moved|
        ensures moved[a] != moved[b]
      {
        if a == 0 {
          assert moved[b] in RemoveFirst(list, path);
        }
      }
    }
    var r := MruUpdate(list, path);
    assert r == moved[..|r|];
    assert r[1..] == RemoveFirst(list, path)[..|r| - 1];
  }

  /** With room left in the list, no file is forgotten. */
  lemma MruUpdateKeepsAll(list: seq<string>, path: string)
    requires |list| < MaxRecent
    ensures forall f :: f in MruUpdate(list, path) <==> f == path || f in list
  {
    var rest := RemoveFirst(list, path);
    assert MruUpdate(list, path) == [path] + rest;
    if path in list {
      var i := FindIndex(list, path);
      assert rest == list[..i] + list[i + 1..];
      forall f | f in list && f != path
        ensures f in rest
      {
        var j :| 0 <= j < |list| && list[j] == f;
        if j < i {
          assert rest[j] == f;
        } else {
          assert rest[j - 1] == f;
        }
      }
    }
  }

  /** Re-opening the most recent file leaves the list as it is. */
  lemma MruUpdateIdempotent(list: seq<string>, path: string)
    ensures MruUpdate(MruUpdate(list, path), path) == MruUpdate(list, path)
  {
    var r := MruUpdate(list, path);
    assert FindIndex(r, path) == 0;
    assert RemoveFirst(r, path) == r[1..];
    assert [path] + r[1..] == r;
  }

  /** `list.filter(x => x !== path)`. */
  function Without(list: seq<string>, path: string): (r: seq<string>)
    ensures |r| <= |list|
    ensures forall f :: f in r <==> f in list && f != path
    ensures forall f :: multiset(r)[f] == if f != path then multiset(list)[f] else 0
    ensures Subsequence(r, list)
    ensures path !in list ==> r == list
  {
    if list == [] then []
    else
      assert list == [list[0]] + list[1..];
      if list[0] == path then Without(list[1..], path)
      else [list[0]] + Without(list[1..], path)
  }

  /** `appendExtension`: the name, a dot, and the configured extension. */
  function AppendExtension(name: string, ext: string): (r: string)
    ensures |r| == |name| + 1 + |ext|
    ensures StartsWith(r, name) && EndsWith(r, "." + ext)
  {
    var r := name + "." + ext;
    assert r[..|name|] == name;
    assert r[|r| - |"." + ext|..] == "." + ext;
    r
  }

  /** The path a save writes to: kept when it already ends in the extension. */
  function FinalFilePath(path: string, ext: string): (r: string)
    ensures EndsWith(r, ext)
    ensures EndsWith(path, ext) <==> r == path
    ensures !EndsWith(path, ext) ==> r == AppendExtension(path, ext)
  {
    if EndsWith(path, ext) then path
    else
      var r := AppendExtension(path, ext);
      assert r[|r| - |ext|..] == ("." + ext)[1..];
      r
  }

  /** Choosing the final path twice changes nothing. */
  lemma FinalFilePathIdempotent(path: string, ext: string)
    ensures FinalFilePath(FinalFilePath(path, ext), ext) == FinalFilePath(path, ext)
  {
  }

  /** `createTemporaryPathFrom`: split on '.', drop the last part, join with '', add '~'. */
  function TemporaryPathFrom(path: string): string
  {
    var temp := Split(path, '.');
    Join(temp[..|temp| - 1], "") + "~"
  }

  /**
   * The temporary path is everything before the last '.', with every earlier '.' deleted,
   * followed by '~'; a path without a '.' becomes "~".
   */
  lemma TemporaryPathValue(path: string)
    ensures '.' in path ==> TemporaryPathFrom(path) == ReplaceChar(BeforeLast(path, '.'), '.', "") + "~"
    ensures '.' !in path ==> TemporaryPathFrom(path) == "~"
    ensures '.' !in TemporaryPathFrom(path)
  {
    if '.' in path {
      JoinAllButLast(path, '.', "");
      ReplaceCharRemoves(BeforeLast(path, '.'), '.');
    } else {
      SplitWithout(path, '.');
    }
  }

  /** A dot in a directory name is deleted, which moves the temporary file elsewhere. */
  lemma TemporaryPathDropsDirectoryDots(path: string)
    requires path == "a.b/v" + "." + "fbit"
    ensures TemporaryPathFrom(path) == "ab/v~"
  {
    BeforeLastOf("a.b/v", '.', "fbit");
    TemporaryPathValue(path);
    ReplaceDotsExample();
  }

  lemma ReplaceDotsExample()
    ensures ReplaceChar("a.b/v", '.', "") == "ab/v"
  {
    assert ReplaceChar("v", '.', "") == "v";
    assert ReplaceChar("/v", '.', "") == "/v" by { assert "/v"[1..] == "v"; }
    assert ReplaceChar("b/v", '.', "") == "b/v" by { assert "b/v"[1..] == "/v"; }
    assert ReplaceChar(".b/v", '.', "") == "b/v" by { assert ".b/v"[1..] == "b/v"; }
    assert "a.b/v"[1..] == ".b/v";
  }

  /** The temporary path as evidently intended: the path without its last extension, plus '~'. */
  function TemporaryPathIntended(path: string): (r: string)
    ensures |r| >= 1 && r[|r| - 1] == '~'
    ensures '.' in path ==>
      var stem := r[..|r| - 1];
      |stem| < |path| && stem == path[..|stem|] && path[|stem|] == '.' && '.' !in path[|stem| + 1..]
    ensures '.' !in path ==> r == path + "~"
  {
    if '.' in path then BeforeLast(path, '.') + "~" else path + "~"
  }

  lemma TemporaryPathIntendedKeepsDirectories(path: string)
    requires path == "a.b/v" + "." + "fbit"
    ensures TemporaryPathIntended(path) == "a.b/v~"
  {
    BeforeLastOf("a.b/v", '.', "fbit");
  }

  /**
   * Whenever a '.' precedes the last one, the written temporary path is not the
   * intended one: the intended stem keeps that '.', the written one has none.
   */
  lemma TemporaryPathDiffersFromIntended(path: string)
    requires '.' in path && '.' in BeforeLast(path, '.')
    ensures TemporaryPathFrom(path) != TemporaryPathIntended(path)
  {
    TemporaryPathValue(path);
    var r := TemporaryPathIntended(path);
    assert r == BeforeLast(path, '.') + "~";
    assert '.' in r;
  }

  /**
   * The parts of the service that keep state: `_fileMap`, the in-memory
   * `appConfig.workspaces`, and the last workspaces file written.
   */
  class DatabaseService {
    var fileMap: map<int, FileEntry>
    var workspaces: Workspaces
    var savedWorkspaces: Workspaces
    /** The id of window 1, the main window, whose password is never stored. */
    const mainWindowId: int

    constructor(mainWindowId: int, workspaces: Workspaces)
      ensures this.mainWindowId == mainWindowId
      ensures fileMap == map[] && this.workspaces == workspaces && savedWorkspaces == workspaces
    {
      this.mainWindowId := mainWindowId;
      fileMap := map[];
      this.workspaces := workspaces;
      savedWorkspaces := workspaces;
    }

    /** `getFilePath`: the file open in the window, if it has an entry. */
    function GetFilePath(windowId: int): (r: Option<string>)
      reads this
      ensures r.Some? <==> windowId in fileMap
      ensures r.Some? ==> r.value == fileMap[windowId].file
    {
      if windowId in fileMap then Some(fileMap[windowId].file) else None
    }

    /** `getPassword`: null when the window has no entry or no stored password. */
    function GetPassword(windowId: int): (r: Option<string>)
      reads this
      ensures r == None <==> windowId !in fileMap || fileMap[windowId].password == None
      ensures r.Some? ==> Some(r.value) == fileMap[windowId].password
    {
      if windowId in fileMap then fileMap[windowId].password else None
    }

    /**
     * `setPassword`: ignored for the main window; an empty value clears the password.
     * A window without an entry makes the source throw, reported here as `Err`.
     */
    method SetPassword(value: string, windowId: int) returns (r: Result<(), string>)
      modifies this
      ensures workspaces == old(workspaces) && savedWorkspaces == old(savedWorkspaces)
      ensures windowId == mainWindowId ==> r.Ok? && fileMap == old(fileMap)
      ensures windowId != mainWindowId && windowId !in old(fileMap) ==> r.Err? && fileMap == old(fileMap)
      ensures windowId != mainWindowId && windowId in old(fileMap) ==>
        && r.Ok?
        && fileMap == old(fileMap)[windowId := old(fileMap)[windowId].(password := if value == "" then None else Some(value))]
    {
      if windowId == mainWindowId {
        return Ok(());
      }
      if windowId !in fileMap {
        return Err("Cannot set properties of undefined (setting 'password')");
      }
      var entry := fileMap[windowId];
      if value == "" {
        fileMap := fileMap[windowId := entry.(password := None)];
      } else {
        fileMap := fileMap[windowId := entry.(password := Some(value))];
      }
      return Ok(());
    }

    /**
     * `setDatabaseEntry`: the window's entry becomes the bare path (dropping any
     * password), the path moves to the head of the recently-opened list, and the list
     * is written to the workspaces file with the path as the workspace.
     */
    method SetDatabaseEntry(windowId: int, filePath: string)
      modifies this
      ensures fileMap == old(fileMap)[windowId := FileEntry(filePath, None)]
      ensures GetFilePath(windowId) == Some(filePath) && GetPassword(windowId) == None
      ensures workspaces == old(workspaces).(recentlyOpened := MruUpdate(old(workspaces.recentlyOpened), filePath))
      ensures savedWorkspaces == Workspaces(filePath, workspaces.recentlyOpened)
    {
      fileMap := fileMap[windowId := FileEntry(filePath, None)];
      var recentlyOpened := workspaces.recentlyOpened;
      var fileIndex := FindIndex(recentlyOpened, filePath);
      if fileIndex > -1 {
        recentlyOpened := recentlyOpened[..fileIndex] + recentlyOpened[fileIndex + 1..];
      }
      recentlyOpened := [filePath] + recentlyOpened;
      if |recentlyOpened| > MaxRecent {
        recentlyOpened := recentlyOpened[..MaxRecent];
      }
      workspaces := workspaces.(recentlyOpened := recentlyOpened);
      savedWorkspaces := Workspaces(filePath, recentlyOpened);
    }

    /**
     * `openDatabase`: an empty `path` asks the dialog; a given path that does not exist
     * is pruned from the recently-opened list (every occurrence) and nothing opens;
     * otherwise the picked or given path is recorded and returned.
     */
    method OpenDatabase(windowId: int, path: string, pathExists: bool, dialog: OpenDialog)
      returns (r: Option<string>)
      modifies this
      ensures path == "" && dialog == Canceled ==>
        r == None && fileMap == old(fileMap) && workspaces == old(workspaces)
          && savedWorkspaces == old(savedWorkspaces)
      ensures path != "" && !pathExists ==>
        && r == None && fileMap == old(fileMap)
        && workspaces == Workspaces(old(workspaces.workspace), Without(old(workspaces.recentlyOpened), path))
        && savedWorkspaces == workspaces
        && path !in workspaces.recentlyOpened
      ensures (path != "" && pathExists) || (path == "" && dialog.Picked?) ==>
        var chosen := if path == "" && |dialog.filePaths| > 0 then dialog.filePaths[0] else path;
        && r == Some(chosen)
        && fileMap == old(fileMap)[windowId := FileEntry(chosen, None)]
        && workspaces.recentlyOpened == MruUpdate(old(workspaces.recentlyOpened), chosen)
        && workspaces.recentlyOpened[0] == chosen
        && workspaces.workspace == old(workspaces.workspace)
        && savedWorkspaces == Workspaces(chosen, workspaces.recentlyOpened)
    {
      var picked: Option<OpenDialog> := None;
      if path == "" {
        picked := Some(dialog);
      }
      if !(picked.Some? && picked.value.Canceled?) || path != "" {
        if path != "" && !pathExists {
          var pruned := Workspaces(workspaces.workspace, Without(workspaces.recentlyOpened, path));
          savedWorkspaces := pruned;
          workspaces := pruned;
          return None;
        }
        var chosen := if picked.Some? && |picked.value.filePaths| > 0 then picked.value.filePaths[0] else path;
        SetDatabaseEntry(windowId, chosen);
        return GetFilePath(windowId);
      }
      return None;
    }
  }
}
