/** How the Name Server cuts a path into folder and base name, and puts it together again. */
module Paths {
  import opened CTypes

  const MAX_FILENAME := 256
  const MAX_FOLDER_PATH := 512
  const FULL_PATH_MAX := 768

  /** The key of a file in the index: folder, then base name. */
  type Key = (string, string)

  /** strrchr(path, '/'), or -1. */
  function LastSlash(path: string): (k: int)
    ensures -1 <= k < |path|
    ensures k >= 0 ==> path[k] == '/'
    ensures forall i :: k < i < |path| ==> path[i] != '/'
  {
    if path == "" then -1
    else if path[|path| - 1] == '/' then |path| - 1
    else LastSlash(path[..|path| - 1])
  }

  /** The parsing at the head of index_add_file, index_remove_file and index_lookup_file. */
  function SplitPath(path: string): Key {
    var k := LastSlash(path);
    if k < 0 then ("/", Fit(path, MAX_FILENAME))
    else (if k + 1 < MAX_FOLDER_PATH then path[..k + 1] else "/", Fit(path[k + 1..], MAX_FILENAME))
  }

  /** normalize_folder_path */
  function NormalizeFolder(folder: string): string {
    if folder == "/" then "/"
    else if folder != "" && folder[|folder| - 1] == '/' then Fit(folder, MAX_FOLDER_PATH)
    else Fit(folder + "/", MAX_FOLDER_PATH)
  }

  /** build_full_path of src/nm/commands.c */
  function BuildFullPath(key: Key): string {
    var (folder, name) := key;
    Fit(if folder == "/" then name
        else if folder != "" && folder[|folder| - 1] == '/' then folder[..|folder| - 1] + "/" + name
        else folder + "/" + name, FULL_PATH_MAX)
  }

  /** A key the code can find again: the folder ends in a slash and both parts fit their buffers. */
  predicate KeyOk(key: Key) {
    && key.0 != "" && key.0[|key.0| - 1] == '/' && |key.0| < MAX_FOLDER_PATH
    && '/' !in key.1 && |key.1| < MAX_FILENAME
  }

  /** Every key the index computes from a path is one it can find again. */
  lemma SplitIsOk(path: string)
    ensures KeyOk(SplitPath(path))
  {
  }

  lemma SlashAt(folder: string, name: string)
    requires folder != "" && folder[|folder| - 1] == '/' && '/' !in name
    ensures LastSlash(folder + name) == |folder| - 1
    decreases |name|
  {
    var path := folder + name;
    var k := LastSlash(path);
    assert path[|folder| - 1] == '/';
    assert forall i :: |folder| <= i < |path| ==> path[i] == name[i - |folder|] && path[i] != '/';
  }

  /** A path is cut behind its last slash; without one, or with a folder too long for its buffer, the file is in the root. */
  lemma SplitOfPath(folder: string, name: string)
    requires '/' !in name && (folder == "" || folder[|folder| - 1] == '/')
    ensures SplitPath(folder + name) ==
            (if folder == "" || |folder| >= MAX_FOLDER_PATH then "/" else folder, Fit(name, MAX_FILENAME))
  {
    var path := folder + name;
    if folder == "" {
      assert path == name;
    } else {
      SlashAt(folder, name);
      assert path[..|folder|] == folder && path[|folder|..] == name;
    }
  }

  /** The path built for an entry leads back to the entry's key, exactly for the keys that are in order. */
  lemma FullPathRoundTrip(key: Key)
    ensures SplitPath(BuildFullPath(key)) == key <==> KeyOk(key)
  {
    SplitIsOk(BuildFullPath(key));
    if KeyOk(key) {
      var (folder, name) := key;
      if folder != "/" {
        assert folder[..|folder| - 1] + "/" == folder;
        SlashAt(folder, name);
        assert (folder + name)[..|folder|] == folder && (folder + name)[|folder|..] == name;
      }
    }
  }

  /**
   A normalised folder is in order unless the buffer cut it in the middle of a name. It is the folder
   given, followed by a slash if that was missing, as far as the buffer holds it.
   */
  lemma NormalizeIsOk(folder: string, name: string)
    requires '/' !in name && |name| < MAX_FILENAME
    ensures KeyOk((NormalizeFolder(folder), name)) <==> |folder| < MAX_FOLDER_PATH - 1 || folder[MAX_FOLDER_PATH - 2] == '/'
    ensures |folder| < MAX_FOLDER_PATH - 1 ==>
              && folder <= NormalizeFolder(folder) <= folder + "/"
              && (NormalizeFolder(folder) == folder <==> folder != "" && folder[|folder| - 1] == '/')
    ensures |folder| >= MAX_FOLDER_PATH - 1 ==>
              NormalizeFolder(folder) <= folder && |NormalizeFolder(folder)| == MAX_FOLDER_PATH - 1
  {
  }

  // ---------------------------------------------------------------- runs

  /** What the index does to its set of keys. */
  datatype KeyOp = AddFile(path: string) | RemoveFile(path: string) | MoveFile(name: string, from: string, to: string)

  function After(keys: set<Key>, op: KeyOp): set<Key> {
    match op
    case AddFile(path) => keys + {SplitPath(path)}
    case RemoveFile(path) => keys - {SplitPath(path)}
    case MoveFile(name, from, to) =>
      var key := SplitPath(Fit(from + name, FULL_PATH_MAX));
      if key in keys then keys - {key} + {(NormalizeFolder(to), key.1)} else keys
  }

  function Run(ops: seq<KeyOp>): set<Key>
    decreases |ops|
  {
    if ops == [] then {} else After(Run(ops[..|ops| - 1]), ops[|ops| - 1])
  }

  /** In every reachable index whose moves went to folders the buffer holds, every file is found under its built path. */
  lemma {:induction false} BuiltPathsLeadBack(ops: seq<KeyOp>, key: Key)
    requires forall i :: 0 <= i < |ops| && ops[i].MoveFile? ==> |ops[i].to| < MAX_FOLDER_PATH - 1
    requires key in Run(ops)
    ensures SplitPath(BuildFullPath(key)) == key
    decreases |ops|
  {
    hide SplitPath, BuildFullPath, NormalizeFolder, Fit, KeyOk;
    var n := |ops| - 1;
    match ops[n]
    case AddFile(path) =>
      SplitIsOk(path);
      FullPathRoundTrip(key);
      if key != SplitPath(path) {
        BuiltPathsLeadBack(ops[..n], key);
      }
    case RemoveFile(path) => BuiltPathsLeadBack(ops[..n], key);
    case MoveFile(name, from, to) =>
      var source := SplitPath(Fit(from + name, FULL_PATH_MAX));
      SplitIsOk(Fit(from + name, FULL_PATH_MAX));
      FullPathRoundTrip(key);
      if source in Run(ops[..n]) && key == (NormalizeFolder(to), source.1) {
        MovedIsOk(source, to);
      } else {
        BuiltPathsLeadBack(ops[..n], key);
      }
  }

  lemma MovedIsOk(source: Key, to: string)
    requires KeyOk(source) && |to| < MAX_FOLDER_PATH - 1
    ensures KeyOk((NormalizeFolder(to), source.1))
  {
    NormalizeIsOk(to, source.1);
  }
}
