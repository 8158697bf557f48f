/** Discovery of the `.editorconfig` file that applies to a document: an
    upward walk from the document's directory to the filesystem root over an
    abstract filesystem, listing only the direct contents of each directory. */
module Config {
  import opened Wrappers
  import opened Strings
  import opened Paths

  /** A filesystem error, identified by its Node error code ("EPERM", "ENOENT", ...). */
  datatype FsError = FsError(code: string)

  /** The two codes under which a directory level is skipped instead of failing. */
  predicate IsPermissionDenied(e: FsError)
  {
    e.code == "EPERM" || e.code == "EACCES"
  }

  /** One entry of a directory listing (`fs.Dirent`). */
  datatype Entry = Entry(name: string, isDirectory: bool)

  /** What `fs.readdirSync(dir, {withFileTypes: true})` yields or throws. */
  datatype Listing = Listed(entries: seq<Entry>) | ListFailed(error: FsError)

  /** What `fs.accessSync(path, R_OK)` does: return, or throw. */
  datatype Access = Readable | AccessFailed(error: FsError)

  /** The filesystem as the walk sees it: a listing per directory and a
      readability check per path. */
  datatype FileSystem = FileSystem(readDir: Path -> Listing, accessRead: Path -> Access)

  /** The text searched for, without anchors, in every resolved file path. */
  const ConfigMarker := ".editorconfig"

  /** A file path the search accepts: its full rendered path contains the marker. */
  predicate IsCandidate(p: Path)
  {
    Contains(Render(p), ConfigMarker)
  }

  /** The test is unanchored: the root is never accepted, while a path is
      accepted as soon as any of its components, a directory's name as much
      as the file's, contains the marker. */
  lemma {:induction false} CandidateByComponent(p: Path)
    ensures p == Root ==> !IsCandidate(p)
    ensures forall k :: 0 <= k < |p| && Contains(p[k], ConfigMarker) ==> IsCandidate(p)
  {
    ComponentsInRender(p, ConfigMarker);
  }

  /** The number of non-directory entries in a listing. */
  function NonDirCount(entries: seq<Entry>): nat
  {
    if entries == [] then 0
    else NonDirCount(entries[..|entries| - 1]) + (if entries[|entries| - 1].isDirectory then 0 else 1)
  }

  /** A non-directory entry at index `i` comes after all the files counted before it. */
  lemma {:induction false} NonDirCountPrefix(entries: seq<Entry>, i: nat)
    requires i < |entries|
    ensures NonDirCount(entries[..i]) + (if entries[i].isDirectory then 0 else 1) <= NonDirCount(entries)
  {
    var init := entries[..|entries| - 1];
    if i < |entries| - 1 {
      NonDirCountPrefix(init, i);
      assert init[..i] == entries[..i];
    } else {
      assert entries[..i] == init;
    }
  }

  /** A non-directory entry is counted before any later entry. */
  lemma {:induction false} NonDirRankIncreases(entries: seq<Entry>, j: nat, i: nat)
    requires j < i <= |entries| && !entries[j].isDirectory
    ensures NonDirCount(entries[..j]) < NonDirCount(entries[..i])
  {
    NonDirCountPrefix(entries[..i], j);
    assert entries[..i][..j] == entries[..j];
  }

  /** `getFiles`: the non-directory entries of one listing, each resolved
      against `dir`, in listing order. The non-directory entry at index `i`
      lands at position `NonDirCount(entries[..i])`, so the order is kept and
      nothing else is in the result. */
  function GetFiles(dir: Path, entries: seq<Entry>): (files: seq<Path>)
    ensures |files| == NonDirCount(entries)
    ensures forall k :: 0 <= k < |files| ==> |files[k]| == |dir| + 1 && Dirname(files[k]) == dir
    ensures forall i :: 0 <= i < |entries| && !entries[i].isDirectory ==>
      NonDirCount(entries[..i]) < |files|
    ensures forall i :: 0 <= i < |entries| && !entries[i].isDirectory ==>
      files[NonDirCount(entries[..i])] == Resolve(dir, entries[i].name)
  {
    if entries == [] then []
    else
      var init := entries[..|entries| - 1];
      var last := entries[|entries| - 1];
      var front := GetFiles(dir, init);
      var files := front + (if last.isDirectory then [] else [Resolve(dir, last.name)]);
      assert forall i :: 0 <= i < |entries| && !entries[i].isDirectory ==>
        NonDirCount(entries[..i]) < |files| &&
        files[NonDirCount(entries[..i])] == Resolve(dir, entries[i].name) by {
        forall i | 0 <= i < |entries| && !entries[i].isDirectory
          ensures NonDirCount(entries[..i]) < |files|
          ensures files[NonDirCount(entries[..i])] == Resolve(dir, entries[i].name)
        {
          if i < |init| {
            assert init[..i] == entries[..i];
            assert init[i] == entries[i];
          } else {
            assert entries[..i] == init;
          }
        }
      }
      files
  }

  /** Every file of the result comes from a non-directory entry. */
  lemma {:induction false} FileComesFromEntry(dir: Path, entries: seq<Entry>, k: nat)
    requires k < NonDirCount(entries)
    ensures exists i :: 0 <= i < |entries| && !entries[i].isDirectory && NonDirCount(entries[..i]) == k
  {
    var init := entries[..|entries| - 1];
    if k < NonDirCount(init) {
      FileComesFromEntry(dir, init, k);
      var i :| 0 <= i < |init| && !init[i].isDirectory && NonDirCount(init[..i]) == k;
      assert init[..i] == entries[..i];
    } else {
      assert entries[..|entries| - 1] == init;
    }
  }

  /** `files.find(...)`: the index of the first file path accepted by the search. */
  function FindCandidate(files: seq<Path>): (r: Option<nat>)
    ensures r.Some? ==> r.value < |files| && IsCandidate(files[r.value])
    ensures r.Some? ==> forall j :: 0 <= j < r.value ==> !IsCandidate(files[j])
    ensures r.None? ==> forall j :: 0 <= j < |files| ==> !IsCandidate(files[j])
  {
    if files == [] then None
    else if IsCandidate(files[0]) then Some(0)
    else match FindCandidate(files[1..])
      case None => None
      case Some(k) => Some(k + 1)
  }

  /** Entry `i` is the first non-directory entry, in listing order, whose
      resolved path the search accepts. */
  ghost predicate FirstCandidateEntry(dir: Path, entries: seq<Entry>, i: int)
  {
    0 <= i < |entries| && !entries[i].isDirectory && IsCandidate(Resolve(dir, entries[i].name)) &&
    forall j :: 0 <= j < i && !entries[j].isDirectory ==> !IsCandidate(Resolve(dir, entries[j].name))
  }

  /** No non-directory entry of the listing has an accepted path. */
  ghost predicate NoAcceptedEntry(dir: Path, entries: seq<Entry>)
  {
    forall i :: 0 <= i < |entries| && !entries[i].isDirectory ==> !IsCandidate(Resolve(dir, entries[i].name))
  }

  /** Listing the files and then taking the first accepted one picks the
      first non-directory entry of the listing whose path is accepted, and
      finds nothing exactly when no such entry exists. */
  lemma {:induction false} FindCandidateInListing(dir: Path, entries: seq<Entry>)
    ensures FindCandidate(GetFiles(dir, entries)).None? <==> NoAcceptedEntry(dir, entries)
    ensures FindCandidate(GetFiles(dir, entries)).Some? ==>
      exists i :: FirstCandidateEntry(dir, entries, i) &&
        FindCandidate(GetFiles(dir, entries)).value == NonDirCount(entries[..i])
  {
    var files := GetFiles(dir, entries);
    var r := FindCandidate(files);
    if r.Some? {
      FileComesFromEntry(dir, entries, r.value);
      var i :| 0 <= i < |entries| && !entries[i].isDirectory && NonDirCount(entries[..i]) == r.value;
      assert IsCandidate(Resolve(dir, entries[i].name));
      forall j | 0 <= j < i && !entries[j].isDirectory
        ensures !IsCandidate(Resolve(dir, entries[j].name))
      {
        NonDirRankIncreases(entries, j, i);
        assert files[NonDirCount(entries[..j])] == Resolve(dir, entries[j].name);
      }
      assert FirstCandidateEntry(dir, entries, i);
    } else {
      forall i | 0 <= i < |entries| && !entries[i].isDirectory
        ensures !IsCandidate(Resolve(dir, entries[i].name))
      {
        assert files[NonDirCount(entries[..i])] == Resolve(dir, entries[i].name);
      }
    }
  }

  /** What examining one directory level decides. */
  datatype LevelOutcome =
    | Found(path: Path)
    | NoCandidate
    | PermissionSkipped(error: FsError)
    | Fatal(error: FsError)
  {
    /** The walk goes on to the parent directory. */
    predicate Continues()
    {
      NoCandidate? || PermissionSkipped?
    }
  }

  /** How a thrown filesystem error ends a level: skipped on a permission
      error, fatal otherwise. */
  function Caught(e: FsError): (o: LevelOutcome)
    ensures o.PermissionSkipped? <==> IsPermissionDenied(e)
    ensures o == PermissionSkipped(e) || o == Fatal(e)
  {
    if IsPermissionDenied(e) then PermissionSkipped(e) else Fatal(e)
  }

  /** One iteration of the loop in `findEditorConfig`: list `dir`, take its
      first accepted file and check that it is readable. A permission error
      from either step skips the level; any other error is fatal. */
  function ExamineLevel(fs: FileSystem, dir: Path): (o: LevelOutcome)
    ensures o.Found? ==> Dirname(o.path) == dir && |o.path| == |dir| + 1
    ensures o.Found? ==> IsCandidate(o.path) && fs.accessRead(o.path) == Readable
    ensures o.PermissionSkipped? ==> IsPermissionDenied(o.error)
    ensures o.Fatal? ==> !IsPermissionDenied(o.error)
  {
    match fs.readDir(dir)
    case ListFailed(e) => Caught(e)
    case Listed(entries) => ExamineListing(fs, dir, entries)
  }

  /** The readability check on the chosen file settles the level: `Found`
      when it passes, the caught error when it throws. */
  function AccessOutcome(fs: FileSystem, p: Path): (o: LevelOutcome)
    ensures o.Found? <==> fs.accessRead(p) == Readable
    ensures o.Found? ==> o.path == p
    ensures !o.Found? ==> o == Caught(fs.accessRead(p).error)
  {
    match fs.accessRead(p)
    case Readable => Found(p)
    case AccessFailed(e) => Caught(e)
  }

  /** The part of a level after a successful listing. */
  function ExamineListing(fs: FileSystem, dir: Path, entries: seq<Entry>): (o: LevelOutcome)
    ensures o.Found? ==> Dirname(o.path) == dir && |o.path| == |dir| + 1
    ensures o.Found? ==> IsCandidate(o.path) && fs.accessRead(o.path) == Readable
    ensures o.Found? ==> FindCandidate(GetFiles(dir, entries)).Some?
    ensures o.Found? ==> o.path == GetFiles(dir, entries)[FindCandidate(GetFiles(dir, entries)).value]
    ensures o.PermissionSkipped? ==> IsPermissionDenied(o.error)
    ensures o.Fatal? ==> !IsPermissionDenied(o.error)
  {
    var files := GetFiles(dir, entries);
    var candidate := FindCandidate(files);
    if candidate.None? then NoCandidate
    else
      var p := files[candidate.value];

      AccessOutcome(fs, p)
  }

  /** A found file is the first non-directory entry of the level's listing
      whose path is accepted, and it is readable. */
  lemma {:induction false} ExamineLevelFound(fs: FileSystem, dir: Path)
    requires ExamineLevel(fs, dir).Found?
    ensures fs.readDir(dir).Listed?
    ensures exists i ::
      FirstCandidateEntry(dir, fs.readDir(dir).entries, i) &&
      ExamineLevel(fs, dir).path == Resolve(dir, fs.readDir(dir).entries[i].name)
  {
    var entries := fs.readDir(dir).entries;
    var files := GetFiles(dir, entries);
    FindCandidateInListing(dir, entries);
    var k := FindCandidate(files).value;
    var i :| FirstCandidateEntry(dir, entries, i) && k == NonDirCount(entries[..i]);
    assert files[k] == Resolve(dir, entries[i].name);
  }

  /** When the first accepted entry cannot be read for lack of permission,
      the level is skipped as a whole: later accepted entries of the same
      listing are not tried, however readable they are. */
  lemma {:induction false} DeniedCandidateSkipsLevel(fs: FileSystem, dir: Path, i: nat, e: FsError)
    requires fs.readDir(dir).Listed? && FirstCandidateEntry(dir, fs.readDir(dir).entries, i)
    requires fs.accessRead(Resolve(dir, fs.readDir(dir).entries[i].name)) == AccessFailed(e)
    requires IsPermissionDenied(e)
    ensures ExamineLevel(fs, dir) == PermissionSkipped(e)
  {
    var entries := fs.readDir(dir).entries;
    FindCandidateInListing(dir, entries);
    var i' :| FirstCandidateEntry(dir, entries, i') &&
      FindCandidate(GetFiles(dir, entries)).value == NonDirCount(entries[..i']);
    assert i' == i;
  }

  /** Every way a level can go, read off the filesystem: a failed listing
      gives its caught error, a listing without accepted entries gives
      `NoCandidate`, and otherwise the readability check on the first
      accepted entry decides. */
  lemma {:induction false} ExamineLevelCases(fs: FileSystem, dir: Path)
    ensures fs.readDir(dir).ListFailed? ==> ExamineLevel(fs, dir) == Caught(fs.readDir(dir).error)
    ensures fs.readDir(dir).Listed? && NoAcceptedEntry(dir, fs.readDir(dir).entries) ==>
      ExamineLevel(fs, dir) == NoCandidate
    ensures fs.readDir(dir).Listed? ==>
      forall i :: FirstCandidateEntry(dir, fs.readDir(dir).entries, i) ==>
        ExamineLevel(fs, dir) == AccessOutcome(fs, Resolve(dir, fs.readDir(dir).entries[i].name))
  {
    match fs.readDir(dir)
    case ListFailed(_) =>
    case Listed(entries) =>
      var files := GetFiles(dir, entries);
      FindCandidateInListing(dir, entries);
      forall i | FirstCandidateEntry(dir, entries, i)
        ensures ExamineLevel(fs, dir) == AccessOutcome(fs, Resolve(dir, entries[i].name))
      {
        var k := FindCandidate(files).value;
        var i' :| FirstCandidateEntry(dir, entries, i') && k == NonDirCount(entries[..i']);
        FirstCandidateEntryUnique(dir, entries, i, i');
        assert files[k] == Resolve(dir, entries[i].name);
      }
  }

  /** There is only one first accepted entry. */
  lemma FirstCandidateEntryUnique(dir: Path, entries: seq<Entry>, i: int, j: int)
    requires FirstCandidateEntry(dir, entries, i) && FirstCandidateEntry(dir, entries, j)
    ensures i == j
  {
  }

  /** The first accepted entry of the listing exists and passes R_OK. */
  ghost predicate ReadableFirstCandidate(fs: FileSystem, dir: Path)
  {
    fs.readDir(dir).Listed? &&
    exists i :: FirstCandidateEntry(dir, fs.readDir(dir).entries, i) &&
      fs.accessRead(Resolve(dir, fs.readDir(dir).entries[i].name)) == Readable
  }

  /** `e` is what `readdirSync` threw at `dir`, or what `accessSync` threw
      on the first accepted entry. */
  ghost predicate LevelThrew(fs: FileSystem, dir: Path, e: FsError)
  {
    fs.readDir(dir) == ListFailed(e) ||
    (fs.readDir(dir).Listed? &&
     exists i :: FirstCandidateEntry(dir, fs.readDir(dir).entries, i) &&
       fs.accessRead(Resolve(dir, fs.readDir(dir).entries[i].name)) == AccessFailed(e))
  }

  /** The loop goes on past `dir`: no readable first accepted entry, and
      nothing thrown there but a permission error. */
  ghost predicate LevelGoesOn(fs: FileSystem, dir: Path)
  {
    !ReadableFirstCandidate(fs, dir) && forall e :: LevelThrew(fs, dir, e) ==> IsPermissionDenied(e)
  }

  /** The outcome of a level in the source's own terms, in both directions:
      it continues exactly when the loop goes on, it is found exactly when
      the first accepted entry is readable, and a fatal error is exactly an
      error other than EPERM/EACCES thrown by the listing or the check. */
  ghost predicate OutcomeInSourceTerms(fs: FileSystem, dir: Path)
  {
    (ExamineLevel(fs, dir).Continues() <==> LevelGoesOn(fs, dir)) &&
    (ExamineLevel(fs, dir).Found? <==> ReadableFirstCandidate(fs, dir)) &&
    forall e :: ExamineLevel(fs, dir) == Fatal(e) <==> LevelThrew(fs, dir, e) && !IsPermissionDenied(e)
  }

  /** Every level's outcome is the one the source gives it. */
  lemma {:induction false} ExamineLevelInSourceTerms(fs: FileSystem, dir: Path)
    ensures OutcomeInSourceTerms(fs, dir)
  {
    match fs.readDir(dir)
    case ListFailed(e) =>
      ListingFailedLevel(fs, dir);
    case Listed(entries) =>
      FindCandidateInListing(dir, entries);
      if FindCandidate(GetFiles(dir, entries)).None? {
        EmptyLevel(fs, dir);
      } else {
        var i :| FirstCandidateEntry(dir, entries, i) &&
          FindCandidate(GetFiles(dir, entries)).value == NonDirCount(entries[..i]);
        CandidateLevel(fs, dir, i);
      }
  }

  /** A failed listing: its error is the only one thrown, and it is caught. */
  lemma {:induction false} ListingFailedLevel(fs: FileSystem, dir: Path)
    requires fs.readDir(dir).ListFailed?
    ensures ExamineLevel(fs, dir) == Caught(fs.readDir(dir).error)
    ensures !ReadableFirstCandidate(fs, dir)
    ensures forall e :: LevelThrew(fs, dir, e) <==> e == fs.readDir(dir).error
    ensures OutcomeInSourceTerms(fs, dir)
  {
    ExamineLevelCases(fs, dir);
  }

  /** A listing without accepted entries: nothing is thrown and the level
      has no candidate. */
  lemma {:induction false} EmptyLevel(fs: FileSystem, dir: Path)
    requires fs.readDir(dir).Listed? && NoAcceptedEntry(dir, fs.readDir(dir).entries)
    ensures ExamineLevel(fs, dir) == NoCandidate
    ensures !ReadableFirstCandidate(fs, dir)
    ensures forall e :: !LevelThrew(fs, dir, e)
    ensures OutcomeInSourceTerms(fs, dir)
  {
    ExamineLevelCases(fs, dir);
  }

  /** A listing whose first accepted entry is `i`: the check on that entry
      decides, and its error is the only one thrown. */
  lemma {:induction false} CandidateLevel(fs: FileSystem, dir: Path, i: int)
    requires fs.readDir(dir).Listed? && FirstCandidateEntry(dir, fs.readDir(dir).entries, i)
    ensures var p := Resolve(dir, fs.readDir(dir).entries[i].name);
      ExamineLevel(fs, dir) == AccessOutcome(fs, p) &&
      (ReadableFirstCandidate(fs, dir) <==> fs.accessRead(p) == Readable)
    ensures forall e :: LevelThrew(fs, dir, e) <==>
      fs.accessRead(Resolve(dir, fs.readDir(dir).entries[i].name)) == AccessFailed(e)
    ensures OutcomeInSourceTerms(fs, dir)
  {
    var entries := fs.readDir(dir).entries;
    var p := Resolve(dir, entries[i].name);
    ExamineLevelCases(fs, dir);
    assert ExamineLevel(fs, dir) == AccessOutcome(fs, p);
    forall j | FirstCandidateEntry(dir, entries, j)
      ensures j == i
    {
      FirstCandidateEntryUnique(dir, entries, i, j);
    }
    assert ReadableFirstCandidate(fs, dir) <==> fs.accessRead(p) == Readable;
    assert forall e :: LevelThrew(fs, dir, e) <==> fs.accessRead(p) == AccessFailed(e);
  }

  /** Two filesystems agree on a directory's listing and on the readability
      of everything directly inside it. */
  ghost predicate SameLevel(fs1: FileSystem, fs2: FileSystem, dir: Path)
  {
    fs1.readDir(dir) == fs2.readDir(dir) &&
    forall name :: fs1.accessRead(Resolve(dir, name)) == fs2.accessRead(Resolve(dir, name))
  }

  /** A level's outcome depends only on that directory's direct contents. */
  lemma {:induction false} ExamineLevelFrame(fs1: FileSystem, fs2: FileSystem, dir: Path)
    requires SameLevel(fs1, fs2, dir)
    ensures ExamineLevel(fs1, dir) == ExamineLevel(fs2, dir)
  {
    match fs1.readDir(dir)
    case ListFailed(_) =>
    case Listed(entries) =>
      var files := GetFiles(dir, entries);
      match FindCandidate(files)
      case None =>
      case Some(i) =>

        assert files[i] == Resolve(dir, files[i][|dir|]);
  }

  /** What the walk returns once a level decides it. */
  function Decision(o: LevelOutcome): Result<Option<Path>, FsError>
  {
    match o
    case Found(p) => Ok(Some(p))
    case Fatal(e) => Err(e)
    case _ => Ok(None)
  }

  /** The walk from `folder` upward, as `findEditorConfig` performs it:
      examine `Dirname(folder)`, stop at the first level that decides, and
      give up with no result when `Dirname` reaches its fixed point. From
      the root there is nothing to walk; a returned path is an accepted,
      readable file directly inside one of `folder`'s ancestors (its
      directory is a proper prefix of `folder`); an error is never a
      permission error. */
  function Walk(fs: FileSystem, folder: Path): (r: Result<Option<Path>, FsError>)
    ensures folder == Root ==> r == Ok(None)
    ensures r.Ok? && r.value.Some? ==>
      var p := r.value.value;
      IsCandidate(p) && fs.accessRead(p) == Readable && Dirname(p) < folder
    ensures r.Err? ==> !IsPermissionDenied(r.error)
    decreases |folder|
  {
    var parent := Dirname(folder);
    if parent == folder then Ok(None)
    else
      var o := ExamineLevel(fs, parent);
      if o.Continues() then Walk(fs, parent) else Decision(o)
  }

  /** Level `m` (the directory `d[..m]`) is the nearest level to `d` that
      decides: every level between it and `d` goes on upward. */
  ghost predicate NearestDecisive(fs: FileSystem, d: Path, m: int)
  {
    0 <= m < |d| && !ExamineLevel(fs, d[..m]).Continues() &&
    forall k :: m < k < |d| ==> ExamineLevel(fs, d[..k]).Continues()
  }

  /** The nearest deciding level determines the walk's result. */
  lemma {:induction false} WalkStopsAtNearestDecisive(fs: FileSystem, d: Path, m: int)
    requires NearestDecisive(fs, d, m)
    ensures Walk(fs, d) == Decision(ExamineLevel(fs, d[..m]))
  {
    var parent := d[..|d| - 1];
    assert Dirname(d) == parent;
    if m < |d| - 1 {
      assert ExamineLevel(fs, parent).Continues();
      assert forall k :: 0 <= k <= |parent| ==> parent[..k] == d[..k];
      WalkStopsAtNearestDecisive(fs, parent, m);
    }
  }

  /** The walk finds nothing, without error, exactly when every level from
      the document's directory up to the root goes on upward; otherwise its
      result is the nearest deciding level's. */
  lemma {:induction false} WalkCharacterized(fs: FileSystem, d: Path)
    ensures Walk(fs, d) == Ok(None) <==>
      forall k :: 0 <= k < |d| ==> ExamineLevel(fs, d[..k]).Continues()
    ensures Walk(fs, d) != Ok(None) ==>
      exists m :: NearestDecisive(fs, d, m) && Walk(fs, d) == Decision(ExamineLevel(fs, d[..m]))
  {
    if d != Root {
      var parent := d[..|d| - 1];
      assert Dirname(d) == parent;
      assert forall k :: 0 <= k <= |parent| ==> parent[..k] == d[..k];
      var o := ExamineLevel(fs, parent);
      if o.Continues() {
        WalkCharacterized(fs, parent);
        if Walk(fs, d) != Ok(None) {
          var m :| NearestDecisive(fs, parent, m) && Walk(fs, parent) == Decision(ExamineLevel(fs, parent[..m]));
          assert NearestDecisive(fs, d, m);
        }
      } else {
        assert NearestDecisive(fs, d, |d| - 1);
      }
    }
  }

  /** A returned path passed the readability check and is the first
      accepted non-directory entry of some level, and every level nearer to
      the document let the loop go on: none had a readable first accepted
      entry and none threw anything but a permission error. */
  lemma {:induction false} FoundPathIsNearestReadableFile(fs: FileSystem, d: Path)
    requires Walk(fs, d).Ok? && Walk(fs, d).value.Some?
    ensures var p := Walk(fs, d).value.value;
      fs.accessRead(p) == Readable &&
      exists m :: 0 <= m < |d| && fs.readDir(d[..m]).Listed? &&
        (exists i :: FirstCandidateEntry(d[..m], fs.readDir(d[..m]).entries, i) &&
           p == Resolve(d[..m], fs.readDir(d[..m]).entries[i].name)) &&
        forall k :: m < k < |d| ==> LevelGoesOn(fs, d[..k])
  {
    WalkCharacterized(fs, d);
    var m :| NearestDecisive(fs, d, m) && Walk(fs, d) == Decision(ExamineLevel(fs, d[..m]));
    ExamineLevelFound(fs, d[..m]);
    NearerLevelsGoOn(fs, d, m);
  }

  /** Conversely, the nearest level with a readable first accepted entry,
      below which every level lets the loop go on, gives the result. */
  lemma {:induction false} WalkFindsNearestReadableFile(fs: FileSystem, d: Path, m: int, i: int)
    requires 0 <= m < |d| && fs.readDir(d[..m]).Listed?
    requires FirstCandidateEntry(d[..m], fs.readDir(d[..m]).entries, i)
    requires fs.accessRead(Resolve(d[..m], fs.readDir(d[..m]).entries[i].name)) == Readable
    requires forall k :: m < k < |d| ==> LevelGoesOn(fs, d[..k])
    ensures Walk(fs, d) == Ok(Some(Resolve(d[..m], fs.readDir(d[..m]).entries[i].name)))
  {
    CandidateLevel(fs, d[..m], i);
    forall k | m < k < |d|
      ensures ExamineLevel(fs, d[..k]).Continues()
    {
      ExamineLevelInSourceTerms(fs, d[..k]);
    }
    assert NearestDecisive(fs, d, m);
    WalkStopsAtNearestDecisive(fs, d, m);
  }

  /** The walk gives null without error exactly when every level from the
      document's directory up to the root lets the loop go on. */
  lemma {:induction false} WalkNullWhenAllLevelsGoOn(fs: FileSystem, d: Path)
    ensures Walk(fs, d) == Ok(None) <==> forall k :: 0 <= k < |d| ==> LevelGoesOn(fs, d[..k])
  {
    WalkCharacterized(fs, d);
    forall k | 0 <= k < |d|
      ensures ExamineLevel(fs, d[..k]).Continues() <==> LevelGoesOn(fs, d[..k])
    {
      ExamineLevelInSourceTerms(fs, d[..k]);
    }
  }

  /** The levels nearer than the nearest deciding one all let the loop go on. */
  lemma {:induction false} NearerLevelsGoOn(fs: FileSystem, d: Path, m: int)
    requires NearestDecisive(fs, d, m)
    ensures forall k :: m < k < |d| ==> LevelGoesOn(fs, d[..k])
  {
    forall k | m < k < |d|
      ensures LevelGoesOn(fs, d[..k])
    {
      ExamineLevelInSourceTerms(fs, d[..k]);
    }
  }

  /** An error out of the walk is never a permission error: it is what the
      listing or the readability check threw at some level, passed on
      unchanged, and every level nearer to the document let the loop go on. */
  lemma {:induction false} WalkErrorIsFatal(fs: FileSystem, d: Path)
    requires Walk(fs, d).Err?
    ensures !IsPermissionDenied(Walk(fs, d).error)
    ensures exists m :: NearestDecisive(fs, d, m) && ExamineLevel(fs, d[..m]) == Fatal(Walk(fs, d).error)
    ensures exists m ::
              && 0 <= m < |d|
              && LevelThrew(fs, d[..m], Walk(fs, d).error)
              && forall k :: m < k < |d| ==> LevelGoesOn(fs, d[..k])
  {
    WalkCharacterized(fs, d);
    var m :| NearestDecisive(fs, d, m) && Walk(fs, d) == Decision(ExamineLevel(fs, d[..m]));
    ExamineLevelInSourceTerms(fs, d[..m]);
    NearerLevelsGoOn(fs, d, m);
  }

  /** The walk looks at nothing but the direct contents of the document's
      ancestors: two filesystems that agree there give the same result,
      whatever lies below any subdirectory. */
  lemma {:induction false} WalkOnlyExaminesAncestors(fs1: FileSystem, fs2: FileSystem, d: Path)
    requires forall m :: 0 <= m < |d| ==> SameLevel(fs1, fs2, d[..m])
    ensures Walk(fs1, d) == Walk(fs2, d)
  {
    if d != Root {
      var parent := d[..|d| - 1];
      assert Dirname(d) == parent;
      ExamineLevelFrame(fs1, fs2, parent);
      assert forall k :: 0 <= k <= |parent| ==> parent[..k] == d[..k];
      WalkOnlyExaminesAncestors(fs1, fs2, parent);
    }
  }

  /** `findEditorConfig`: walk up from the document, one directory per
      iteration, until a readable candidate is found or the root has been
      examined. */
  method FindEditorConfig(fs: FileSystem, documentPath: Path) returns (r: Result<Option<Path>, FsError>)
    ensures r == Walk(fs, documentPath)
  {
    var testedFolder := documentPath;
    var editorConfig: Option<Path> := None;
    while editorConfig.None?
      invariant editorConfig.None? ==> Walk(fs, documentPath) == Walk(fs, testedFolder)
      invariant editorConfig.Some? ==> Walk(fs, documentPath) == Ok(editorConfig)
      decreases |testedFolder|
    {
      var newFolder := Dirname(testedFolder);
      if newFolder == testedFolder {
        break;
      }
      ghost var level := ExamineLevel(fs, newFolder);
      assert Walk(fs, testedFolder) ==
        if level.Continues() then Walk(fs, newFolder) else Decision(level);
      testedFolder := newFolder;
      var listing := fs.readDir(testedFolder);
      if listing.ListFailed? {
        assert level == Caught(listing.error);
        if IsPermissionDenied(listing.error) {
          continue;
        }
        return Err(listing.error);
      }
      assert level == ExamineListing(fs, testedFolder, listing.entries);
      var files := GetFiles(testedFolder, listing.entries);
      var potentialEditorConfig := FindCandidate(files);
      if potentialEditorConfig.Some? {
        var access := fs.accessRead(files[potentialEditorConfig.value]);
        if access.AccessFailed? {
          assert level == Caught(access.error);
          if IsPermissionDenied(access.error) {
            continue;
          }
          return Err(access.error);
        }
        assert level == Found(files[potentialEditorConfig.value]);
        editorConfig := Some(files[potentialEditorConfig.value]);
      } else {
        assert level == NoCandidate;
      }
    }
    return Ok(editorConfig);
  }
}
