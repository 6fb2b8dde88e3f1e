/**
 * The file system as the plugins see it: a map from path to file contents,
 * and the few `FileManager` operations the iOS plugin calls on it.
 *
 * Only regular files are entries; a directory is implicit in the paths of the
 * files under it. `Limits` says where the platform refuses an operation: the
 * paths it will not delete, the paths at which it will not create a copy (a
 * permission denial, a full disk, a source it cannot read), the existing files
 * it cannot read (too large to load, an I/O error), and the directories it
 * cannot list. It is how failures of `removeItem`, `copyItem`,
 * `Data(contentsOf:)` and `contentsOfDirectory` enter the model, independently
 * of each other.
 */
module Store {
  import opened Common
  import opened Paths

  type Files = map<Path, seq<byte>>

  /** The errors `FileManager` reports, with the path they concern. */
  datatype FsError = NoSuchFile(path: Path) | AlreadyExists(path: Path) | PermissionDenied(path: Path) | Unreadable(path: Path)
  {
    /** Stands for the error's `localizedDescription`. */
    function Description(): string
    {
      match this
      case NoSuchFile(p) => "No such file: " + p
      case AlreadyExists(p) => "File exists: " + p
      case PermissionDenied(p) => "Permission denied: " + p
      case Unreadable(p) => "Cannot read: " + p
    }
  }

  /**
   * The paths `removeItem` refuses to delete, those at which `copyItem` refuses
   * to create a file, the files `Data(contentsOf:)` cannot read, and the
   * directories `contentsOfDirectory` cannot list.
   */
  datatype Limits = Limits(undeletable: set<Path>, uncreatable: set<Path>, unreadable: set<Path>, unlistable: set<Path>)

  /** The files after one operation, and the error it reported if it failed. */
  datatype Step = Step(files: Files, error: Option<FsError>)

  /** `removeItem(at:)`: fails on a missing or undeletable path, and otherwise deletes it. */
  function RemoveStep(files: Files, undeletable: set<Path>, p: Path): (s: Step)
    ensures s.error.None? <==> p in files && p !in undeletable
    ensures s.files == if s.error.None? then files - {p} else files
  {
    if p !in files then Step(files, Some(NoSuchFile(p)))
    else if p in undeletable then Step(files, Some(PermissionDenied(p)))
    else Step(files - {p}, None)
  }

  /** `copyItem(at:to:)`: never overwrites; fails on a missing source, an existing destination, or one it cannot create. */
  function CopyStep(files: Files, uncreatable: set<Path>, src: Path, dst: Path): (s: Step)
    ensures s.error.None? <==> src in files && dst !in files && dst !in uncreatable
    ensures s.files == if s.error.None? then files[dst := files[src]] else files
  {
    if src !in files then Step(files, Some(NoSuchFile(src)))
    else if dst in files then Step(files, Some(AlreadyExists(dst)))
    else if dst in uncreatable then Step(files, Some(PermissionDenied(dst)))
    else Step(files[dst := files[src]], None)
  }

  /** `Data(contentsOf:)`: the contents of a file, or the error for a missing or unreadable one. */
  function ReadStep(files: Files, unreadable: set<Path>, p: Path): (r: Result<seq<byte>, FsError>)
    ensures r.Ok? <==> p in files && p !in unreadable
    ensures r.Ok? ==> r.value == files[p]
    ensures r.Err? && p in files ==> r.error == Unreadable(p)
  {
    if p !in files then Err(NoSuchFile(p))
    else if p in unreadable then Err(Unreadable(p))
    else Ok(files[p])
  }

  /** The files directly inside dir. */
  function Entries(files: Files, dir: Path): (e: set<Path>)
    ensures forall p :: p in e <==> p in files && InDirectory(p, dir)
  {
    set p | p in files && InDirectory(p, dir)
  }

  class FileSystem {
    var files: Files
    const limits: Limits

    constructor (initial: Files, refused: Limits)
      ensures files == initial && limits == refused
    {
      files := initial;
      limits := refused;
    }

    /** `fileExists(atPath:)`. */
    method FileExists(p: Path) returns (b: bool)
      ensures b <==> p in files
    {
      b := p in files;
    }

    method RemoveItem(p: Path) returns (error: Option<FsError>)
      modifies this
      ensures Step(files, error) == RemoveStep(old(files), limits.undeletable, p)
    {
      var s := RemoveStep(files, limits.undeletable, p);
      files, error := s.files, s.error;
    }

    method CopyItem(src: Path, dst: Path) returns (error: Option<FsError>)
      modifies this
      ensures Step(files, error) == CopyStep(old(files), limits.uncreatable, src, dst)
    {
      var s := CopyStep(files, limits.uncreatable, src, dst);
      files, error := s.files, s.error;
    }

    method ContentsOf(p: Path) returns (r: Result<seq<byte>, FsError>)
      ensures r == ReadStep(files, limits.unreadable, p)
    {
      r := ReadStep(files, limits.unreadable, p);
    }

    /** `contentsOfDirectory(at:)`: every entry of dir exactly once, in an order the platform chooses, or the error. */
    method ContentsOfDirectory(dir: Path) returns (r: Result<seq<Path>, FsError>)
      ensures r.Ok? <==> dir !in limits.unlistable
      ensures r.Ok? ==> Distinct(r.value) && Elements(r.value) == Entries(files, dir)
      ensures r.Err? ==> r.error == Unreadable(dir)
    {
      if dir in limits.unlistable {
        return Err(Unreadable(dir));
      }
      var pending := Entries(files, dir);
      var listing := [];
      while pending != {}
        invariant Distinct(listing)
        invariant pending !! Elements(listing)
        invariant pending + Elements(listing) == Entries(files, dir)
        decreases |pending|
      {
        var p :| p in pending;
        listing := listing + [p];
        pending := pending - {p};
      }
      return Ok(listing);
    }
  }
}
