/**
 * An abstract snapshot of what the backend can observe of the file system:
 * the home directory, the nodes that exist by path, and what reading them
 * yields. Every operating-system call of the backend becomes a lookup here.
 */
module Store {
  import opened Wrappers
  import opened CaptureTypes
  import Base64

  type Path = string

  type byte = Base64.byte

  /** A point in time, in nanoseconds relative to the Unix epoch (negative before it). */
  type SystemTime = int

  const NanosPerSecond: nat := 1_000_000_000

  /** The captures directory, relative to the home directory. */
  const CapturesSubpath: Path := "Library/Application Support/Grab/captures"

  /**
   * `base.join(p)` on Unix: an absolute `p` replaces `base`; otherwise a
   * separator is inserted unless `base` is empty or already ends with one.
   */
  function Join(base: Path, p: Path): (r: Path)
    ensures |p| > 0 && p[0] == '/' ==> r == p
    ensures !(|p| > 0 && p[0] == '/') && |base| > 0 && base[|base| - 1] != '/' ==> r == base + "/" + p
    ensures !(|p| > 0 && p[0] == '/') && (|base| == 0 || base[|base| - 1] == '/') ==> r == base + p
  {
    if |p| > 0 && p[0] == '/' then p
    else if |base| == 0 || base[|base| - 1] == '/' then base + p
    else base + "/" + p
  }

  function CapturesPath(home: Path): Path
  {
    Join(home, CapturesSubpath)
  }

  /** The path `<name>.json` in directory `dir` where the sidecar record of `name` lives. */
  function SidecarPath(dir: Path, name: string): Path
  {
    Join(dir, name + ".json")
  }

  /** The sidecar path is the capture's own path with ".json" appended. */
  lemma SidecarBesideCapture(dir: Path, name: string)
    ensures SidecarPath(dir, name) == Join(dir, name) + ".json"
  {
  }

  /** What `entry.metadata()` yields: a failure, or the length and the optional modification time. */
  datatype FileInfo = InfoFailed | FileInfo(len: nat, modified: Option<SystemTime>)

  /**
   * One item of a directory enumeration: a failure to read the entry, or the
   * entry's file name (None when it is not valid UTF-8), whether its path is
   * a regular file, and its stat outcome.
   */
  datatype DirEntry =
    | EntryFailed
    | Entry(name: Option<string>, isFile: bool, info: FileInfo)

  /**
   * A node that exists. A directory carries the outcome of enumerating it; a
   * file carries the outcomes of the three ways the backend reads one: raw
   * bytes (`fs::read`), UTF-8 text (`fs::read_to_string`) and the sidecar
   * schema applied to that text (`serde_json::from_str`, None when the text
   * does not parse as a `CaptureMetadata`).
   */
  datatype Node =
    | Directory(listing: Option<seq<DirEntry>>)
    | File(bytes: Option<seq<byte>>, text: Option<string>, parsed: Option<CaptureMetadata>)

  datatype Store = Store(home: Option<Path>, nodes: map<Path, Node>)

  /** `path.exists()` */
  predicate Exists(s: Store, p: Path)
  {
    p in s.nodes
  }

  /** `fs::read_dir(p)` followed by collecting its entries; None when it fails. */
  function ReadDir(s: Store, p: Path): Option<seq<DirEntry>>
  {
    if p in s.nodes && s.nodes[p].Directory? then s.nodes[p].listing else None
  }

  /** `fs::read(p)`; None when it fails. */
  function ReadBytes(s: Store, p: Path): Option<seq<byte>>
  {
    if p in s.nodes && s.nodes[p].File? then s.nodes[p].bytes else None
  }

  /** `fs::read_to_string(p)`; None when it fails. */
  function ReadText(s: Store, p: Path): Option<string>
  {
    if p in s.nodes && s.nodes[p].File? then s.nodes[p].text else None
  }

  /** `serde_json::from_str::<CaptureMetadata>` applied to the text of the file at `p`. */
  function ParsedMetadata(s: Store, p: Path): Option<CaptureMetadata>
  {
    if p in s.nodes && s.nodes[p].File? && s.nodes[p].text.Some? then s.nodes[p].parsed else None
  }
}
