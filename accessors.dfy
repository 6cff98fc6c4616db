/**
 * The single-artifact commands of the backend (grab-actions/src-tauri/src/main.rs,
 * lines 54-65 and 142-193): each resolves a path under the captures directory,
 * answers "not found" when nothing is there, and otherwise returns what reading
 * it yields.
 */
module Accessors {
  import opened Wrappers
  import opened CaptureTypes
  import opened Store
  import Base64

  /** `get_captures_dir` */
  function GetCapturesDir(s: Store): (r: Result<Path, Error>)
    ensures r == Err(HomeNotFound) <==> s.home.None?
    ensures r == Err(CapturesDirNotFound) <==> s.home.Some? && !Exists(s, CapturesPath(s.home.value))
    ensures r.Ok? ==> s.home.Some? && r.value == Join(s.home.value, CapturesSubpath) && Exists(s, r.value)
    ensures s.home.Some? && Exists(s, CapturesPath(s.home.value)) ==> r == Ok(CapturesPath(s.home.value))
  {
    match s.home
    case None => Err(HomeNotFound)
    case Some(home) =>
      var dir := CapturesPath(home);
      if Exists(s, dir) then Ok(dir) else Err(CapturesDirNotFound)
  }

  /** `load_capture_metadata`: read the sidecar as text, then parse it. */
  function LoadCaptureMetadata(s: Store, p: Path): (r: Result<CaptureMetadata, Error>)
    ensures r.Err? ==> r.error in {MetadataReadFailed, MetadataParseFailed}
    ensures r == Err(MetadataReadFailed) <==> ReadText(s, p).None?
    ensures r.Ok? <==> ParsedMetadata(s, p).Some?
    ensures r.Ok? ==> r.value == ParsedMetadata(s, p).value
  {
    match ReadText(s, p)
    case None => Err(MetadataReadFailed)
    case Some(_) =>
      match ParsedMetadata(s, p)
      case None => Err(MetadataParseFailed)
      case Some(m) => Ok(m)
  }

  /** `get_capture_metadata(filename)`: the record in `<filename>.json` of the captures directory. */
  function GetCaptureMetadata(s: Store, filename: string): (r: Result<CaptureMetadata, Error>)
    ensures s.home.None? ==> r == Err(HomeNotFound)
    ensures s.home.Some? ==>
      var sidecar := SidecarPath(CapturesPath(s.home.value), filename);
      && (r == Err(MetadataNotFound) <==> !Exists(s, sidecar))
      && (Exists(s, sidecar) ==> r == LoadCaptureMetadata(s, sidecar))
  {
    match s.home
    case None => Err(HomeNotFound)
    case Some(home) =>
      var sidecar := SidecarPath(CapturesPath(home), filename);
      if !Exists(s, sidecar) then Err(MetadataNotFound) else LoadCaptureMetadata(s, sidecar)
  }

  /** `get_text_content(filename)`: the text of `filename` in the captures directory. */
  function GetTextContent(s: Store, filename: string): (r: Result<string, Error>)
    ensures s.home.None? ==> r == Err(HomeNotFound)
    ensures s.home.Some? ==>
      var file := Join(CapturesPath(s.home.value), filename);
      && (r == Err(TextNotFound) <==> !Exists(s, file))
      && (r.Ok? <==> ReadText(s, file).Some?)
      && (r.Ok? ==> r.value == ReadText(s, file).value)
      && (Exists(s, file) && ReadText(s, file).None? ==> r == Err(TextReadFailed))
  {
    match s.home
    case None => Err(HomeNotFound)
    case Some(home) =>
      var file := Join(CapturesPath(home), filename);
      if !Exists(s, file) then Err(TextNotFound)
      else
        match ReadText(s, file)
        case None => Err(TextReadFailed)
        case Some(text) => Ok(text)
  }

  /**
   * `get_image_content(filename)`: the bytes of `filename` in the captures
   * directory, base64-encoded; decoding the answer gives back exactly the bytes.
   */
  function GetImageContent(s: Store, filename: string): (r: Result<string, Error>)
    ensures s.home.None? ==> r == Err(HomeNotFound)
    ensures s.home.Some? ==>
      var file := Join(CapturesPath(s.home.value), filename);
      && (r == Err(ImageNotFound) <==> !Exists(s, file))
      && (r.Ok? <==> ReadBytes(s, file).Some?)
      && (r.Ok? ==> Base64.Decode(r.value) == ReadBytes(s, file))
      && (Exists(s, file) && ReadBytes(s, file).None? ==> r == Err(ImageReadFailed))
  {
    match s.home
    case None => Err(HomeNotFound)
    case Some(home) =>
      var file := Join(CapturesPath(home), filename);
      if !Exists(s, file) then Err(ImageNotFound)
      else
        match ReadBytes(s, file)
        case None => Err(ImageReadFailed)
        case Some(data) =>
          Base64.DecodeEncode(data);
          Ok(Base64.Encode(data))
  }

  /**
   * The accessors join the requested name onto the captures directory the way
   * `Path::join` does, so an absolute name is looked up as it stands, outside
   * that directory.
   */
  lemma AbsoluteNameIsLookedUpAsGiven(s: Store, filename: string)
    requires s.home.Some? && |filename| > 0 && filename[0] == '/'
    ensures GetTextContent(s, filename) == Err(TextNotFound) <==> !Exists(s, filename)
    ensures GetTextContent(s, filename).Ok? <==> ReadText(s, filename).Some?
    ensures GetImageContent(s, filename).Ok? <==> ReadBytes(s, filename).Some?
  {
  }
}
