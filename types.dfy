/**
 * The records the backend hands to the presentation layer and the errors it
 * reports (grab-actions/src-tauri/src/main.rs, lines 11-51).
 */
module CaptureTypes {
  import opened Wrappers

  /** A 64-bit IEEE float, carried as its bit pattern: the backend never computes with it. */
  type F64 = bv64

  datatype Dimensions = Dimensions(width: F64, height: F64)

  /** The optional details of a sidecar record (`MetadataDetails`). */
  datatype MetadataDetails = MetadataDetails(
    dimensions: Option<Dimensions>,
    applicationName: Option<string>,
    windowTitle: Option<string>,
    clipboardType: Option<string>)

  /** A sidecar record as the capture producer wrote it (`CaptureMetadata`). */
  datatype CaptureMetadata = CaptureMetadata(
    id: string,
    timestamp: string,
    captureType: string,
    filename: string,
    fileExtension: string,
    fileSize: int,
    metadata: MetadataDetails)

  /** One entry of the capture listing (`CaptureFile`). */
  datatype CaptureFile = CaptureFile(
    name: string,
    path: string,
    modified: nat,
    size: nat,
    captureType: string,
    hasMetadata: bool,
    metadata: Option<CaptureMetadata>)

  const ImageType: string := "image"
  const TextType: string := "text"

  /**
   * The failures the commands report. The backend reports each as a string;
   * `Message` gives that string, without the operating-system detail that
   * some of them append after a colon.
   */
  datatype Error =
    | HomeNotFound
    | CapturesDirNotFound
    | ReadDirFailed
    | EntryReadFailed
    | FileMetadataFailed
    | MetadataReadFailed
    | MetadataParseFailed
    | MetadataNotFound
    | TextNotFound
    | TextReadFailed
    | ImageNotFound
    | ImageReadFailed

  function Message(e: Error): string
  {
    match e
    case HomeNotFound => "Could not find home directory"
    case CapturesDirNotFound => "Captures directory not found"
    case ReadDirFailed => "Failed to read captures directory"
    case EntryReadFailed => "Failed to read directory entry"
    case FileMetadataFailed => "Failed to read file metadata"
    case MetadataReadFailed => "Failed to read metadata file"
    case MetadataParseFailed => "Failed to parse metadata"
    case MetadataNotFound => "Metadata file not found"
    case TextNotFound => "Text file not found"
    case TextReadFailed => "Failed to read text file"
    case ImageNotFound => "Image file not found"
    case ImageReadFailed => "Failed to read image file"
  }

  /** No two failures share a message, so the caller can tell every one apart from its text alone. */
  lemma MessagesDistinct(e1: Error, e2: Error)
    ensures Message(e1) == Message(e2) <==> e1 == e2
  {
  }
}
