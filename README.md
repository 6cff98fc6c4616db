# Grab capture registry, modelled in Dafny

The backend of the Grab desktop app serves its presentation layer five
commands over the captures directory `~/Library/Application Support/Grab/captures`:
`get_captures_dir`, `list_captures`, `get_capture_metadata`, `get_text_content`
and `get_image_content`. Captures are image files (`.png`, `.jpg`, `.jpeg`) and
text snippets (`.txt`) written by an external capture tool; each may have a
sidecar `<name>.json` holding a `CaptureMetadata` record.

This project models those commands over an abstract snapshot of the file
system (`Store.Store`): the home directory (or its absence) and a map from
paths to the nodes that exist there. A directory node carries the outcome of
enumerating it: a failure, or a sequence of entries, each either unreadable or
a file name (None when it is not UTF-8), an is-file flag and a stat outcome
(failure, or a length and an optional modification time). A file node carries
the outcomes of reading it as bytes, as UTF-8 text, and of parsing that text as
a sidecar record.

- `list_captures` is the method `Registry.ListCaptures`: a loop over the
  enumeration that builds the capture list, with early error returns, followed by
  the stable newest-first sort. It is proved equal to the pure function
  `Registry.Listing`. The lemmas about `Listing` give the filter, the
  classification, the sidecar pairing, the order and the error cases.
- `load_capture_metadata` and the four accessors are pure functions in
  `Accessors`. Each is a guard-then-return chain. Lemmas in `Registry` relate
  `get_captures_dir`, `get_capture_metadata` (through `load_capture_metadata`),
  `get_text_content` and `get_image_content` to the listing.
- `Path::join` is `Store.Join`, the Unix `PathBuf::push` rule: an absolute
  operand replaces the base; otherwise one separator is inserted unless the
  base is empty or already ends in one.
- `sort_by` is modelled by a stable insertion sort (`NewestFirst`).
- `base64::encode` is modelled by the padded encoding of section 4 of RFC 4648
  (`Base64`). A decoder is proved to invert it.
- `Scenarios` works one directory through the listing: an image with a sidecar,
  a text file, the sidecar itself and a video file.

The suffix test is case-sensitive. Only `.png`, `.jpg`, `.jpeg` and `.txt` are
recognised. The directory is fixed under the home directory. `sort_by` is
stable, so captures modified in the same second keep their enumeration order.
`get_captures_dir` reports a missing directory as an error, while
`list_captures` reports it as an empty list.

## Model

| member | source | states |
|---|---|---|
| `Registry.ListCaptures` | grab-actions/src-tauri/src/main.rs:68-140 | The method returns exactly `Listing(s)`. The loop keeps two facts about the processed prefix of the enumeration: no entry in it failed, and the list holds its records in enumeration order. An unreadable entry or a failed stat returns that error at once. Otherwise the list is sorted newest first |
| `Registry.ListingFailsOnDirectory` | grab-actions/src-tauri/src/main.rs:69-79 | A missing home directory gives `Err("Could not find home directory")`, and nothing else gives that error. A missing captures directory gives `Ok([])`. A directory that cannot be enumerated gives the read-directory error, and nothing else gives that error |
| `Registry.ListingFailsOnEntry` | grab-actions/src-tauri/src/main.rs:78-92 | When the directory can be enumerated, the listing fails exactly when some entry cannot be read, or some admitted entry cannot be stat'ed. The error is that of the earliest such entry. A stat failure on an entry that is not admitted is ignored |
| `Registry.FirstFailureIsEarliest` | grab-actions/src-tauri/src/main.rs:81-92 | The scan has no failure exactly when no entry fails. Otherwise its failure is that of an entry with no failing entry before it |
| `Registry.FirstFailure` | grab-actions/src-tauri/src/main.rs:82-92 | The only errors a scanned entry can cause are the entry-read error and the file-metadata error |
| `Registry.ModifiedSeconds` | grab-actions/src-tauri/src/main.rs:94-99 | `modified` is the modification time in whole seconds, truncated. It is 0 when the time is unavailable or before the epoch |
| `Registry.RecordForDescribes` | grab-actions/src-tauri/src/main.rs:85-130 | An admitted entry whose stat succeeds yields exactly one record, as `Describes` states. Any other entry yields none |
| `Registry.RecordsOfJoin` | grab-actions/src-tauri/src/main.rs:81-134 | The records of a concatenation of entries are the records of each part, in order. The scan keeps enumeration order |
| `Registry.RecordsComeFromEntries` | grab-actions/src-tauri/src/main.rs:85-131 | Every scanned record describes some entry, as `Describes` states. The entry is a regular file with a UTF-8 name that ends in a recognised suffix |
| `Registry.RecordsCount` | grab-actions/src-tauri/src/main.rs:85-131 | When no entry failed, there is one record per admitted entry |
| `Registry.RecordOfEntry` | grab-actions/src-tauri/src/main.rs:85-131 | When no entry failed, an admitted entry has a record in the scan that describes it |
| `Registry.RecordsCoverEntries` | grab-actions/src-tauri/src/main.rs:85-131 | When no entry failed, every admitted entry has a describing record: nothing is dropped |
| `Registry.ListingIsOrdered` | grab-actions/src-tauri/src/main.rs:122-139 | A successful listing means no entry failed. The listing is sorted by `modified`, newest first. It is a permutation of the scanned records, one per admitted entry. For every second, the records modified in that second appear in enumeration order |
| `Registry.ListingDescribesEntries` | grab-actions/src-tauri/src/main.rs:85-130 | Each listed capture describes an admitted entry. Its name, path, size and `modified` come from that entry. `capture_type` is "image" exactly when the name ends in .png, .jpg or .jpeg, and "text" exactly when it ends in .txt and not in those. `has_metadata` is true exactly when `<name>.json` exists. `metadata` is the loaded record, or None when the sidecar is absent or fails to read or parse. Every admitted entry is listed |
| `Registry.ListedRecordEntry` | grab-actions/src-tauri/src/main.rs:85-130 | A listed capture comes from an entry of the captures directory, and it describes that entry |
| `Registry.SidecarNeverListed` | grab-actions/src-tauri/src/main.rs:87-90 | A sidecar named `<name>.json` never has a recognised suffix, so it is never listed |
| `Registry.ListingAgreesWithMetadataAccessor` | grab-actions/src-tauri/src/main.rs:102-114 | For every listed capture, `has_metadata` is true exactly when `get_capture_metadata(name)` does not answer "Metadata file not found". Its `metadata` is the `Ok` value of that call, or None when the call fails |
| `Registry.ListingAgreesWithCapturesDir` | grab-actions/src-tauri/src/main.rs:54-74 | `get_captures_dir` and `list_captures` fail together for want of a home directory. When `get_captures_dir` does not find the directory, the listing is empty. Every listed path is the capture's name joined to the directory that `get_captures_dir` returns |
| `Accessors.GetCapturesDir` | grab-actions/src-tauri/src/main.rs:54-65 | No home directory gives "Could not find home directory". A missing captures directory gives "Captures directory not found". When both exist, the call succeeds with the home directory joined with the fixed captures subpath |
| `Accessors.LoadCaptureMetadata` | grab-actions/src-tauri/src/main.rs:142-148 | It fails only with the read error or the parse error. The read error happens exactly when the file cannot be read as text. It succeeds exactly when the text parses, and then returns the parsed record |
| `Accessors.GetCaptureMetadata` | grab-actions/src-tauri/src/main.rs:151-162 | It answers "Metadata file not found" exactly when `<filename>.json` is absent from the captures directory. Otherwise it answers what loading that sidecar gives |
| `Accessors.GetTextContent` | grab-actions/src-tauri/src/main.rs:165-176 | It answers "Text file not found" exactly when the file is absent. It succeeds with the file's text exactly when the file reads as text. Otherwise it answers the read error |
| `Accessors.GetImageContent` | grab-actions/src-tauri/src/main.rs:179-193 | It answers "Image file not found" exactly when the file is absent. It succeeds exactly when the file's bytes can be read, and the answer decodes back to exactly those bytes. Otherwise it answers the read error |
| `Accessors.AbsoluteNameIsLookedUpAsGiven` | grab-actions/src-tauri/src/main.rs:168-185 | An absolute filename given to the content accessors is looked up as it stands, outside the captures directory, because `Path::join` replaces the base |
| `Registry.ListedSidecarBesideCapture` | grab-actions/src-tauri/src/main.rs:102-104 | A listed capture has `has_metadata` set exactly when its listed path with ".json" appended exists: the sidecar sits beside the capture it describes |
| `Registry.ListingAgreesWithContentAccessors` | grab-actions/src-tauri/src/main.rs:165-193 | For every listed capture, `get_text_content` and `get_image_content` of its name look up exactly the listed path. Each answers "not found" exactly when that path is absent, and succeeds exactly when the file there can be read. The text answer is that file's text |
| `NewestFirst.SortIsOrderedPermutation` | grab-actions/src-tauri/src/main.rs:137 | The sort is newest first, and its result is a permutation of its input |
| `NewestFirst.SortIsStable` | grab-actions/src-tauri/src/main.rs:137 | For every second, the records modified in that second keep their input order |
| `Base64.DecodeEncode` | grab-actions/src-tauri/src/main.rs:191 | Decoding the base64 text of any byte sequence gives back exactly those bytes |
| `Base64.EncodedLength` | grab-actions/src-tauri/src/main.rs:191 | The encoding takes four characters for every three bytes, counting a final one or two bytes as a group |
| `Scenarios.ScenarioListing` | grab-actions/src-tauri/src/main.rs:68-140 | The worked directory holds `note.txt`, `shot.png.json`, `shot.png` (newer) and `video.mov`. It lists as `shot.png` (image, with its sidecar record) followed by `note.txt` (text, no metadata) |

## Left out

- Tauri wiring and the `main` entry point (main.rs:195-206): framework plumbing, with no logic of its own.
- Real file-system calls (`dirs::home_dir`, `read_dir`, `metadata`, `is_file`, `exists`, `read_to_string`, `read`) become lookups in the `Store` snapshot. The enumerated entries and the path lookups are separate system calls, so the model does not force them to agree. A directory that changes during a listing is therefore allowed, not excluded. Path strings are not normalised: `dir/./a`, `dir//a` and `dir/a` are different keys of the snapshot, though the operating system treats them as one file.
- `Path::exists` returns false when a path cannot be stat'ed, for example when permission is denied. The model has no separate case for this and treats such a path as absent.
- `is_file` follows symbolic links, but `DirEntry::metadata` does not. The model takes both results from the entry as given and does not model links.
- `serde_json` deserialisation is a foreign library. Each file carries its parse outcome (a record or a failure), and no JSON parser is modelled. UTF-8 decoding by `read_to_string` is likewise an outcome carried by the file.
- The `f64` width and height in `Dimensions` are carried as opaque 64-bit patterns. Nothing computes with them.
- `u64` sizes and seconds are modelled as unbounded naturals. Every value the operating system reports fits in 64 bits, so no wrap-around can occur.
- The operating-system detail that some messages append after a colon is left out. `CaptureTypes.Message` gives the fixed part of each message.
- `to_string_lossy` is left out: paths are modelled as strings, so a home directory that is not UTF-8 is not represented.
- The algorithm inside the library's `sort_by` is not modelled. Any stable sort gives the same result, and a stable insertion sort stands in for it.
