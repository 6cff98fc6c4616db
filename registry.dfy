/**
 * `list_captures` (grab-actions/src-tauri/src/main.rs, lines 68-140): scan the
 * captures directory, keep the image and text artifacts, pair each with its
 * optional `<name>.json` sidecar and order them newest first.
 */
module Registry {
  import opened Wrappers
  import opened CaptureTypes
  import opened Store
  import opened NewestFirst
  import opened Accessors

  /** `name.ends_with(suffix)`, a case-sensitive comparison of the last characters. */
  predicate EndsWith(name: string, suffix: string)
  {
    |suffix| <= |name| && name[|name| - |suffix|..] == suffix
  }

  predicate IsImageName(name: string)
  {
    EndsWith(name, ".png") || EndsWith(name, ".jpg") || EndsWith(name, ".jpeg")
  }

  predicate IsTextName(name: string)
  {
    EndsWith(name, ".txt")
  }

  predicate IsCaptureName(name: string)
  {
    IsImageName(name) || IsTextName(name)
  }

  /** An entry the scan admits: a regular file whose UTF-8 name has a recognised suffix. */
  predicate IsCandidate(e: DirEntry)
  {
    e.Entry? && e.isFile && e.name.Some? && IsCaptureName(e.name.value)
  }

  /**
   * The `modified` field: whole seconds since the epoch, or 0 when the
   * modification time is unavailable or earlier than the epoch.
   */
  function ModifiedSeconds(t: Option<SystemTime>): (secs: nat)
    ensures t.Some? && t.value >= 0 ==> secs * NanosPerSecond <= t.value < (secs + 1) * NanosPerSecond
    ensures t.None? || t.value < 0 ==> secs == 0
  {
    match t
    case None => 0
    case Some(n) => if n < 0 then 0 else n / NanosPerSecond
  }

  /** How one entry makes the whole scan fail, if it does. */
  function EntryFailure(e: DirEntry): Option<Error>
  {
    if e.EntryFailed? then Some(EntryReadFailed)
    else if IsCandidate(e) && e.info.InfoFailed? then Some(FileMetadataFailed)
    else None
  }

  /** The failure of the earliest failing entry, if any. */
  function FirstFailure(entries: seq<DirEntry>): (r: Option<Error>)
    ensures r.Some? ==> r.value in {EntryReadFailed, FileMetadataFailed}
  {
    if entries == [] then None
    else
      var earlier := FirstFailure(entries[..|entries| - 1]);
      if earlier.Some? then earlier else EntryFailure(entries[|entries| - 1])
  }

  /** The record the scan builds for a candidate entry whose stat succeeded; none for any other entry. */
  function RecordFor(s: Store, dir: Path, e: DirEntry): seq<CaptureFile>
  {
    if IsCandidate(e) && e.info.FileInfo? then
      var name := e.name.value;
      var sidecar := SidecarPath(dir, name);
      var hasMetadata := Exists(s, sidecar);
      [CaptureFile(
        name,
        Join(dir, name),
        ModifiedSeconds(e.info.modified),
        e.info.len,
        if IsImageName(name) then ImageType else TextType,
        hasMetadata,
        if hasMetadata then LoadCaptureMetadata(s, sidecar).ToOption() else None)]
    else []
  }

  /** The records of the scanned entries, in enumeration order. */
  function Records(s: Store, dir: Path, entries: seq<DirEntry>): seq<CaptureFile>
  {
    if entries == [] then []
    else Records(s, dir, entries[..|entries| - 1]) + RecordFor(s, dir, entries[|entries| - 1])
  }

  function CountCandidates(entries: seq<DirEntry>): nat
  {
    if entries == [] then 0
    else CountCandidates(entries[..|entries| - 1]) + (if IsCandidate(entries[|entries| - 1]) then 1 else 0)
  }

  /** What `list_captures` answers for the store `s`. */
  function Listing(s: Store): Result<seq<CaptureFile>, Error>
  {
    match s.home
    case None => Err(HomeNotFound)
    case Some(home) =>
      var dir := CapturesPath(home);
      if !Exists(s, dir) then Ok([])
      else
        match ReadDir(s, dir)
        case None => Err(ReadDirFailed)
        case Some(entries) =>
          match FirstFailure(entries)
          case Some(e) => Err(e)
          case None => Ok(Sort(Records(s, dir, entries)))
  }

  /** `list_captures` */
  method ListCaptures(s: Store) returns (r: Result<seq<CaptureFile>, Error>)
    ensures r == Listing(s)
  {
    if s.home.None? {
      return Err(HomeNotFound);
    }
    var dir := CapturesPath(s.home.value);
    if !Exists(s, dir) {
      return Ok([]);
    }
    var captures: seq<CaptureFile> := [];
    var listing := ReadDir(s, dir);
    if listing.None? {
      return Err(ReadDirFailed);
    }
    var entries := listing.value;
    for i := 0 to |entries|
      invariant FirstFailure(entries[..i]) == None
      invariant captures == Records(s, dir, entries[..i])
    {
      var entry := entries[i];
      ScanStep(s, dir, entries, i);
      if entry.EntryFailed? {
        FirstFailureOfJoin(entries[..i + 1], entries[i + 1..]);
        assert entries[..i + 1] + entries[i + 1..] == entries;
        return Err(EntryReadFailed);
      }
      if entry.isFile && entry.name.Some? {
        var name := entry.name.value;
        var isImage := IsImageName(name);
        var isText := IsTextName(name);
        if isImage || isText {
          if entry.info.InfoFailed? {
            FirstFailureOfJoin(entries[..i + 1], entries[i + 1..]);
            assert entries[..i + 1] + entries[i + 1..] == entries;
            return Err(FileMetadataFailed);
          }
          var modified := ModifiedSeconds(entry.info.modified);
          var jsonPath := SidecarPath(dir, name);
          var hasMetadata := Exists(s, jsonPath);
          var metadata: Option<CaptureMetadata> := None;
          if hasMetadata {
            var loaded := LoadCaptureMetadata(s, jsonPath);
            if loaded.Ok? {
              metadata := Some(loaded.value);
            }
          }
          var captureType := if isImage then ImageType else TextType;
          var record := CaptureFile(name, Join(dir, name), modified, entry.info.len, captureType, hasMetadata, metadata);
          assert RecordFor(s, dir, entry) == [record];
          captures := captures + [record];
        } else {
          assert RecordFor(s, dir, entry) == [];
        }
      } else {
        assert RecordFor(s, dir, entry) == [];
      }
    }
    assert entries[..|entries|] == entries;
    captures := Sort(captures);
    return Ok(captures);
  }

  /** Scanning one more entry extends the scan of the entries before it. */
  lemma ScanStep(s: Store, dir: Path, entries: seq<DirEntry>, i: nat)
    requires i < |entries|
    ensures FirstFailure(entries[..i + 1]) ==
      if FirstFailure(entries[..i]).Some? then FirstFailure(entries[..i]) else EntryFailure(entries[i])
    ensures Records(s, dir, entries[..i + 1]) == Records(s, dir, entries[..i]) + RecordFor(s, dir, entries[i])
  {
    assert entries[..i + 1][..i] == entries[..i];
  }

  /** A failure among earlier entries wins over any failure after them. */
  lemma {:induction false} FirstFailureOfJoin(a: seq<DirEntry>, b: seq<DirEntry>)
    ensures FirstFailure(a + b) == if FirstFailure(a).Some? then FirstFailure(a) else FirstFailure(b)
    decreases |b|
  {
    if b == [] {
      assert a + b == a;
    } else {
      var b' := b[..|b| - 1];
      assert (a + b)[..|a + b| - 1] == a + b';
      assert (a + b)[|a + b| - 1] == b[|b| - 1];
      FirstFailureOfJoin(a, b');
    }
  }

  /**
   * The scan fails exactly when some entry cannot be read or some admitted
   * entry cannot be stat'ed, and then with the failure of the earliest such entry.
   */
  lemma {:induction false} FirstFailureIsEarliest(entries: seq<DirEntry>)
    ensures FirstFailure(entries).None? <==> forall k :: 0 <= k < |entries| ==> EntryFailure(entries[k]).None?
    ensures FirstFailure(entries).Some? ==>
      exists k :: 0 <= k < |entries| && EntryFailure(entries[k]) == FirstFailure(entries) &&
        forall j :: 0 <= j < k ==> EntryFailure(entries[j]).None?
    decreases |entries|
  {
    if entries != [] {
      var n := |entries| - 1;
      var init := entries[..n];
      FirstFailureIsEarliest(init);
      assert forall k :: 0 <= k < n ==> init[k] == entries[k];
      if FirstFailure(init).Some? {
        var k :| 0 <= k < n && EntryFailure(init[k]) == FirstFailure(init) &&
          forall j :: 0 <= j < k ==> EntryFailure(init[j]).None?;
        assert EntryFailure(entries[k]) == FirstFailure(entries);
      } else if EntryFailure(entries[n]).Some? {
        assert EntryFailure(entries[n]) == FirstFailure(entries);
      }
    }
  }

  /** The records of a concatenation are the records of its parts, in order: the scan keeps enumeration order. */
  lemma {:induction false} RecordsOfJoin(s: Store, dir: Path, a: seq<DirEntry>, b: seq<DirEntry>)
    ensures Records(s, dir, a + b) == Records(s, dir, a) + Records(s, dir, b)
    decreases |b|
  {
    if b == [] {
      assert a + b == a;
    } else {
      var b' := b[..|b| - 1];
      assert (a + b)[..|a + b| - 1] == a + b';
      assert (a + b)[|a + b| - 1] == b[|b| - 1];
      RecordsOfJoin(s, dir, a, b');
    }
  }

  /**
   * `c` is the record `list_captures` promises for the entry `e` of directory
   * `dir`: an admitted entry, its name, path, size and modification second,
   * the kind its suffix gives, and the sidecar outcome.
   */
  predicate Describes(s: Store, dir: Path, e: DirEntry, c: CaptureFile)
  {
    var sidecar := SidecarPath(dir, c.name);
    && IsCandidate(e) && e.info.FileInfo? && e.name.value == c.name
    && c.path == Join(dir, c.name)
    && c.size == e.info.len
    && c.modified == ModifiedSeconds(e.info.modified)
    && (c.captureType == ImageType <==> IsImageName(c.name))
    && (c.captureType == TextType <==> !IsImageName(c.name) && IsTextName(c.name))
    && (c.hasMetadata <==> Exists(s, sidecar))
    && (!c.hasMetadata ==> c.metadata.None?)
    && (c.metadata.Some? ==> LoadCaptureMetadata(s, sidecar) == Ok(c.metadata.value))
    && (c.hasMetadata && c.metadata.None? ==> LoadCaptureMetadata(s, sidecar).Err?)
  }

  lemma RecordForDescribes(s: Store, dir: Path, e: DirEntry)
    ensures forall c | c in RecordFor(s, dir, e) :: Describes(s, dir, e, c)
    ensures IsCandidate(e) && e.info.FileInfo? ==> |RecordFor(s, dir, e)| == 1
  {
    if IsCandidate(e) && e.info.FileInfo? {
      var c := RecordFor(s, dir, e)[0];
      assert IsImageName(c.name) ==> c.captureType == ImageType;
      assert !IsImageName(c.name) ==> c.captureType == TextType;
    }
  }

  /** Every record describes one of the entries: the scan invents nothing. */
  lemma {:induction false} RecordsComeFromEntries(s: Store, dir: Path, entries: seq<DirEntry>)
    ensures forall c | c in Records(s, dir, entries) :: exists k :: 0 <= k < |entries| && Describes(s, dir, entries[k], c)
    decreases |entries|
  {
    if entries != [] {
      var n := |entries| - 1;
      var init := entries[..n];
      RecordsComeFromEntries(s, dir, init);
      RecordForDescribes(s, dir, entries[n]);
      forall c | c in Records(s, dir, entries) ensures exists k :: 0 <= k < |entries| && Describes(s, dir, entries[k], c) {
        if c in Records(s, dir, init) {
          var k :| 0 <= k < n && Describes(s, dir, init[k], c);
          assert init[k] == entries[k];
        } else {
          assert Describes(s, dir, entries[n], c);
        }
      }
    }
  }

  /** When no entry failed, there is one record per admitted entry. */
  lemma {:induction false} RecordsCount(s: Store, dir: Path, entries: seq<DirEntry>)
    requires FirstFailure(entries).None?
    ensures |Records(s, dir, entries)| == CountCandidates(entries)
    decreases |entries|
  {
    if entries != [] {
      var n := |entries| - 1;
      RecordsCount(s, dir, entries[..n]);
      RecordForDescribes(s, dir, entries[n]);
    }
  }

  /** The record of the admitted entry at index `k`, when no entry failed. */
  lemma RecordOfEntry(s: Store, dir: Path, entries: seq<DirEntry>, k: nat) returns (c: CaptureFile)
    requires FirstFailure(entries).None? && k < |entries| && IsCandidate(entries[k])
    ensures c in Records(s, dir, entries) && Describes(s, dir, entries[k], c)
  {
    assert EntryFailure(entries[k]).None? by {
      FirstFailureIsEarliest(entries);
    }
    var one := RecordFor(s, dir, entries[k]);
    assert |one| == 1 && Describes(s, dir, entries[k], one[0]) by {
      RecordForDescribes(s, dir, entries[k]);
    }
    c := one[0];
    var before, after := entries[..k], entries[k + 1..];
    assert Records(s, dir, entries) == Records(s, dir, before) + one + Records(s, dir, after) by {
      assert entries == before + [entries[k]] + after;
      RecordsOfJoin(s, dir, before + [entries[k]], after);
      RecordsOfJoin(s, dir, before, [entries[k]]);
      assert [entries[k]][..0] == [];
      assert Records(s, dir, [entries[k]]) == one;
    }
  }

  /** When no entry failed, every admitted entry has its record: the scan drops nothing. */
  lemma RecordsCoverEntries(s: Store, dir: Path, entries: seq<DirEntry>)
    requires FirstFailure(entries).None?
    ensures forall k | 0 <= k < |entries| && IsCandidate(entries[k]) ::
      exists c :: c in Records(s, dir, entries) && Describes(s, dir, entries[k], c)
  {
    forall k | 0 <= k < |entries| && IsCandidate(entries[k])
      ensures exists c :: c in Records(s, dir, entries) && Describes(s, dir, entries[k], c)
    {
      var c := RecordOfEntry(s, dir, entries, k);
    }
  }

  /**
   * When the captures directory can be read, `list_captures` fails exactly
   * when some entry cannot be read or some admitted entry cannot be stat'ed,
   * and reports the earliest such entry's failure.
   */
  lemma ListingFailsOnEntry(s: Store, entries: seq<DirEntry>)
    requires s.home.Some? && ReadDir(s, CapturesPath(s.home.value)) == Some(entries)
    ensures Listing(s).Err? <==> exists k :: 0 <= k < |entries| && EntryFailure(entries[k]).Some?
    ensures Listing(s).Err? ==>
      exists k :: 0 <= k < |entries| && EntryFailure(entries[k]) == Some(Listing(s).error) &&
        forall j :: 0 <= j < k ==> EntryFailure(entries[j]).None?
  {
    FirstFailureIsEarliest(entries);
  }

  /**
   * The failures that do not depend on the entries: no home directory is an
   * error, a missing captures directory is an empty listing, an unreadable one
   * is an error.
   */
  lemma ListingFailsOnDirectory(s: Store)
    ensures Listing(s) == Err(HomeNotFound) <==> s.home.None?
    ensures s.home.Some? && !Exists(s, CapturesPath(s.home.value)) ==> Listing(s) == Ok([])
    ensures Listing(s) == Err(ReadDirFailed) <==>
      s.home.Some? && Exists(s, CapturesPath(s.home.value)) && ReadDir(s, CapturesPath(s.home.value)).None?
  {
  }

  /**
   * A successful listing is newest first, holds exactly the records of the
   * scan, one per admitted entry, and keeps entries of the same modification
   * second in enumeration order.
   */
  lemma ListingIsOrdered(s: Store, entries: seq<DirEntry>, cs: seq<CaptureFile>)
    requires s.home.Some? && ReadDir(s, CapturesPath(s.home.value)) == Some(entries)
    requires Listing(s) == Ok(cs)
    ensures forall k :: 0 <= k < |entries| ==> EntryFailure(entries[k]).None?
    ensures SortedNewestFirst(cs)
    ensures multiset(cs) == multiset(Records(s, CapturesPath(s.home.value), entries))
    ensures forall t: nat :: WithModified(cs, t) == WithModified(Records(s, CapturesPath(s.home.value), entries), t)
    ensures |cs| == CountCandidates(entries)
  {
    var dir := CapturesPath(s.home.value);
    var rs := Records(s, dir, entries);
    FirstFailureIsEarliest(entries);
    RecordsCount(s, dir, entries);
    SortIsOrderedPermutation(rs);
    forall t: nat ensures WithModified(cs, t) == WithModified(rs, t) {
      SortIsStable(rs, t);
    }
  }

  /**
   * Every record of a successful listing describes an admitted entry, and
   * every admitted entry has a record in it.
   */
  lemma ListingDescribesEntries(s: Store, entries: seq<DirEntry>, cs: seq<CaptureFile>)
    requires s.home.Some? && ReadDir(s, CapturesPath(s.home.value)) == Some(entries)
    requires Listing(s) == Ok(cs)
    ensures forall c | c in cs :: exists k :: 0 <= k < |entries| && Describes(s, CapturesPath(s.home.value), entries[k], c)
    ensures forall k | 0 <= k < |entries| && IsCandidate(entries[k]) ::
      exists c :: c in cs && Describes(s, CapturesPath(s.home.value), entries[k], c)
  {
    var dir := CapturesPath(s.home.value);
    var rs := Records(s, dir, entries);
    assert FirstFailure(entries).None? && cs == Sort(rs);
    SortIsOrderedPermutation(rs);
    assert forall c :: c in cs <==> c in rs by {
      forall c ensures c in cs <==> c in rs {
        assert c in cs <==> c in multiset(cs);
        assert c in rs <==> c in multiset(rs);
      }
    }
    RecordsComeFromEntries(s, dir, entries);
    RecordsCoverEntries(s, dir, entries);
  }

  /** The entry a listed record describes. */
  lemma ListedRecordEntry(s: Store, cs: seq<CaptureFile>, c: CaptureFile) returns (e: DirEntry)
    requires Listing(s) == Ok(cs) && c in cs
    ensures s.home.Some? && ReadDir(s, CapturesPath(s.home.value)).Some?
    ensures e in ReadDir(s, CapturesPath(s.home.value)).value
    ensures Describes(s, CapturesPath(s.home.value), e, c)
  {
    var dir := CapturesPath(s.home.value);
    var entries := ReadDir(s, dir).value;
    ListingDescribesEntries(s, entries, cs);
    var k :| 0 <= k < |entries| && Describes(s, dir, entries[k], c);
    e := entries[k];
  }

  /** A sidecar `<name>.json` never has a recognised suffix, so it is never listed itself. */
  lemma SidecarNeverListed(name: string)
    ensures !IsCaptureName(name + ".json")
  {
    var n := name + ".json";
    assert n[|n| - 4..] == "json";
    assert n[|n| - 5..] == ".json";
  }

  /**
   * The listing and `get_capture_metadata` agree on every listed artifact:
   * `has_metadata` holds exactly when the accessor does not answer "not
   * found", and `metadata` is the accessor's record when it loads.
   */
  lemma ListingAgreesWithMetadataAccessor(s: Store, cs: seq<CaptureFile>, c: CaptureFile)
    requires Listing(s) == Ok(cs) && c in cs
    ensures c.hasMetadata <==> GetCaptureMetadata(s, c.name) != Err(MetadataNotFound)
    ensures c.metadata == GetCaptureMetadata(s, c.name).ToOption()
  {
    var e := ListedRecordEntry(s, cs, c);
  }

  /**
   * The listing and `get_captures_dir` agree: both fail for want of a home
   * directory, a directory that `get_captures_dir` does not find lists as
   * empty, and every listed path lies in the directory it answers.
   */
  lemma ListingAgreesWithCapturesDir(s: Store)
    ensures GetCapturesDir(s) == Err(HomeNotFound) <==> Listing(s) == Err(HomeNotFound)
    ensures GetCapturesDir(s) == Err(CapturesDirNotFound) ==> Listing(s) == Ok([])
    ensures GetCapturesDir(s).Ok? && Listing(s).Ok? ==>
      forall c | c in Listing(s).value :: c.path == Join(GetCapturesDir(s).value, c.name)
  {
    ListingFailsOnDirectory(s);
    if GetCapturesDir(s).Ok? && Listing(s).Ok? {
      var dir := CapturesPath(s.home.value);
      var cs := Listing(s).value;
      forall c | c in cs ensures c.path == Join(dir, c.name) {
        var e := ListedRecordEntry(s, cs, c);
      }
    }
  }

  /**
   * The content commands, given a listed name, look up exactly the path the
   * listing returns for it.
   */
  lemma ListingAgreesWithContentAccessors(s: Store, cs: seq<CaptureFile>, c: CaptureFile)
    requires Listing(s) == Ok(cs) && c in cs
    ensures GetTextContent(s, c.name) == Err(TextNotFound) <==> !Exists(s, c.path)
    ensures GetTextContent(s, c.name).Ok? <==> ReadText(s, c.path).Some?
    ensures GetTextContent(s, c.name).Ok? ==> GetTextContent(s, c.name).value == ReadText(s, c.path).value
    ensures GetImageContent(s, c.name) == Err(ImageNotFound) <==> !Exists(s, c.path)
    ensures GetImageContent(s, c.name).Ok? <==> ReadBytes(s, c.path).Some?
  {
    var e := ListedRecordEntry(s, cs, c);
  }

  /** A listed capture has metadata exactly when its own listed path with ".json" appended exists. */
  lemma ListedSidecarBesideCapture(s: Store, cs: seq<CaptureFile>, c: CaptureFile)
    requires Listing(s) == Ok(cs) && c in cs
    ensures c.hasMetadata <==> Exists(s, c.path + ".json")
  {
    var e := ListedRecordEntry(s, cs, c);
    SidecarBesideCapture(CapturesPath(s.home.value), c.name);
  }
}
