/**
 * A worked directory: an image with a sidecar, a text snippet without one,
 * the sidecar itself and a video file.
 */
module Scenarios {
  import opened Wrappers
  import opened CaptureTypes
  import opened Store
  import opened NewestFirst
  import opened Accessors
  import opened Registry

  const Home: Path := "/Users/ann"
  const Dir: Path := CapturesPath(Home)

  const ShotMetadata: CaptureMetadata :=
    CaptureMetadata("abc123", "2024-05-01T10:00:00Z", "screenshot", "shot.png", "png", 2048,
      MetadataDetails(None, None, None, None))

  const Entries: seq<DirEntry> := [
    Entry(Some("note.txt"), true, FileInfo(12, Some(1_700_000_000_500_000_000))),
    Entry(Some("shot.png.json"), true, FileInfo(300, Some(1_700_000_100_000_000_000))),
    Entry(Some("shot.png"), true, FileInfo(2048, Some(1_700_000_100_250_000_000))),
    Entry(Some("video.mov"), true, FileInfo(9000, Some(1_700_000_200_000_000_000)))]

  const Snapshot: Store := Store(Some(Home), map[
    Dir := Directory(Some(Entries)),
    Dir + "/shot.png.json" := File(None, Some("{}"), Some(ShotMetadata))])

  const Note: CaptureFile := CaptureFile("note.txt", Dir + "/note.txt", 1_700_000_000, 12, TextType, false, None)
  const Shot: CaptureFile :=
    CaptureFile("shot.png", Dir + "/shot.png", 1_700_000_100, 2048, ImageType, true, Some(ShotMetadata))

  lemma DirEndsWithoutSeparator()
    ensures |Dir| > 0 && Dir[|Dir| - 1] == 's'
  {
    assert |Home| == 10 && Home[9] == 'n';
    assert |CapturesSubpath| > 0 && CapturesSubpath[0] == 'L';
    assert Dir == Home + "/" + CapturesSubpath;
  }

  /** The record of an admitted entry, once its kind and sidecar outcome are known. */
  lemma AdmittedRecord(s: Store, dir: Path, e: DirEntry, kind: string, meta: Option<CaptureMetadata>)
    requires IsCandidate(e) && e.info.FileInfo?
    requires kind == if IsImageName(e.name.value) then ImageType else TextType
    requires meta == if Exists(s, SidecarPath(dir, e.name.value))
      then LoadCaptureMetadata(s, SidecarPath(dir, e.name.value)).ToOption() else None
    ensures RecordFor(s, dir, e) == [CaptureFile(e.name.value, Join(dir, e.name.value),
      ModifiedSeconds(e.info.modified), e.info.len, kind, Exists(s, SidecarPath(dir, e.name.value)), meta)]
  {
  }

  lemma NoteName()
    ensures IsTextName("note.txt") && !IsImageName("note.txt")
  {
    assert "note.txt"[4..] != ".png" by { assert "note.txt"[4..][1] == 't'; }
    assert "note.txt"[4..] != ".jpg" by { assert "note.txt"[4..][1] == 't'; }
    assert "note.txt"[3..] != ".jpeg" by { assert "note.txt"[3..][0] == 'e'; }
  }

  lemma ShotName()
    ensures IsImageName("shot.png")
  {
    assert EndsWith("shot.png", ".png");
  }

  lemma VideoName()
    ensures !IsCaptureName("video.mov")
  {
    assert "video.mov"[5..][1] == 'm';
    assert "video.mov"[4..][0] == 'o';
  }

  lemma NoteHasNoSidecar()
    ensures !Exists(Snapshot, Dir + "/note.txt.json")
  {
    var sidecar := Dir + "/note.txt.json";
    var other := Dir + "/shot.png.json";
    assert sidecar[|Dir| + 1] == 'n' && other[|Dir| + 1] == 's';
    assert |sidecar| != |Dir|;
  }

  lemma NoteRecord()
    ensures RecordFor(Snapshot, Dir, Entries[0]) == [Note]
  {
    var e := Entries[0];
    var sidecar := Dir + "/note.txt.json";
    assert e == Entry(Some("note.txt"), true, FileInfo(12, Some(1_700_000_000_500_000_000)));
    assert IsCandidate(e) && !IsImageName("note.txt") by {
      NoteName();
    }
    assert Join(Dir, "note.txt") == Dir + "/note.txt" && SidecarPath(Dir, "note.txt") == sidecar by {
      DirEndsWithoutSeparator();
      assert "note.txt"[0] == 'n' && ("note.txt" + ".json")[0] == 'n';
    }
    NoteHasNoSidecar();
    assert ModifiedSeconds(Some(1_700_000_000_500_000_000)) == 1_700_000_000;
    AdmittedRecord(Snapshot, Dir, e, TextType, None);
  }

  lemma ShotRecord()
    ensures RecordFor(Snapshot, Dir, Entries[2]) == [Shot]
  {
    var e := Entries[2];
    var sidecar := Dir + "/shot.png.json";
    assert e == Entry(Some("shot.png"), true, FileInfo(2048, Some(1_700_000_100_250_000_000)));
    ShotName();
    assert Join(Dir, "shot.png") == Dir + "/shot.png" && SidecarPath(Dir, "shot.png") == sidecar by {
      DirEndsWithoutSeparator();
      assert "shot.png"[0] == 's' && ("shot.png" + ".json")[0] == 's';
    }
    assert Exists(Snapshot, sidecar);
    assert ModifiedSeconds(Some(1_700_000_100_250_000_000)) == 1_700_000_100;
    assert LoadCaptureMetadata(Snapshot, sidecar) == Ok(ShotMetadata);
    AdmittedRecord(Snapshot, Dir, e, ImageType, Some(ShotMetadata));
  }

  lemma SidecarSkipped()
    ensures RecordFor(Snapshot, Dir, Entries[1]) == []
  {
    SidecarNeverListed("shot.png");
    assert "shot.png" + ".json" == "shot.png.json";
  }

  lemma VideoSkipped()
    ensures RecordFor(Snapshot, Dir, Entries[3]) == []
  {
    VideoName();
  }

  lemma ScenarioNoFailure()
    ensures FirstFailure(Entries) == None
  {
    FirstFailureIsEarliest(Entries);
    assert forall k | 0 <= k < |Entries| :: EntryFailure(Entries[k]).None? by {
      assert forall k :: 0 <= k < 4 ==> Entries[k].Entry? && Entries[k].info.FileInfo?;
    }
  }

  lemma ScenarioRecords()
    ensures Records(Snapshot, Dir, Entries) == [Note, Shot]
  {
    assert Records(Snapshot, Dir, Entries[..1]) == [Note] by {
      assert Entries[..0] == [];
      ScanStep(Snapshot, Dir, Entries, 0);
      NoteRecord();
    }
    assert Records(Snapshot, Dir, Entries[..2]) == [Note] by {
      ScanStep(Snapshot, Dir, Entries, 1);
      SidecarSkipped();
    }
    assert Records(Snapshot, Dir, Entries[..3]) == [Note, Shot] by {
      ScanStep(Snapshot, Dir, Entries, 2);
      ShotRecord();
    }
    assert Records(Snapshot, Dir, Entries[..4]) == [Note, Shot] by {
      ScanStep(Snapshot, Dir, Entries, 3);
      VideoSkipped();
    }
    assert Entries[..4] == Entries;
  }

  lemma ScenarioOrder()
    ensures Sort([Note, Shot]) == [Shot, Note]
  {
    assert [Note, Shot][1..] == [Shot] && [Shot][1..] == [];
    assert Sort([Shot]) == [Shot];
    assert Insert(Note, [Shot]) == [Shot] + Insert(Note, []);
  }

  /**
   * The listing has the image first (it is newer), with its sidecar record,
   * then the text snippet without metadata; neither the sidecar nor the
   * video appears.
   */
  lemma ScenarioListing()
    ensures Listing(Snapshot) == Ok([Shot, Note])
  {
    ScenarioNoFailure();
    ScenarioRecords();
    ScenarioOrder();
    assert Exists(Snapshot, Dir) && ReadDir(Snapshot, Dir) == Some(Entries);
  }
}
