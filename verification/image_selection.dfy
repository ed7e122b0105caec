/**
 The enrichment step: pick the `.jpg` files under the image directory whose
 name is a message id with no detection row yet, then run the detector on each
 and append one row per accepted detection, carrying on past images whose
 processing raises.

 The directory walk is given as the (root, file name) pairs `os.walk` yields,
 in walk order; the detector is an oracle returning the class names it
 accepted for an image path, and whether it raised part way through.
 */
module ImageSelection {
  import opened Wrappers
  import Decimal
  import Paths

  const ImageSuffix: string := ".jpg"
  const ContainerRoot: string := "/app"

  /** One file reported by the directory walk: its directory and its name. */
  datatype WalkEntry = WalkEntry(root: string, file: string)

  /** An image to enrich: the message id its name encodes and its path. */
  datatype Image = Image(messageId: int, path: string)

  /** What the detector did for one image: the class names it accepted, in the
      order their rows were inserted, and whether it raised after them. */
  datatype DetectorResult = DetectorResult(accepted: seq<string>, raised: bool)

  type Detector = string -> DetectorResult

  /** A row of the detections table (the confidence score is not modelled). */
  datatype DetectionRow = DetectionRow(messageId: int, imagePath: string, detectedClass: string)

  /** One pass of the processing loop: rows inserted and paths whose processing raised. */
  datatype Pass = Pass(rows: seq<DetectionRow>, failures: seq<string>)

  // ----- Selection -----

  /** The image a walk entry contributes: only `.jpg` names whose stem reads as
      an integer do; any other name is skipped with a warning. */
  function Candidate(e: WalkEntry): Option<Image> {
    if !Paths.EndsWith(e.file, ImageSuffix) then None
    else match Decimal.ParseInt(Paths.Stem(e.file))
      case None => None
      case Some(id) => Some(Image(id, Paths.Join(e.root, e.file)))
  }

  /** All images of the walk, in walk order (`all_images`). */
  function Candidates(entries: seq<WalkEntry>): (images: seq<Image>)
    ensures |images| <= |entries|
  {
    if |entries| == 0 then []
    else
      var rest := Candidates(entries[1..]);
      match Candidate(entries[0])
      case None => rest
      case Some(img) => [img] + rest
  }

  /** The images whose id is not in `processed`, in their original order. */
  function Keep(images: seq<Image>, processed: set<int>): (kept: seq<Image>)
    ensures |kept| <= |images|
    ensures forall k :: 0 <= k < |kept| ==> kept[k].messageId !in processed && kept[k] in images
  {
    if |images| == 0 then []
    else if images[0].messageId in processed then Keep(images[1..], processed)
    else [images[0]] + Keep(images[1..], processed)
  }

  /** `get_unprocessed_images`: the candidates of the walk minus those whose id
      already has a detection row. */
  function Unprocessed(entries: seq<WalkEntry>, processed: set<int>): (r: seq<Image>)
    ensures forall k :: 0 <= k < |r| ==> r[k].messageId !in processed
    ensures forall k :: 0 <= k < |r| ==> Paths.EndsWith(r[k].path, ImageSuffix)
  {
    var all := Candidates(entries);
    CandidatesAreJpg(entries);
    Keep(all, processed)
  }

  lemma {:induction false} CandidatesAreJpg(entries: seq<WalkEntry>)
    ensures forall img :: img in Candidates(entries) ==> Paths.EndsWith(img.path, ImageSuffix)
  {
    if |entries| > 0 {
      CandidatesAreJpg(entries[1..]);
      var e := entries[0];
      if Candidate(e).Some? {
        Paths.JoinShape(e.root, e.file);
      }
    }
  }

  /** The ids of the detections table: `SELECT DISTINCT message_id`. */
  function ProcessedIds(table: seq<DetectionRow>): (ids: set<int>)
    ensures forall r :: r in table ==> r.messageId in ids
    ensures forall id :: id in ids ==> exists r :: r in table && r.messageId == id
  {
    set r | r in table :: r.messageId
  }

  // ----- Processing loop -----

  /** The rows one image contributes: one per accepted detection, in order. */
  function RowsFor(img: Image, classes: seq<string>): (rows: seq<DetectionRow>)
    ensures |rows| == |classes|
    ensures forall k :: 0 <= k < |rows| ==> rows[k] == DetectionRow(img.messageId, img.path, classes[k])
  {
    seq(|classes|, k requires 0 <= k < |classes| => DetectionRow(img.messageId, img.path, classes[k]))
  }

  /** Where the detector reads an image: its path under the container's project mount. */
  function ContainerPath(img: Image): string {
    Paths.Join(ContainerRoot, img.path)
  }

  /** The loop of `run_yolo_enrichment`: each image is given to the detector at
      its container path; its accepted detections become rows, and if the
      detector raised, the failure is logged and the loop moves on. */
  function ProcessImages(images: seq<Image>, detect: Detector): (p: Pass)
    ensures |p.failures| <= |images|
  {
    if |images| == 0 then Pass([], [])
    else
      var img := images[0];
      var d := detect(ContainerPath(img));
      var rest := ProcessImages(images[1..], detect);
      Pass(RowsFor(img, d.accepted) + rest.rows, (if d.raised then [img.path] else []) + rest.failures)
  }

  /** The whole enrichment pass: select against the current table, process, and
      commit every inserted row at the end. */
  function RunEnrichment(entries: seq<WalkEntry>, table: seq<DetectionRow>, detect: Detector): (t: seq<DetectionRow>)
    ensures table <= t
  {
    table + ProcessImages(Unprocessed(entries, ProcessedIds(table)), detect).rows
  }

  // ----- Properties of selection -----

  /** For a plain file name ending in `.jpg`, splitting off the extension leaves
      exactly the name without its last four characters, as far as reading an
      integer is concerned (a name made only of dots and `.jpg` reads as
      nothing either way). */
  lemma StemOfJpg(f: string)
    requires Paths.EndsWith(f, ImageSuffix) && Paths.Sep !in f
    ensures Decimal.ParseInt(Paths.Stem(f)) == Decimal.ParseInt(f[..|f| - 4])
  {
    var n := |f| - 4;
    LastDotOfJpg(f);
    assert Paths.LastIndexOf(f, Paths.Sep) == -1;
    if exists k :: -1 < k < n && f[k] != '.' {
      assert Paths.Stem(f) == f[..n];
    } else {
      assert Paths.Stem(f) == f;
      NotAnInteger(f, |f| - 1);
      if n > 0 {
        NotAnInteger(f[..n], 0);
      }
    }
  }

  /** The last dot of a `.jpg` name is the one before `jpg`. */
  lemma LastDotOfJpg(f: string)
    requires Paths.EndsWith(f, ImageSuffix)
    ensures Paths.LastIndexOf(f, '.') == |f| - 4
  {
    var n := |f| - 4;
    assert f[n..] == ".jpg";
    assert f[n] == '.' && f[n + 1] == 'j' && f[n + 2] == 'p' && f[n + 3] == 'g';
  }

  /** Text with a character that is neither a digit nor a leading sign does not read as an integer. */
  lemma NotAnInteger(s: string, k: nat)
    requires k < |s| && !Decimal.IsDigit(s[k]) && (k > 0 || !Decimal.IsSign(s[k]))
    ensures Decimal.ParseInt(s).None?
  {
  }

  /** The message id of a `.jpg` file is the integer written before `.jpg`, and
      its path is the file joined to its directory. */
  lemma CandidateOfFileName(e: WalkEntry)
    requires Paths.Sep !in e.file
    ensures Candidate(e).Some? <==>
              Paths.EndsWith(e.file, ImageSuffix) && Decimal.ParseInt(e.file[..|e.file| - 4]).Some?
    ensures Candidate(e).Some? ==>
              Candidate(e).value == Image(Decimal.ParseInt(e.file[..|e.file| - 4]).value, Paths.Join(e.root, e.file))
  {
    if Paths.EndsWith(e.file, ImageSuffix) {
      StemOfJpg(e.file);
    }
  }

  /** A file saved by the scraper as `<message id>.jpg` is selected under that id. */
  lemma ScraperImageNameRoundTrip(root: string, id: int)
    ensures Candidate(WalkEntry(root, Decimal.IntToString(id) + ImageSuffix))
            == Some(Image(id, Paths.Join(root, Decimal.IntToString(id) + ImageSuffix)))
  {
    var digits := Decimal.IntToString(id);
    var f := digits + ImageSuffix;
    assert f[..|f| - 4] == digits;
    assert f[|f| - 4..] == ImageSuffix;
    assert Paths.Sep !in f by {
      forall k | 0 <= k < |f| ensures f[k] != Paths.Sep {
        if k < |digits| { assert f[k] == digits[k]; }
      }
    }
    Decimal.ParseIntOfIntToString(id);
    CandidateOfFileName(WalkEntry(root, f));
  }

  lemma {:induction false} CandidatesAppend(a: seq<WalkEntry>, b: seq<WalkEntry>)
    ensures Candidates(a + b) == Candidates(a) + Candidates(b)
  {
    if |a| == 0 {
      assert a + b == b;
    } else {
      assert (a + b)[0] == a[0];
      assert (a + b)[1..] == a[1..] + b;
      CandidatesAppend(a[1..], b);
    }
  }

  lemma {:induction false} KeepAppend(a: seq<Image>, b: seq<Image>, processed: set<int>)
    ensures Keep(a + b, processed) == Keep(a, processed) + Keep(b, processed)
  {
    if |a| == 0 {
      assert a + b == b;
    } else {
      assert (a + b)[0] == a[0];
      assert (a + b)[1..] == a[1..] + b;
      KeepAppend(a[1..], b, processed);
    }
  }

  /** Selection follows walk order: the images found in two consecutive stretches
      of the walk are those of the first stretch followed by those of the second. */
  lemma UnprocessedAppend(a: seq<WalkEntry>, b: seq<WalkEntry>, processed: set<int>)
    ensures Unprocessed(a + b, processed) == Unprocessed(a, processed) + Unprocessed(b, processed)
  {
    CandidatesAppend(a, b);
    KeepAppend(Candidates(a), Candidates(b), processed);
  }

  /** A single walk entry is selected exactly when it is a candidate whose id has
      no detection row. */
  lemma UnprocessedSingle(e: WalkEntry, processed: set<int>)
    ensures Unprocessed([e], processed) ==
              if Candidate(e).Some? && Candidate(e).value.messageId !in processed then [Candidate(e).value] else []
  {
    assert [e][1..] == [];
  }

  /** A file whose name does not yield an image is skipped, and the scan goes on:
      the result is as if the file were not there. */
  lemma SkippedFileIsHarmless(a: seq<WalkEntry>, e: WalkEntry, b: seq<WalkEntry>, processed: set<int>)
    requires Candidate(e).None?
    ensures Unprocessed(a + [e] + b, processed) == Unprocessed(a + b, processed)
  {
    UnprocessedAppend(a + [e], b, processed);
    UnprocessedAppend(a, [e], processed);
    UnprocessedSingle(e, processed);
    UnprocessedAppend(a, b, processed);
  }

  lemma {:induction false} CandidatesMembership(entries: seq<WalkEntry>, img: Image)
    ensures img in Candidates(entries) <==> exists i :: 0 <= i < |entries| && Candidate(entries[i]) == Some(img)
  {
    if |entries| > 0 {
      CandidatesMembership(entries[1..], img);
      if img in Candidates(entries[1..]) {
        var i :| 0 <= i < |entries[1..]| && Candidate(entries[1..][i]) == Some(img);
        assert Candidate(entries[i + 1]) == Some(img);
      }
      if exists i :: 0 <= i < |entries| && Candidate(entries[i]) == Some(img) {
        var i :| 0 <= i < |entries| && Candidate(entries[i]) == Some(img);
        if i > 0 {
          assert Candidate(entries[1..][i - 1]) == Some(img);
        }
      }
    }
  }

  lemma {:induction false} KeepMembership(images: seq<Image>, processed: set<int>, img: Image)
    ensures img in Keep(images, processed) <==> img in images && img.messageId !in processed
  {
    if |images| > 0 {
      KeepMembership(images[1..], processed, img);
      assert img in images <==> img == images[0] || img in images[1..];
    }
  }

  /** Exactly the candidates of the walk whose id has no detection row are
      returned: no processed id comes back and no unprocessed one is missed. */
  lemma UnprocessedMembership(entries: seq<WalkEntry>, processed: set<int>, img: Image)
    ensures img in Unprocessed(entries, processed) <==>
              (exists i :: 0 <= i < |entries| && Candidate(entries[i]) == Some(img)) && img.messageId !in processed
  {
    CandidatesMembership(entries, img);
    KeepMembership(Candidates(entries), processed, img);
  }

  // ----- Properties of the processing loop -----

  /** Images are processed independently: the outcome for a later stretch of
      images does not depend on whether processing an earlier one raised. */
  lemma {:induction false} ProcessImagesAppend(a: seq<Image>, b: seq<Image>, detect: Detector)
    ensures ProcessImages(a + b, detect).rows == ProcessImages(a, detect).rows + ProcessImages(b, detect).rows
    ensures ProcessImages(a + b, detect).failures == ProcessImages(a, detect).failures + ProcessImages(b, detect).failures
  {
    if |a| == 0 {
      assert a + b == b;
    } else {
      assert (a + b)[0] == a[0];
      assert (a + b)[1..] == a[1..] + b;
      ProcessImagesAppend(a[1..], b, detect);
    }
  }

  /** A single image contributes one row per accepted detection, kept even when
      the detector then raised, and a logged failure exactly when it raised. */
  lemma ProcessOneImage(img: Image, detect: Detector)
    ensures ProcessImages([img], detect).rows == RowsFor(img, detect(ContainerPath(img)).accepted)
    ensures ProcessImages([img], detect).failures == if detect(ContainerPath(img)).raised then [img.path] else []
  {
    assert [img][1..] == [];
  }

  /** The ids that receive at least one detection row from processing `images`. */
  function DetectedIds(images: seq<Image>, detect: Detector): set<int> {
    set k | 0 <= k < |images| && |detect(ContainerPath(images[k])).accepted| > 0 :: images[k].messageId
  }

  lemma ProcessedIdsAppend(a: seq<DetectionRow>, b: seq<DetectionRow>)
    ensures ProcessedIds(a + b) == ProcessedIds(a) + ProcessedIds(b)
  {
    forall id | id in ProcessedIds(a + b) ensures id in ProcessedIds(a) + ProcessedIds(b) {
      var r :| r in a + b && r.messageId == id;
      assert r in a || r in b;
    }
    forall id | id in ProcessedIds(a) + ProcessedIds(b) ensures id in ProcessedIds(a + b) {
      if id in ProcessedIds(a) {
        var r :| r in a && r.messageId == id;
        assert r in a + b;
      } else {
        var r :| r in b && r.messageId == id;
        assert r in a + b;
      }
    }
  }

  /** An image's id enters the detections table exactly when the detector
      accepted at least one detection for it. */
  lemma {:induction false} ProcessedIdsOfPass(images: seq<Image>, detect: Detector)
    ensures ProcessedIds(ProcessImages(images, detect).rows) == DetectedIds(images, detect)
  {
    if |images| > 0 {
      var img := images[0];
      var own := RowsFor(img, detect(ContainerPath(img)).accepted);
      var rest := ProcessImages(images[1..], detect);
      ProcessedIdsOfPass(images[1..], detect);
      ProcessedIdsAppend(own, rest.rows);
      assert ProcessedIds(own) == if |own| > 0 then {img.messageId} else {} by {
        if |own| > 0 {
          assert own[0] in own;
        }
      }
      forall id | id in DetectedIds(images, detect)
        ensures id in ProcessedIds(own) + DetectedIds(images[1..], detect)
      {
        var k :| 0 <= k < |images| && |detect(ContainerPath(images[k])).accepted| > 0 && images[k].messageId == id;
        if k > 0 {
          assert images[1..][k - 1] == images[k];
        }
      }
      forall id | id in DetectedIds(images[1..], detect)
        ensures id in DetectedIds(images, detect)
      {
        var k :| 0 <= k < |images[1..]| && |detect(ContainerPath(images[1..][k])).accepted| > 0 && images[1..][k].messageId == id;
        assert images[k + 1] == images[1..][k];
      }
      if |own| > 0 {
        assert img.messageId in DetectedIds(images, detect) by {
          assert images[0] == img;
        }
      }
    }
  }

  /** After a pass, a selected image is selected again on the next pass exactly
      when no image selected with its id received a detection row: an image
      with no accepted detection keeps being retried. */
  lemma ReselectedUntilDetected(entries: seq<WalkEntry>, table: seq<DetectionRow>, detect: Detector, img: Image)
    requires img in Unprocessed(entries, ProcessedIds(table))
    ensures img in Unprocessed(entries, ProcessedIds(RunEnrichment(entries, table, detect)))
            <==> img.messageId !in DetectedIds(Unprocessed(entries, ProcessedIds(table)), detect)
  {
    var selected := Unprocessed(entries, ProcessedIds(table));
    var pass := ProcessImages(selected, detect);
    ProcessedIdsAppend(table, pass.rows);
    ProcessedIdsOfPass(selected, detect);
    UnprocessedMembership(entries, ProcessedIds(table), img);
    UnprocessedMembership(entries, ProcessedIds(RunEnrichment(entries, table, detect)), img);
  }
}
