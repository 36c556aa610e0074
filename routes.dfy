/**
 * The decision logic of the upload route: the EXIF orientation correction
 * applied to an uploaded image, and the near-duplicate check that either
 * rejects an uploaded face or appends it to the face collection.
 */
module Routes {

  import opened Wrappers
  import opened FaceCollection
  import Cosine

  // ---------------------------------------------------------------------------
  // fix_orientation
  // ---------------------------------------------------------------------------

  /** The EXIF tag whose name is 'Orientation' (0x0112). */
  const OrientationTag: int := 0x0112

  /** `exif.get(orientation)`, or nothing when the image carries no EXIF block. */
  function OrientationOf(exif: Option<map<int, int>>): (o: Option<int>)
    ensures o.Some? <==> exif.Some? && OrientationTag in exif.value
    ensures o.Some? ==> o.value == exif.value[OrientationTag]
  {
    if exif.Some? && OrientationTag in exif.value then Some(exif.value[OrientationTag]) else None
  }

  /** The counter-clockwise angle the image is rotated by before it is saved
      again; 0 means it is saved unrotated. */
  function RotationAngle(exif: Option<map<int, int>>): (degrees: nat)
    ensures degrees == 180 <==> OrientationOf(exif) == Some(3)
    ensures degrees == 270 <==> OrientationOf(exif) == Some(6)
    ensures degrees == 90 <==> OrientationOf(exif) == Some(8)
    ensures degrees == 0 <==> OrientationOf(exif) !in {Some(3), Some(6), Some(8)}
  {
    match OrientationOf(exif)
    case Some(3) => 180
    case Some(6) => 270
    case Some(8) => 90
    case _ => 0
  }

  /** Reference reading of the EXIF orientation values that are pure rotations:
      the counter-clockwise angle by which the stored pixels are turned away
      from upright (1: upright, 3: upside down, 6: turned a quarter counter-clockwise,
      8: turned a quarter clockwise). The mirrored values 2, 4, 5, 7 and
      out-of-range values have none. */
  function StoredTurn(orientation: int): (t: Option<nat>)
  {
    if orientation == 1 then Some(0)
    else if orientation == 3 then Some(180)
    else if orientation == 6 then Some(90)
    else if orientation == 8 then Some(270)
    else None
  }

  /** For every pure-rotation orientation, the correction turns the image back
      upright; every other value, and a missing tag or EXIF block, leaves the
      image as it is. */
  lemma RotationRestoresUpright(exif: Option<map<int, int>>)
    ensures OrientationOf(exif).Some? && StoredTurn(OrientationOf(exif).value).Some?
        ==> (StoredTurn(OrientationOf(exif).value).value + RotationAngle(exif)) % 360 == 0
    ensures OrientationOf(exif).None? || StoredTurn(OrientationOf(exif).value).None?
        ==> RotationAngle(exif) == 0
  {
  }

  // ---------------------------------------------------------------------------
  // upload_image: the near-duplicate check and the insert
  // ---------------------------------------------------------------------------

  /** The similarity above which two faces are taken to be the same. */
  const Threshold: real := 6.0 / 10.0

  /** The comparison is strict: a similarity equal to the threshold is not a match. */
  predicate IsMatch(similarity: real)
  {
    similarity > Threshold
  }

  /** `file.content_type.startswith('image/')`. */
  predicate IsImageContentType(contentType: string)
  {
    |contentType| >= 6 && contentType[..6] == "image/"
  }

  /** Exactly the content types that begin with `image/` are accepted; the
      test is case-sensitive. */
  lemma ImageContentTypePrefix(contentType: string, rest: string)
    ensures IsImageContentType("image/" + rest)
    ensures IsImageContentType(contentType) ==> contentType == "image/" + contentType[6..]
    ensures !IsImageContentType("Image/" + rest)
  {
    assert ("image/" + rest)[..6] == "image/";
    assert ("Image/" + rest)[0] == 'I';
  }

  /** A similarity is a match exactly when it is strictly above 0.6; 0.6 itself is not. */
  lemma MatchIsStrict(similarity: real)
    ensures IsMatch(similarity) <==> similarity > 0.6
    ensures !IsMatch(0.6)
  {
  }

  /** What the route answers. `InternalError` is the 500 raised when the
      similarity computation fails on a stored encoding whose length differs
      from the uploaded one. */
  datatype UploadOutcome =
    | NotAnImage
    | NoFace
    | InternalError
    | Duplicate(similarity: real)
    | Stored

  /** Where the scan over the stored records stopped. */
  datatype ScanResult = NoMatch | Match(index: nat) | Mismatch(index: nat)

  /** Every record of `rs` has the uploaded encoding's length and is not a match. */
  predicate Clear(u: Vector, rs: seq<Record>, sim: (Vector, Vector) -> real)
  {
    forall j :: 0 <= j < |rs| ==> |rs[j].features| == |u| && !IsMatch(sim(u, rs[j].features))
  }

  /** Every record of `rs` has the uploaded encoding's length. */
  predicate SameDimension(u: Vector, rs: seq<Record>)
  {
    forall j :: 0 <= j < |rs| ==> |rs[j].features| == |u|
  }

  /** The scan of the stored records in order, stopping at the first record that
      either cannot be compared or is a match. */
  function Scan(u: Vector, records: seq<Record>, sim: (Vector, Vector) -> real): (r: ScanResult)
    ensures r.Match? ==>
      && r.index < |records|
      && |records[r.index].features| == |u|
      && IsMatch(sim(u, records[r.index].features))
      && Clear(u, records[..r.index], sim)
    ensures r.Mismatch? ==>
      && r.index < |records|
      && |records[r.index].features| != |u|
      && Clear(u, records[..r.index], sim)
    ensures r.NoMatch? <==> Clear(u, records, sim)
    decreases |records|
  {
    if records == [] then NoMatch
    else if |records[0].features| != |u| then Mismatch(0)
    else if IsMatch(sim(u, records[0].features)) then Match(0)
    else
      var rest := Scan(u, records[1..], sim);
      assert forall k :: 0 <= k <= |records| - 1 ==> records[..k + 1] == [records[0]] + records[1..][..k];
      match rest
      case NoMatch => NoMatch
      case Match(k) => Match(k + 1)
      case Mismatch(k) => Mismatch(k + 1)
  }

  /** The route's answer for an upload, given the records stored when it scans. */
  function Decide(records: seq<Record>, contentType: string, encodings: seq<Vector>,
                  sim: (Vector, Vector) -> real): (r: UploadOutcome)
    ensures r.NotAnImage? <==> !IsImageContentType(contentType)
    ensures r.NoFace? <==> IsImageContentType(contentType) && encodings == []
    ensures r.Stored? <==> IsImageContentType(contentType) && encodings != [] && Clear(encodings[0], records, sim)
    ensures r.Duplicate? ==> IsMatch(r.similarity)
    ensures r.Duplicate? ==>
      && IsImageContentType(contentType) && encodings != []
      && exists i :: 0 <= i < |records| && Clear(encodings[0], records[..i], sim)
           && |records[i].features| == |encodings[0]| && r.similarity == sim(encodings[0], records[i].features)
    ensures r.InternalError? ==>
      && IsImageContentType(contentType) && encodings != []
      && exists i :: 0 <= i < |records| && Clear(encodings[0], records[..i], sim)
           && |records[i].features| != |encodings[0]|
  {
    if !IsImageContentType(contentType) then NotAnImage
    else if encodings == [] then NoFace
    else
      match Scan(encodings[0], records, sim)
      case Match(i) => Duplicate(sim(encodings[0], records[i].features))
      case Mismatch(_) => InternalError
      case NoMatch => Stored
  }

  /** The stored records after the upload. */
  function After(records: seq<Record>, filename: string, contentType: string, encodings: seq<Vector>,
                 sim: (Vector, Vector) -> real): (r: seq<Record>)
    ensures |r| == |records| + (if Decide(records, contentType, encodings, sim).Stored? then 1 else 0)
    ensures r[..|records|] == records
    ensures Decide(records, contentType, encodings, sim).Stored? ==> r[|records|] == Record(filename, encodings[0])
  {
    if Decide(records, contentType, encodings, sim).Stored? then records + [Record(filename, encodings[0])]
    else records
  }

  /** `upload_image` from the content-type check on: `encodings` is what the
      face extractor returned for the saved file, `filename` the generated
      name, and `sim` computes `1 - cosine(uploaded, stored)` for two encodings
      of equal length. */
  method UploadImage(store: FaceStore, contentType: string, filename: string, encodings: seq<Vector>,
                     sim: (Vector, Vector) -> real) returns (outcome: UploadOutcome)
    modifies store
    ensures outcome == Decide(old(store.records), contentType, encodings, sim)
    ensures store.records == After(old(store.records), filename, contentType, encodings, sim)
    ensures !outcome.Stored? ==> store.records == old(store.records)
    ensures outcome.Stored? ==> store.records == old(store.records) + [Record(filename, encodings[0])]
  {
    if !IsImageContentType(contentType) {
      return NotAnImage;
    }
    if |encodings| == 0 {
      return NoFace;
    }
    var uploaded := encodings[0];
    var existing := store.records;
    for i := 0 to |existing|
      invariant store.records == existing == old(store.records)
      invariant Clear(uploaded, existing[..i], sim)
    {
      var stored := existing[i].features;
      if |stored| != |uploaded| {
        ScanStopsAt(uploaded, existing, sim, i);
        return InternalError;
      }
      var similarity := sim(uploaded, stored);
      if similarity > Threshold {
        ScanStopsAt(uploaded, existing, sim, i);
        return Duplicate(similarity);
      }
      assert existing[..i + 1] == existing[..i] + [existing[i]];
    }
    assert existing[..|existing|] == existing;
    store.InsertOne(Record(filename, uploaded));
    return Stored;
  }

  /** The scan stops at the first record that is a mismatch or a match. */
  lemma ScanStopsAt(u: Vector, records: seq<Record>, sim: (Vector, Vector) -> real, i: nat)
    requires i < |records| && Clear(u, records[..i], sim)
    ensures |records[i].features| != |u| ==> Scan(u, records, sim) == Mismatch(i)
    ensures |records[i].features| == |u| && IsMatch(sim(u, records[i].features))
        ==> Scan(u, records, sim) == Match(i)
  {
    var r := Scan(u, records, sim);
    if !r.NoMatch? && r.index > i {
      assert records[..r.index][i] == records[i];
    }
  }

  /** A rejected upload stays rejected, with the same answer, however many
      records are stored after the ones it was checked against: the first hit wins. */
  lemma RejectionStableUnderAppend(records: seq<Record>, more: seq<Record>, contentType: string,
                                   encodings: seq<Vector>, sim: (Vector, Vector) -> real)
    requires !Decide(records, contentType, encodings, sim).Stored?
    ensures Decide(records + more, contentType, encodings, sim) == Decide(records, contentType, encodings, sim)
  {
    if IsImageContentType(contentType) && encodings != [] {
      var u := encodings[0];
      var r := Scan(u, records, sim);
      var all := records + more;
      assert all[..r.index] == records[..r.index];
      assert all[r.index] == records[r.index];
      ScanStopsAt(u, all, sim, r.index);
    }
  }

  /** Uploading again the encoding that was just stored is answered as a
      duplicate of that stored record, provided an encoding matches itself. */
  lemma ResubmissionIsDuplicate(records: seq<Record>, filename: string, contentType: string,
                                encodings: seq<Vector>, again: seq<Vector>, sim: (Vector, Vector) -> real)
    requires Decide(records, contentType, encodings, sim).Stored?
    requires again != [] && again[0] == encodings[0]
    requires IsMatch(sim(encodings[0], encodings[0]))
    ensures Decide(After(records, filename, contentType, encodings, sim), contentType, again, sim)
         == Duplicate(sim(encodings[0], encodings[0]))
  {
    var all := After(records, filename, contentType, encodings, sim);
    assert all == records + [Record(filename, encodings[0])];
    assert all[..|records|] == records;
    ScanStopsAt(encodings[0], all, sim, |records|);
  }

  /** Under cosine similarity a non-zero encoding matches itself. */
  lemma CosineSelfIsMatch(u: Vector)
    requires Cosine.NormSq(u) > 0.0
    ensures IsMatch(Cosine.Similarity(u, u, Cosine.NormSq(u)))
  {
    Cosine.SelfSimilarity(u);
  }

  /** With cosine similarity as the route's metric, uploading again the non-zero
      encoding just stored is answered as a duplicate scoring exactly 1. */
  lemma CosineResubmissionIsDuplicate(records: seq<Record>, filename: string, contentType: string,
                                      encodings: seq<Vector>, again: seq<Vector>, sim: (Vector, Vector) -> real)
    requires Decide(records, contentType, encodings, sim).Stored?
    requires again != [] && again[0] == encodings[0]
    requires Cosine.NormSq(encodings[0]) > 0.0
    requires sim(encodings[0], encodings[0]) == Cosine.Similarity(encodings[0], encodings[0], Cosine.NormSq(encodings[0]))
    ensures Decide(After(records, filename, contentType, encodings, sim), contentType, again, sim) == Duplicate(1.0)
  {
    Cosine.SelfSimilarity(encodings[0]);
    ResubmissionIsDuplicate(records, filename, contentType, encodings, again, sim);
  }

  /** Whether some stored record is a duplicate does not depend on the order the
      records are stored in, when all of them can be compared with the upload. */
  lemma DuplicateIndependentOfOrder(records: seq<Record>, reordered: seq<Record>, contentType: string,
                                    encodings: seq<Vector>, sim: (Vector, Vector) -> real)
    requires multiset(records) == multiset(reordered)
    requires encodings != [] && SameDimension(encodings[0], records)
    ensures Decide(records, contentType, encodings, sim).Duplicate?
        == Decide(reordered, contentType, encodings, sim).Duplicate?
  {
    var u := encodings[0];
    forall j | 0 <= j < |reordered|
      ensures |reordered[j].features| == |u|
    {
      var i := InSameMultiset(reordered, records, j);
    }
    HasMatchExists(u, records, sim);
    HasMatchExists(u, reordered, sim);
    if exists i :: 0 <= i < |records| && IsMatch(sim(u, records[i].features)) {
      var i :| 0 <= i < |records| && IsMatch(sim(u, records[i].features));
      var j := InSameMultiset(records, reordered, i);
    }
    if exists j :: 0 <= j < |reordered| && IsMatch(sim(u, reordered[j].features)) {
      var j :| 0 <= j < |reordered| && IsMatch(sim(u, reordered[j].features));
      var i := InSameMultiset(reordered, records, j);
    }
  }

  /** With every record comparable, the scan finds a match exactly when some record is one. */
  lemma HasMatchExists(u: Vector, records: seq<Record>, sim: (Vector, Vector) -> real)
    requires SameDimension(u, records)
    ensures Scan(u, records, sim).Match?
        <==> exists i :: 0 <= i < |records| && IsMatch(sim(u, records[i].features))
  {
  }

  /** An element of `a` occurs in any `b` with the same multiset of elements. */
  lemma InSameMultiset(a: seq<Record>, b: seq<Record>, i: nat) returns (j: nat)
    requires multiset(a) == multiset(b) && i < |a|
    ensures j < |b| && b[j] == a[i]
  {
    assert a[i] in multiset(b);
    j :| j < |b| && b[j] == a[i];
  }

  /** Only the first encoding the extractor returns takes part: uploads whose
      first encodings agree get the same answer and store the same record. */
  lemma OnlyFirstEncodingCounts(records: seq<Record>, filename: string, contentType: string,
                                encodings: seq<Vector>, others: seq<Vector>, sim: (Vector, Vector) -> real)
    requires encodings != [] && others != [] && encodings[0] == others[0]
    ensures Decide(records, contentType, encodings, sim) == Decide(records, contentType, others, sim)
    ensures After(records, filename, contentType, encodings, sim) == After(records, filename, contentType, others, sim)
  {
  }

  /** A similarity equal to the threshold is not a match: if every stored record
      scores exactly the threshold, the upload is stored. */
  lemma ThresholdIsExclusive(records: seq<Record>, contentType: string, encodings: seq<Vector>,
                             sim: (Vector, Vector) -> real)
    requires IsImageContentType(contentType) && encodings != [] && SameDimension(encodings[0], records)
    requires forall i :: 0 <= i < |records| ==> sim(encodings[0], records[i].features) == Threshold
    ensures Decide(records, contentType, encodings, sim) == Stored
  {
  }

  /** An uploaded `[0, 1, 0, 0]` against a stored `[1, 0, 0, 0]` scores 0 under
      cosine similarity, whatever their norms: not a match. */
  lemma OrthogonalIsNotMatch(normProduct: real)
    requires normProduct > 0.0
    ensures Cosine.Similarity([0.0, 1.0, 0.0, 0.0], [1.0, 0.0, 0.0, 0.0], normProduct) == 0.0
    ensures !IsMatch(Cosine.Similarity([0.0, 1.0, 0.0, 0.0], [1.0, 0.0, 0.0, 0.0], normProduct))
  {
    assert Cosine.Dot([0.0, 1.0, 0.0, 0.0], [1.0, 0.0, 0.0, 0.0]) == 0.0;
  }

  /** `[0.9, 0.1, 0, 0]` against `[1, 0, 0, 0]` is a match: their norm product is
      at most 1 (it is the square root of 0.82). */
  lemma NearVectorIsMatch(normProduct: real)
    requires 0.0 < normProduct <= 1.0
    ensures IsMatch(Cosine.Similarity([0.9, 0.1, 0.0, 0.0], [1.0, 0.0, 0.0, 0.0], normProduct))
  {
    var u, v := [0.9, 0.1, 0.0, 0.0], [1.0, 0.0, 0.0, 0.0];
    assert Cosine.Dot(u, v) == 0.9;
    Cosine.ExceedsIff(u, v, normProduct, Threshold);
  }
}
