# Face near-duplicate check and face ingestion, modelled in Dafny

The repository is an image-upload service that detects a face in each uploaded
image, compares its face encoding with every encoding already stored in a
MongoDB collection, and stores the new encoding only if no stored one is
similar enough. A batch script fills the same collection from a directory of
images without any similarity check. This project models the decision logic
of both, and the EXIF orientation correction applied to uploads.

- `FaceCollection` (`face_collection.dfy`): a stored document `Record(filename, features)`
  and the collection as a class `FaceStore` whose `records` sequence is
  appended to by `InsertOne`, in insertion order. The upload scan is assumed
  to visit the records in that order; an unsorted MongoDB `find()` does not
  promise any order (see "## Left out").
- `Cosine` (`cosine.dfy`): the similarity `1 - cosine(u, v) = dot(u, v) / (|u| * |v|)`
  over reals. Dafny has no square root, so the product of the two norms is an
  input `normProduct`; the lemmas show that a non-zero vector scores 1 against
  itself, that the score is symmetric and unchanged when a vector is scaled by
  a positive factor, and that
  comparing a score with a threshold needs no division.
- `Routes` (`routes.dfy`): `RotationAngle` (the angle chosen by
  `fix_orientation`), and `UploadImage`, a method with the route's scan loop:
  content-type check, "no face" rejection, first encoding only, scan in
  stored order, early exit at the first record scoring strictly above `6.0/10.0`,
  otherwise one appended record. `Scan`, `Decide` and `After` are the
  specification functions the method is proved against, and the lemmas about
  them state what the route promises across uploads.
- `ExtractFeatures` (`extract_features.dfy`): `ProcessDirectory`, the batch
  loop, proved to append exactly `Ingested(entries)`, one record per regular
  image file with a face, in listing order.

The face extractor is an input: `UploadImage` receives the list of encodings
it produced (possibly empty), and every directory entry carries
`Option<seq<Vector>>`, where `None` stands for an exception raised while
loading the image, extracting faces or inserting the document. The similarity
used by the scan is the parameter `sim`, standing for `1 - cosine(...)` on two
encodings of equal length.

Three behaviours of the route are worth stating outright:
- a stored encoding whose length differs from the uploaded one makes
  `scipy.spatial.distance.cosine` raise; the route's generic handler answers
  500 and nothing is stored (`InternalError`); that record is not skipped;
- the threshold (`> 0.6`) and the metric (cosine) are fixed constants, records
  carry no identifier besides MongoDB's own, and only the similarity of the
  matching record is reported, never a maximum over the collection;
- the scan and the insert are not serialised (see "## Left out").

## Model

| member | source | states |
|---|---|---|
| `FaceCollection.FaceStore.InsertOne` | app/routes.py:105 | inserting a document appends exactly that document and changes nothing else |
| `Cosine.Similarity` | app/routes.py:87 | the score times the norm product is the dot product; characterised further by `SimilaritySymmetric`, `SelfSimilarity`, `ScaleInvariant` and `ExceedsIff` |
| `Cosine.SimilaritySymmetric` | app/routes.py:87 | the score of `u` against `v` equals the score of `v` against `u` |
| `Cosine.SelfSimilarity` | app/routes.py:87 | a non-zero encoding compared with itself scores exactly 1 |
| `Cosine.ScaleInvariant` | app/routes.py:87 | when `normProduct` is the true norm product of `u` and `v`, `c * normProduct` is the true norm product of `c * u` and `v` for any `c > 0`, and the two scores are equal (no pre-normalisation is assumed) |
| `Cosine.ExceedsIff` | app/routes.py:87-90 | a score exceeds `t` exactly when the dot product exceeds `t` times the norm product |
| `Routes.OrientationOf` | app/routes.py:42-44 | the orientation value is present exactly when there is an EXIF block holding tag 0x0112, and is then that tag's value |
| `Routes.RotationAngle` | app/routes.py:42-50 | orientation 3 gives 180 degrees, 6 gives 270, 8 gives 90, and any other value, a missing tag or a missing EXIF block gives no rotation (each as an if-and-only-if) |
| `Routes.RotationRestoresUpright` | app/routes.py:43-50 | for each orientation value that is a pure rotation, the chosen angle turns the stored pixels back upright; mirrored or unknown values are left unrotated |
| `Routes.IsImageContentType` | app/routes.py:58 | characterised by `ImageContentTypePrefix` |
| `Routes.ImageContentTypePrefix` | app/routes.py:58 | every content type beginning with `image/` is accepted, every accepted one begins with `image/`, and the test is case-sensitive (`Image/...` is rejected) |
| `Routes.IsMatch` | app/routes.py:90 | characterised by `MatchIsStrict` and `ThresholdIsExclusive` |
| `Routes.MatchIsStrict` | app/routes.py:90 | a similarity is a match exactly when it is strictly above 0.6, so 0.6 itself is not |
| `Routes.Scan` | app/routes.py:84-98 | the scan stops at the first record that is not comparable or scores strictly above the threshold, every earlier record being comparable and below; it finds nothing exactly when every record is comparable and not a match |
| `Routes.Decide` | app/routes.py:58-114 | a non-image content type is rejected; otherwise no encodings means "no face"; "stored" exactly when every record is comparable with the first encoding and none matches; a reported duplicate similarity is strictly above 0.6 and is that of the first matching record in scan order; an internal error comes from the first non-comparable record |
| `Routes.After` | app/routes.py:100-105 | the earlier records are kept as they were, and exactly one record `{filename, first encoding}` is added at the end when and only when the upload is stored |
| `Routes.UploadImage` | app/routes.py:58-120 | the loop's answer is `Decide` of the records before the call and the new store is `After`: unchanged unless stored, and then old records plus exactly one |
| `Routes.ScanStopsAt` | app/routes.py:85-98 | if all records before position `i` are comparable and below the threshold, the scan stops at `i` when record `i` is not comparable or is a match |
| `Routes.RejectionStableUnderAppend` | app/routes.py:84-98 | an upload that is not stored gets the same answer however many records are added after the ones it was checked against (first hit wins) |
| `Routes.ResubmissionIsDuplicate` | app/routes.py:84-105 | uploading again the encoding just stored is answered as a duplicate with that record's similarity, when an encoding matches itself |
| `Routes.CosineSelfIsMatch` | app/routes.py:87-90 | under cosine similarity a non-zero encoding scores above 0.6 against itself |
| `Routes.CosineResubmissionIsDuplicate` | app/routes.py:84-105 | when `sim` is cosine similarity on the stored encoding, uploading it again right after it was stored is answered `Duplicate` with similarity exactly 1 |
| `Routes.DuplicateIndependentOfOrder` | app/routes.py:84-98 | when all stored encodings have the upload's length, whether the upload is a duplicate does not depend on the order of the records, so it does not rest on the order `find()` returns (the reported similarity may) |
| `Routes.HasMatchExists` | app/routes.py:85-90 | with every record comparable, the scan finds a match exactly when some record scores above the threshold |
| `Routes.OnlyFirstEncodingCounts` | app/routes.py:81-103 | uploads whose first encodings agree get the same answer and store the same record, whatever the other encodings are |
| `Routes.ThresholdIsExclusive` | app/routes.py:90 | when every record scores exactly 0.6, the upload is stored: equality is not a match |
| `Routes.OrthogonalIsNotMatch` | app/routes.py:87-90 | an uploaded `[0,1,0,0]` against a stored `[1,0,0,0]` scores exactly 0 under cosine similarity, whatever the norm product, and is not a match |
| `Routes.NearVectorIsMatch` | app/routes.py:87-90 | an uploaded `[0.9,0.1,0,0]` against a stored `[1,0,0,0]` is a match under cosine similarity, for any norm product in (0, 1], which holds the true one |
| `ExtractFeatures.Ingested` | app/scripts/extract_features.py:18-38 | at most one record per entry, and a qualifying first entry's record comes first; characterised further by `ProcessDirectory`, `IngestedAppend`, `SkippedEntryAddsNothing`, `IngestedPosition` and `IngestedFromQualifying` |
| `ExtractFeatures.ProcessDirectory` | app/scripts/extract_features.py:17-41 | the final store is the initial store followed by `Ingested(entries)` |
| `ExtractFeatures.IngestedAppend` | app/scripts/extract_features.py:18-41 | processing a listing in two parts stores the two parts' documents one after the other |
| `ExtractFeatures.SkippedEntryAddsNothing` | app/scripts/extract_features.py:20-41 | an entry that is not a regular file, has another extension, has no face or fails adds nothing and processing continues with the next entry |
| `ExtractFeatures.IngestedPosition` | app/scripts/extract_features.py:18-38 | the record of each qualifying entry, holding its name and first encoding, is stored right after the records of all entries listed before it |
| `ExtractFeatures.IngestedFromQualifying` | app/scripts/extract_features.py:32-37 | every stored record is the name and first encoding of some qualifying entry |
| `ExtractFeatures.DuplicatesAreKept` | app/scripts/extract_features.py:32-37 | with no similarity check, the same qualifying entry listed twice is stored twice |
| `ExtractFeatures.HasImageExtension` | app/scripts/extract_features.py:20 | characterised by `ImageExtensionsAccepted`, `GifRejected` and `ExtensionIgnoresCase` |
| `ExtractFeatures.ImageExtensionsAccepted` | app/scripts/extract_features.py:20 | names ending in `.png`, `.jpg` or `.jpeg`, in lower or upper case, are accepted |
| `ExtractFeatures.GifRejected` | app/scripts/extract_features.py:20 | every name ending in `.gif` is skipped |
| `ExtractFeatures.ExtensionIgnoresCase` | app/scripts/extract_features.py:20 | two names that differ only in ASCII case are accepted or skipped together |

## Left out

- HTTP transport: FastAPI routing, reading the upload, writing it to disk with `aiofiles`, status codes and JSON bodies; the outcomes stand for them. The content type is a string in the model; an upload without one makes `file.content_type.startswith` raise `AttributeError` (app/routes.py:58), which the generic handler turns into a 500 (app/routes.py:118-120); that case is not modelled.
- The generated file name (`strftime` timestamp plus the client's name) is an input; logging and the health check are not modelled.
- MongoDB connection, the global collection handle and durability: the collection is an in-memory sequence; MongoDB's own `_id` is not modelled.
- The `face_recognition` extraction, including loading the image: its result is an input. app/varient_models.py (the CNN-to-HOG fallback) is not part of this model.
- Routes.UploadImage: has no outcome for an exception raised by `load_image_file` or `face_encodings` (a 500 with the store unchanged); the batch script's `Entry` models that case with `None`, the upload model does not.
- Routes.Decide: assumes `collection.find()` visits the records in insertion order; an unsorted MongoDB `find()` promises no order, and the reported duplicate similarity (that of the first hit) depends on it. Whether there is a duplicate does not, when every stored encoding has the upload's length (`DuplicateIndependentOfOrder`).
- PIL image work: opening, rotating, saving. Exceptions inside `fix_orientation` are logged and swallowed; they can leave the file unrotated and so change what the extractor sees, but once the encodings are given they do not affect the decision. Only the angle choice is modelled, with the orientation tag fixed to 0x0112 rather than looked up in PIL's tag table, and tag values taken to be integers.
- Cosine.Similarity: the norm product is an input, since Dafny has no square root; no lemma bounds the score to [-1, 1].
- Routes.UploadImage: `sim` is any real-valued function; the floating-point behaviour of scipy (rounding, NaN for a zero vector, which never compares greater than 0.6) is not captured.
- Concurrent uploads: within one event loop the scan and the insert cannot interleave with another upload, since there is no `await` between `find()` (app/routes.py:84) and `insert_one` (app/routes.py:105), the last one being at app/routes.py:69; with several worker processes or server instances sharing the collection, two simultaneous uploads of one face can both be stored. The model is sequential and states nothing about interleavings.
- ExtractFeatures.HasImageExtension: lower-casing is ASCII only, where Python's `str.lower` is full Unicode; the suffixes are ASCII, so only exotic non-ASCII names could be judged differently.
- Directory listing and `os.path.isfile` are inputs: the listing order is the order of `entries`, and `isFile` says whether the path is a regular file.
- app/main.py (an earlier upload route that stores without a duplicate check), main.py (an upload route that only saves the file and stores no record) and the scripts test1.py and test_single_capture.py are not part of this model.
