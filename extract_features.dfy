/**
 * The batch script that walks a directory of face images and stores the first
 * face encoding of every image it can read, with no duplicate check.
 */
module ExtractFeatures {

  import opened Wrappers
  import opened FaceCollection

  /** One entry of the directory listing: its name, whether it is a regular
      file, and what the face extractor made of it (`None` when loading,
      extraction or the insert raised an exception). */
  datatype Entry = Entry(name: string, isFile: bool, faces: Option<seq<Vector>>)

  /** ASCII lower-casing of one character. */
  function LowerChar(c: char): (l: char)
  {
    if 'A' <= c <= 'Z' then (c as int + 32) as char else c
  }

  function Lower(s: string): (l: string)
  {
    seq(|s|, i requires 0 <= i < |s| => LowerChar(s[i]))
  }

  predicate EndsWith(s: string, suffix: string)
  {
    |suffix| <= |s| && s[|s| - |suffix|..] == suffix
  }

  /** `filename.lower().endswith(('.png', '.jpg', '.jpeg'))`. */
  predicate HasImageExtension(name: string)
  {
    var lower := Lower(name);
    EndsWith(lower, ".png") || EndsWith(lower, ".jpg") || EndsWith(lower, ".jpeg")
  }

  /** The entry passes both skips and its image has at least one face. */
  predicate Qualifies(e: Entry)
  {
    e.isFile && HasImageExtension(e.name) && e.faces.Some? && e.faces.value != []
  }

  /** The document stored for a qualifying entry: its name and its first encoding. */
  function RecordOf(e: Entry): (r: Record)
    requires Qualifies(e)
  {
    Record(e.name, e.faces.value[0])
  }

  /** The documents the script stores for `entries`, in listing order. */
  function Ingested(entries: seq<Entry>): (r: seq<Record>)
    ensures |r| <= |entries|
    ensures entries != [] && Qualifies(entries[0]) ==> r != [] && r[0] == RecordOf(entries[0])
    decreases |entries|
  {
    if entries == [] then []
    else (if Qualifies(entries[0]) then [RecordOf(entries[0])] else []) + Ingested(entries[1..])
  }

  /** `process_directory`: every entry is visited once, in listing order. */
  method ProcessDirectory(store: FaceStore, entries: seq<Entry>)
    modifies store
    ensures store.records == old(store.records) + Ingested(entries)
  {
    for i := 0 to |entries|
      invariant store.records == old(store.records) + Ingested(entries[..i])
    {
      var entry := entries[i];
      assert entries[..i + 1] == entries[..i] + [entry];
      IngestedAppend(entries[..i], [entry]);
      if !entry.isFile || !HasImageExtension(entry.name) {
        continue;
      }
      if entry.faces.None? {
        // the exception is reported and the loop goes on
        continue;
      }
      var encodings := entry.faces.value;
      if |encodings| == 0 {
        continue;
      }
      store.InsertOne(Record(entry.name, encodings[0]));
    }
    assert entries[..|entries|] == entries;
  }

  /** Ingesting a listing in two parts stores the two parts' documents one after the other. */
  lemma {:induction false} IngestedAppend(a: seq<Entry>, b: seq<Entry>)
    ensures Ingested(a + b) == Ingested(a) + Ingested(b)
    decreases |a|
  {
    if a == [] {
      assert a + b == b;
    } else {
      assert (a + b)[0] == a[0];
      assert (a + b)[1..] == a[1..] + b;
      IngestedAppend(a[1..], b);
    }
  }

  /** An entry that does not qualify (not a file, wrong extension, no face, or a
      failure) adds nothing, and the entries after it are processed as usual. */
  lemma SkippedEntryAddsNothing(before: seq<Entry>, e: Entry, after: seq<Entry>)
    requires !Qualifies(e)
    ensures Ingested(before + [e] + after) == Ingested(before) + Ingested(after)
  {
    IngestedAppend(before + [e], after);
    IngestedAppend(before, [e]);
  }

  /** The document of the qualifying entry at position `i` is stored right after
      the documents of all entries before it. */
  lemma IngestedPosition(entries: seq<Entry>, i: nat)
    requires i < |entries| && Qualifies(entries[i])
    ensures |Ingested(entries[..i])| < |Ingested(entries)|
    ensures Ingested(entries)[|Ingested(entries[..i])|] == RecordOf(entries[i])
  {
    assert entries == entries[..i] + entries[i..];
    IngestedAppend(entries[..i], entries[i..]);
    assert entries[i..][0] == entries[i];
  }

  /** Every stored document comes from a qualifying entry. */
  lemma {:induction false} IngestedFromQualifying(entries: seq<Entry>, k: nat)
    requires k < |Ingested(entries)|
    ensures exists i :: 0 <= i < |entries| && Qualifies(entries[i]) && Ingested(entries)[k] == RecordOf(entries[i])
    decreases |entries|
  {
    if Qualifies(entries[0]) && k == 0 {
      assert Ingested(entries)[0] == RecordOf(entries[0]);
    } else {
      var k' := if Qualifies(entries[0]) then k - 1 else k;
      IngestedFromQualifying(entries[1..], k');
      var i :| 0 <= i < |entries[1..]| && Qualifies(entries[1..][i]) && Ingested(entries[1..])[k'] == RecordOf(entries[1..][i]);
      assert entries[i + 1] == entries[1..][i];
    }
  }

  /** No similarity check: the same qualifying entry listed twice is stored twice. */
  lemma DuplicatesAreKept(e: Entry)
    requires Qualifies(e)
    ensures Ingested([e, e]) == [RecordOf(e), RecordOf(e)]
  {
    assert [e, e][1..] == [e];
    assert [e][1..] == [];
    assert Ingested([e]) == [RecordOf(e)];
  }

  /** Lower-casing distributes over concatenation. */
  lemma LowerAppend(a: string, b: string)
    ensures Lower(a + b) == Lower(a) + Lower(b)
  {
  }

  /** The extension test ignores case: any name ending in `.JPG` is accepted. */
  /** Each of the three extensions is accepted in lower and in upper case. */
  lemma ImageExtensionsAccepted(base: string)
    ensures HasImageExtension(base + ".png") && HasImageExtension(base + ".PNG")
    ensures HasImageExtension(base + ".jpg") && HasImageExtension(base + ".JPG")
    ensures HasImageExtension(base + ".jpeg") && HasImageExtension(base + ".JPEG")
  {
    assert Lower(".PNG") == ".png" && Lower(".png") == ".png";
    assert Lower(".JPG") == ".jpg" && Lower(".jpg") == ".jpg";
    assert Lower(".JPEG") == ".jpeg" && Lower(".jpeg") == ".jpeg";
    LowerSuffix(base, ".png");
    LowerSuffix(base, ".PNG");
    LowerSuffix(base, ".jpg");
    LowerSuffix(base, ".JPG");
    LowerSuffix(base, ".jpeg");
    LowerSuffix(base, ".JPEG");
  }

  /** The lower-cased name ends in the lower-cased extension. */
  lemma LowerSuffix(base: string, ext: string)
    ensures EndsWith(Lower(base + ext), Lower(ext))
  {
    LowerAppend(base, ext);
    var lower := Lower(base + ext);
    assert lower == Lower(base) + Lower(ext);
    assert lower[|lower| - |ext|..] == Lower(ext);
  }

  /** A `.gif` file is skipped, whatever its name. */
  lemma GifRejected(base: string)
    ensures !HasImageExtension(base + ".gif")
  {
    LowerAppend(base, ".gif");
    assert Lower(".gif") == ".gif";
    var lower := Lower(base + ".gif");
    assert lower[|lower| - 4..] == ".gif";
    assert lower[|lower| - 4] == '.';
    if |lower| >= 5 {
      assert lower[|lower| - 5..][1] == '.';
    }
  }

  /** Two names that differ only in ASCII case are accepted or skipped together. */
  lemma ExtensionIgnoresCase(a: string, b: string)
    requires Lower(a) == Lower(b)
    ensures HasImageExtension(a) == HasImageExtension(b)
  {
  }
}
