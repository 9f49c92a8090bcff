/** Object-storage helpers of lib/supabase/storage.ts: the storage key of an
    uploaded submission image, and the result shapes of the upload and
    signed-URL calls. The object store itself is a parameter. */
module Storage {

  import opened Wrappers
  import opened Text
  import opened Records

  /** Extension used when the file name yields none. */
  const FallbackExtension: string := "jpg"

  /** Lifetime of a signed URL when the caller gives none, in seconds. */
  const DefaultSignedUrlSeconds: int := 3600

  /** `file.name.split(".").pop() || "jpg"`: the text after the last '.',
      the whole name when it has no '.', and "jpg" when that text is empty. */
  function FileExtension(name: string): (ext: string)
    ensures |ext| > 0 && '.' !in ext
    ensures (|name| == 0 || name[|name| - 1] == '.') ==> ext == FallbackExtension
    ensures (|name| > 0 && name[|name| - 1] != '.') ==>
      |ext| <= |name| && ext == name[|name| - |ext|..] && (|ext| == |name| || name[|name| - |ext| - 1] == '.')
    ensures ('.' !in name && |name| > 0) ==> ext == name
  {
    var seg := LastSegment(name);
    if seg == "" then FallbackExtension
    else
      assert |seg| == |name| ==> seg == name;
      seg
  }

  /** The last '.'-segment of `prefix + "." + ext` is `ext` when `ext` has
      no '.'. */
  lemma {:induction false} LastSegmentAfterDot(prefix: string, ext: string)
    requires '.' !in ext
    ensures LastSegment(prefix + "." + ext) == ext
    decreases |ext|
  {
    var s := prefix + "." + ext;
    if |ext| > 0 {
      var init := ext[..|ext| - 1];
      assert s[..|s| - 1] == prefix + "." + init;
      assert s[|s| - 1] == ext[|ext| - 1];
      LastSegmentAfterDot(prefix, init);
      assert init + [ext[|ext| - 1]] == ext;
    } else {
      assert s[|s| - 1] == '.';
    }
  }

  /** Slicing the key `a/b/ts.ext` back into its parts. */
  lemma KeySegments(a: string, b: string, ts: string, ext: string)
    ensures var key := a + "/" + b + "/" + ts + "." + ext;
      && key[..|a| + 1] == a + "/" && key[|a| + 1..|a| + |b| + 2] == b + "/"
      && key[|a| + |b| + 2..|key| - |ext| - 1] == ts
  {
    var key := a + "/" + b + "/" + ts + "." + ext;
    assert key == (a + "/") + ((b + "/") + (ts + ("." + ext)));
  }

  /** Reading the extension back off `prefix + "." + ext` gives `ext`,
      right after the '.'. */
  lemma ExtensionOfKey(prefix: string, ext: string)
    requires |ext| > 0 && '.' !in ext
    ensures FileExtension(prefix + "." + ext) == ext
    ensures (prefix + "." + ext)[|prefix|] == '.'
  {
    LastSegmentAfterDot(prefix, ext);
  }

  /** `key` reads back as `a/b/timestamp.ext`: it opens with `a` and a '/',
      `b` and a '/' follow, the text up to the last '.' parses to the
      timestamp, and reading the extension back off the key gives `ext`. */
  ghost predicate KeyReadsBack(key: string, a: string, b: string, timestamp: nat, ext: string) {
    var dot := |key| - |ext| - 1;
    && |a| + |b| + 2 <= dot < |key|
    && key[..|a| + 1] == a + "/"
    && key[|a| + 1..|a| + |b| + 2] == b + "/"
    && ParseInt(key[|a| + |b| + 2..dot]) == Some(timestamp)
    && key[dot] == '.'
    && FileExtension(key) == ext
  }

  /** `a/b/ts.ext` for the rendered timestamp reads back as its parts. */
  lemma KeyShape(a: string, b: string, timestamp: nat, ext: string)
    requires |ext| > 0 && '.' !in ext
    ensures KeyReadsBack(a + "/" + b + "/" + NatToString(timestamp) + "." + ext, a, b, timestamp, ext)
  {
    var ts := NatToString(timestamp);
    KeySegments(a, b, ts, ext);
    ExtensionOfKey(a + "/" + b + "/" + ts, ext);
    ParseIntRoundTrip(timestamp);
    assert IntToString(timestamp) == ts;
  }

  /** The object key `assignment/student/timestamp.ext` under which a
      submission image is uploaded; it reads back as the assignment id, the
      student id, the timestamp and the extension of the file's name. */
  function StoragePath(assignmentId: string, studentId: string, timestamp: nat, fileName: string): (path: string)
    ensures KeyReadsBack(path, assignmentId, studentId, timestamp, FileExtension(fileName))
  {
    var ext := FileExtension(fileName);
    KeyShape(assignmentId, studentId, timestamp, ext);
    assignmentId + "/" + studentId + "/" + NatToString(timestamp) + "." + ext
  }

  /** What a successful upload hands back: the stored key and its public URL. */
  datatype Uploaded = Uploaded(filePath: string, publicUrl: string)

  /** `uploadSubmissionImage`: uploads under `StoragePath`; an upload error
      is returned as is with no data; otherwise the key the store reports is
      paired with its public URL. */
  function UploadSubmissionImage(
    fileName: string, assignmentId: string, studentId: string, now: nat,
    upload: string -> Result<string, Error>, publicUrlOf: string -> string)
    : (r: Result<Uploaded, Error>)
    ensures var resp := upload(StoragePath(assignmentId, studentId, now, fileName));
      && (r.Failure? <==> resp.Failure?)
      && (r.Failure? ==> r.error == resp.error)
      && (r.Success? ==> r.value.filePath == resp.value && r.value.publicUrl == publicUrlOf(resp.value))
  {
    var key := StoragePath(assignmentId, studentId, now, fileName);
    match upload(key)
    case Failure(e) => Failure(e)
    case Success(path) => Success(Uploaded(path, publicUrlOf(path)))
  }

  /** `getSubmissionSignedUrl`: asks the store for a URL valid for
      `expiresIn` seconds (3600 when not given); an error or an empty or
      missing URL gives null. */
  function SubmissionSignedUrl(
    filePath: string, expiresIn: Option<int>,
    createSignedUrl: (string, int) -> Result<Option<string>, Error>)
    : (r: Option<string>)
    ensures var resp := createSignedUrl(filePath, expiresIn.GetOr(DefaultSignedUrlSeconds));
      && (r.Some? <==> resp.Success? && resp.value.Some? && resp.value.value != "")
      && (r.Some? ==> r.value == resp.value.value)
  {
    var seconds := if expiresIn.Some? then expiresIn.value else DefaultSignedUrlSeconds;
    match createSignedUrl(filePath, seconds)
    case Failure(_) => None
    case Success(url) => if url.Some? && url.value != "" then url else None
  }
}
