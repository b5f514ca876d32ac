/**
 * Specification of `images_to_pdf`: open every file in order, save the first
 * image as page one with the rest appended, then remove every input file.
 * The image library is an oracle `decodes` (can `Image.open` read these
 * bytes) and a flag `saveOk` (does the multi-page save succeed).
 */
module Assembly {
  import opened Files

  /** How a call ends: normally, or with the exception that escapes it. */
  datatype Outcome =
    | Saved                        // document written and every input removed
    | OpenFailed(path: string)     // Image.open raised on this path
    | NoImages                     // IndexError at images[0]
    | SaveFailed                   // the save raised
    | RemoveFailed(path: string)   // os.remove raised on this path

  /** `Image.open(path)` succeeds: the path holds raw bytes the library decodes. */
  predicate Opens(files: FileMap, decodes: Bytes -> bool, path: string)
  {
    path in files && files[path].Raw? && decodes(files[path].bytes)
  }

  /** Index of the first path that does not open, or |paths| if all do. */
  function FirstUnopenable(files: FileMap, decodes: Bytes -> bool, paths: seq<string>): (k: nat)
    ensures k <= |paths|
    ensures forall j :: 0 <= j < k ==> Opens(files, decodes, paths[j])
    ensures k < |paths| ==> !Opens(files, decodes, paths[k])
    decreases |paths|
  {
    if paths == [] || !Opens(files, decodes, paths[0]) then 0
    else 1 + FirstUnopenable(files, decodes, paths[1..])
  }

  /** Index of the first path that repeats an earlier one, scanning from `i`,
      or |paths| if none does. */
  function FirstRepeatFrom(paths: seq<string>, i: nat): (k: nat)
    requires i <= |paths| && Distinct(paths[..i])
    ensures i <= k <= |paths|
    ensures Distinct(paths[..k])
    ensures k < |paths| ==> paths[k] in paths[..k]
    decreases |paths| - i
  {
    if i == |paths| || paths[i] in paths[..i] then i
    else
      assert paths[..i + 1] == paths[..i] + [paths[i]];
      FirstRepeatFrom(paths, i + 1)
  }

  /** Index of the first repeated path, or |paths| when all are distinct. */
  function FirstRepeat(paths: seq<string>): nat
  {
    FirstRepeatFrom(paths, 0)
  }

  /** The decoded images, one per path, in path order. */
  function Images(files: FileMap, decodes: Bytes -> bool, paths: seq<string>): seq<Bytes>
    requires forall j :: 0 <= j < |paths| ==> Opens(files, decodes, paths[j])
    decreases |paths|
  {
    if paths == [] then []
    else
      assert Opens(files, decodes, paths[0]);
      [files[paths[0]].bytes] + Images(files, decodes, paths[1..])
  }

  /** How `images_to_pdf(paths, pdfPath)` ends. */
  function AssemblyOutcome(files: FileMap, decodes: Bytes -> bool, paths: seq<string>, saveOk: bool): Outcome
  {
    var k := FirstUnopenable(files, decodes, paths);
    if k < |paths| then OpenFailed(paths[k])
    else if paths == [] then NoImages
    else if !saveOk then SaveFailed
    else
      var d := FirstRepeat(paths);
      if d < |paths| then RemoveFailed(paths[d]) else Saved
  }

  /** The file system after `images_to_pdf(paths, pdfPath)`: once the save has
      happened, the document is written and the paths removed up to the
      first one that was already removed. */
  function AfterAssembly(files: FileMap, decodes: Bytes -> bool, paths: seq<string>, pdfPath: string, saveOk: bool): FileMap
  {
    var out := AssemblyOutcome(files, decodes, paths, saveOk);
    if out.Saved? || out.RemoveFailed? then
      files[pdfPath := Pdf(Images(files, decodes, paths))] - set p | p in paths[..FirstRepeat(paths)]
    else files
  }

  /** The call ends normally exactly when there is a path, every path opens,
      the save succeeds and no path is listed twice. */
  lemma SavedIff(files: FileMap, decodes: Bytes -> bool, paths: seq<string>, saveOk: bool)
    ensures AssemblyOutcome(files, decodes, paths, saveOk) == Saved <==>
      paths != [] && saveOk && Distinct(paths) &&
      forall j :: 0 <= j < |paths| ==> Opens(files, decodes, paths[j])
  {
  }

  /** An empty list fails with IndexError and changes nothing. */
  lemma EmptyFails(files: FileMap, decodes: Bytes -> bool, pdfPath: string, saveOk: bool)
    ensures AssemblyOutcome(files, decodes, [], saveOk) == NoImages
    ensures AfterAssembly(files, decodes, [], pdfPath, saveOk) == files
  {
  }

  /** An open or save failure leaves the file system as it was: no input
      removed, and the document path as it was before the call. */
  lemma NoCleanupOnEarlyFailure(files: FileMap, decodes: Bytes -> bool, paths: seq<string>, pdfPath: string, saveOk: bool)
    requires var out := AssemblyOutcome(files, decodes, paths, saveOk);
      out.OpenFailed? || out.NoImages? || out.SaveFailed?
    ensures AfterAssembly(files, decodes, paths, pdfPath, saveOk) == files
  {
  }

  /** A call that ends normally leaves none of its inputs on disk, stores the
      document (unless it was itself one of the inputs) and touches no other file. */
  lemma CleanupOnSuccess(files: FileMap, decodes: Bytes -> bool, paths: seq<string>, pdfPath: string, saveOk: bool)
    requires AssemblyOutcome(files, decodes, paths, saveOk) == Saved
    ensures var after := AfterAssembly(files, decodes, paths, pdfPath, saveOk);
      (forall j :: 0 <= j < |paths| ==> paths[j] !in after) &&
      (pdfPath !in paths ==> pdfPath in after && after[pdfPath] == Pdf(Images(files, decodes, paths))) &&
      (forall p :: p in files && p != pdfPath && p !in paths ==> p in after && after[p] == files[p])
  {
  }

  /** The pages are the images in path order: page one is the first path, the
      appended pages are the rest. */
  lemma {:induction false} PagesInOrder(files: FileMap, decodes: Bytes -> bool, paths: seq<string>)
    requires forall j :: 0 <= j < |paths| ==> Opens(files, decodes, paths[j])
    ensures var pages := Images(files, decodes, paths);
      |pages| == |paths| &&
      forall j :: 0 <= j < |paths| ==> pages[j] == files[paths[j]].bytes
    decreases |paths|
  {
    if paths != [] {
      PagesInOrder(files, decodes, paths[1..]);
    }
  }

  /** When every path opens and the save succeeds, a repeated path makes the
      removal loop fail on its second occurrence: the document has been
      written and the paths before the repeat are already removed. */
  lemma RepeatedPathFailsRemoval(files: FileMap, decodes: Bytes -> bool, paths: seq<string>, pdfPath: string)
    requires !Distinct(paths)
    requires forall j :: 0 <= j < |paths| ==> Opens(files, decodes, paths[j])
    ensures AssemblyOutcome(files, decodes, paths, true) == RemoveFailed(paths[FirstRepeat(paths)])
    ensures var after := AfterAssembly(files, decodes, paths, pdfPath, true);
      (pdfPath !in paths[..FirstRepeat(paths)] ==>
         pdfPath in after && after[pdfPath] == Pdf(Images(files, decodes, paths))) &&
      (forall j :: 0 <= j < FirstRepeat(paths) ==> paths[j] !in after)
  {
  }

  /** Opening one more path appends its image. */
  lemma {:induction false} ImagesSnoc(files: FileMap, decodes: Bytes -> bool, paths: seq<string>, path: string)
    requires forall j :: 0 <= j < |paths| ==> Opens(files, decodes, paths[j])
    requires Opens(files, decodes, path)
    ensures forall j :: 0 <= j < |paths + [path]| ==> Opens(files, decodes, (paths + [path])[j])
    ensures Images(files, decodes, paths + [path]) == Images(files, decodes, paths) + [files[path].bytes]
    decreases |paths|
  {
    if paths == [] {
      assert [] + [path] == [path];
    } else {
      assert (paths + [path])[1..] == paths[1..] + [path];
      ImagesSnoc(files, decodes, paths[1..], path);
    }
  }
}
