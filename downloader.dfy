/**
 * The downloader's state-changing steps, over a file system held in a map:
 * `fetch_image`, `download_images`, `images_to_pdf` and the pipeline of
 * `main` (trim, download, name the document, assemble).
 */
module Downloader {
  import opened Wrappers
  import opened Files
  import opened Paths
  import opened Slices
  import opened Downloads
  import opened Assembly

  class FileSystem {
    /** Every file on disk, by absolute path. */
    var files: FileMap

    constructor (initial: FileMap)
      ensures files == initial
    {
      files := initial;
    }

    /** `fetch_image(url)`: on status 200 write the body to the scratch path
        and return that path; on any other status return None and write nothing. */
    method FetchImage(url: string, cwd: string, respond: string -> Response) returns (r: Option<string>)
      requires IsAbsolute(cwd)
      modifies this
      ensures r == Fetched(cwd, respond, url)
      ensures r.Some? ==> r.value != [] && LastSegment(r.value) == LastSegment(url)
      ensures files == Written(old(files), cwd, respond, url)
    {
      var resp := respond(url);
      if resp.status != StatusOk {
        return None;
      }
      var filename := PathJoin(cwd, LastSegment(url));
      ScratchNameShape(cwd, url);
      files := files[filename := Raw(resp.content)];
      r := Some(filename);
    }

    /** `download_images(links)`: fetch every link in order and keep the
        scratch paths of the fetches that produced a file. */
    method DownloadImages(links: seq<string>, cwd: string, respond: string -> Response) returns (downloaded: seq<string>)
      requires IsAbsolute(cwd)
      modifies this
      ensures downloaded == Downloaded(cwd, respond, links)
      ensures files == AfterDownload(old(files), cwd, respond, links)
    {
      downloaded := [];
      var i := 0;
      while i < |links|
        invariant 0 <= i <= |links|
        invariant downloaded == Downloaded(cwd, respond, links[..i])
        invariant files == AfterDownload(old(files), cwd, respond, links[..i])
      {
        var link := links[i];
        var imgFile := FetchImage(link, cwd, respond);
        assert links[..i + 1] == links[..i] + [link];
        DownloadedAppend(cwd, respond, links[..i], [link]);
        AfterDownloadAppend(old(files), cwd, respond, links[..i], link);
        // the truthiness test also rejects an empty name, which a path under cwd never is
        if imgFile.Some? && imgFile.value != [] {
          downloaded := downloaded + [imgFile.value];
        }
        i := i + 1;
      }
      assert links[..i] == links;
    }

    /** `images_to_pdf(paths, pdfPath)`: open every path in order, save the
        first image with the others appended as one document, then remove
        every path. An exception ends the call where it is raised. */
    method ImagesToPdf(paths: seq<string>, pdfPath: string, decodes: Bytes -> bool, saveOk: bool)
      returns (out: Outcome)
      modifies this
      ensures out == AssemblyOutcome(old(files), decodes, paths, saveOk)
      ensures files == AfterAssembly(old(files), decodes, paths, pdfPath, saveOk)
    {
      // open every path in order; the first failure ends the call
      var images: seq<Bytes> := [];
      var i := 0;
      while i < |paths|
        invariant 0 <= i <= |paths|
        invariant files == old(files)
        invariant forall j :: 0 <= j < i ==> Opens(files, decodes, paths[j])
        invariant images == Images(files, decodes, paths[..i])
      {
        if !Opens(files, decodes, paths[i]) {
          return OpenFailed(paths[i]);
        }
        ImagesSnoc(files, decodes, paths[..i], paths[i]);
        assert paths[..i + 1] == paths[..i] + [paths[i]];
        images := images + [files[paths[i]].bytes];
        i := i + 1;
      }
      assert paths[..i] == paths;
      // save the first image as page one with the others appended after it
      if |images| == 0 {
        return NoImages;
      }
      if !saveOk {
        return SaveFailed;
      }
      files := files[pdfPath := Pdf([images[0]] + images[1..])];
      assert [images[0]] + images[1..] == images;
      ghost var written := files;
      // remove every path in order; a path already gone ends the call
      var k := 0;
      while k < |paths|
        invariant 0 <= k <= |paths|
        invariant Distinct(paths[..k])
        invariant files == written - set p | p in paths[..k]
      {
        assert Opens(old(files), decodes, paths[k]);
        if paths[k] !in files {
          return RemoveFailed(paths[k]);
        }
        assert paths[..k + 1] == paths[..k] + [paths[k]];
        files := files - {paths[k]};
        k := k + 1;
      }
      assert paths[..k] == paths;
      out := Saved;
    }

    /** `main`: trim the extracted links, download them into `cwd`, and
        assemble the downloads into a document named after the chapter URL. */
    method Run(url: string, jpgs: seq<string>, cwd: string, respond: string -> Response,
               decodes: Bytes -> bool, saveOk: bool) returns (out: Outcome)
      requires IsAbsolute(cwd)
      modifies this
      ensures var links := Trim(jpgs);
        var paths := Downloaded(cwd, respond, links);
        var fetched := AfterDownload(old(files), cwd, respond, links);
        out == AssemblyOutcome(fetched, decodes, paths, saveOk) &&
        files == AfterAssembly(fetched, decodes, paths, DocumentPath(cwd, url), saveOk)
    {
      var links := Trim(jpgs);
      var paths := DownloadImages(links, cwd, respond);
      var pdfFilename := LastSegment(url) + PdfSuffix;
      // the relative document name resolves against the working directory
      out := ImagesToPdf(paths, PathJoin(cwd, pdfFilename), decodes, saveOk);
    }
  }

  /** The document `main` writes for `url`, as an absolute path. */
  function DocumentPath(cwd: string, url: string): string
  {
    PathJoin(cwd, PdfName(url))
  }

  /** When `main` ends normally, the document holds one page per trimmed link
      answered with status 200: |jpgs| - 2 pages less one per failed fetch. */
  lemma PipelinePageCount(files: FileMap, url: string, jpgs: seq<string>, cwd: string,
                          respond: string -> Response, decodes: Bytes -> bool)
    requires |jpgs| >= 2
    requires var paths := Downloaded(cwd, respond, Trim(jpgs));
      AssemblyOutcome(AfterDownload(files, cwd, respond, Trim(jpgs)), decodes, paths, true) == Saved &&
      DocumentPath(cwd, url) !in paths
    ensures var links := Trim(jpgs);
      var fetched := AfterDownload(files, cwd, respond, links);
      var after := AfterAssembly(fetched, decodes, Downloaded(cwd, respond, links), DocumentPath(cwd, url), true);
      DocumentPath(cwd, url) in after && after[DocumentPath(cwd, url)].Pdf? &&
      |after[DocumentPath(cwd, url)].pages| == |Succeeded(respond, links)| == |jpgs| - 2 - |Failed(respond, links)|
  {
    var links := Trim(jpgs);
    var fetched := AfterDownload(files, cwd, respond, links);
    var paths := Downloaded(cwd, respond, links);
    SavedIff(fetched, decodes, paths, true);
    CleanupOnSuccess(fetched, decodes, paths, DocumentPath(cwd, url), true);
    PagesInOrder(fetched, decodes, paths);
    DownloadedNamesSucceeded(cwd, respond, links);
    SucceededPlusFailed(respond, links);
    TrimShape(jpgs);
  }

  /** When every trimmed link fails, `main` ends with IndexError and leaves
      the file system as it found it. */
  lemma PipelineAllFailing(files: FileMap, url: string, jpgs: seq<string>, cwd: string,
                           respond: string -> Response, decodes: Bytes -> bool, saveOk: bool)
    requires forall i :: 0 <= i < |Trim(jpgs)| ==> !Succeeds(respond, Trim(jpgs)[i])
    ensures var links := Trim(jpgs);
      var fetched := AfterDownload(files, cwd, respond, links);
      var paths := Downloaded(cwd, respond, links);
      AssemblyOutcome(fetched, decodes, paths, saveOk) == NoImages &&
      AfterAssembly(fetched, decodes, paths, DocumentPath(cwd, url), saveOk) == files
  {
    AllFailing(files, cwd, respond, Trim(jpgs));
    EmptyFails(files, decodes, DocumentPath(cwd, url), saveOk);
  }

  /** Two trimmed links that both succeed and share a last segment download
      to the same scratch file, so `main` never ends normally. */
  lemma PipelineSameNameNeverSaved(files: FileMap, jpgs: seq<string>, cwd: string,
                                   respond: string -> Response, decodes: Bytes -> bool, saveOk: bool,
                                   i: nat, j: nat)
    requires i < j < |Trim(jpgs)|
    requires Succeeds(respond, Trim(jpgs)[i]) && Succeeds(respond, Trim(jpgs)[j])
    requires LastSegment(Trim(jpgs)[i]) == LastSegment(Trim(jpgs)[j])
    ensures var links := Trim(jpgs);
      AssemblyOutcome(AfterDownload(files, cwd, respond, links), decodes,
                      Downloaded(cwd, respond, links), saveOk) != Saved
  {
    var links := Trim(jpgs);
    SameNameRepeats(cwd, respond, links, i, j);
    SavedIff(AfterDownload(files, cwd, respond, links), decodes, Downloaded(cwd, respond, links), saveOk);
  }

  /** When `main` ends normally, page j of the document is the body of the
      j-th trimmed link answered with status 200. */
  lemma PipelinePageContents(files: FileMap, url: string, jpgs: seq<string>, cwd: string,
                             respond: string -> Response, decodes: Bytes -> bool)
    requires var paths := Downloaded(cwd, respond, Trim(jpgs));
      AssemblyOutcome(AfterDownload(files, cwd, respond, Trim(jpgs)), decodes, paths, true) == Saved &&
      DocumentPath(cwd, url) !in paths
    ensures var links := Trim(jpgs);
      var fetched := AfterDownload(files, cwd, respond, links);
      var after := AfterAssembly(fetched, decodes, Downloaded(cwd, respond, links), DocumentPath(cwd, url), true);
      DocumentPath(cwd, url) in after && after[DocumentPath(cwd, url)].Pdf? &&
      |after[DocumentPath(cwd, url)].pages| == |Succeeded(respond, links)| &&
      forall j :: 0 <= j < |Succeeded(respond, links)| ==>
        after[DocumentPath(cwd, url)].pages[j] == respond(Succeeded(respond, links)[j]).content
  {
    var links := Trim(jpgs);
    var fetched := AfterDownload(files, cwd, respond, links);
    var paths := Downloaded(cwd, respond, links);
    SavedIff(fetched, decodes, paths, true);
    CleanupOnSuccess(fetched, decodes, paths, DocumentPath(cwd, url), true);
    PagesInOrder(fetched, decodes, paths);
    DownloadedNamesSucceeded(cwd, respond, links);
    DownloadedContents(files, cwd, respond, links);
  }
}
