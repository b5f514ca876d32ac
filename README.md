# raw_downloader, modelled in Dafny

This project models the sequence-and-string core of `raw_downloader.py`, a
script that renders a manga chapter page in a headless browser, extracts the
page-image links, downloads them into the working directory and binds them
into one PDF named after the chapter URL. The browser, the HTML parser, the
HTTP client and the imaging library are outside the model. Under them sits a
small pipeline, and that pipeline is what is modelled:

- **Trim** (`jpgs[1:-1]`): Python slice semantics for the two-bound form (`Slices.Bound`,
  `Slices.Slice`), so a list of fewer than three links trims to the empty
  list instead of failing.
- **Fetch and download** (`fetch_image`, `download_images`): the HTTP
  response is an oracle `respond: string -> Response(status, content)`. A
  status other than 200 yields `None` and writes nothing. Status 200 writes
  the body to `os.path.join(cwd, url.split("/")[-1])`, overwriting any file
  already there. The loop keeps the returned names in link order.
- **Names**: `str.split("/")` with its inverse `"/".join`, the last segment
  of a URL, `os.path.join` as posixpath implements it, the scratch name and
  the document name `<last segment>.pdf`.
- **Assembly** (`images_to_pdf`): `Image.open` is an oracle
  `decodes: Bytes -> bool` on the file's bytes, and the multi-page save is a
  flag `saveOk`. The first image becomes page one and the rest are appended
  in order. Every input is then removed with `os.remove`. Any exception ends
  the call where it is raised, so an open or save failure removes nothing.
- **main**: trim, download, derive the document name, assemble.

The file system is a class `Downloader.FileSystem` whose one field maps
absolute paths to contents (`Raw` bytes or a `Pdf` of pages). The methods
update it in place and are proved against specification functions
(`Downloads.Downloaded`, `Downloads.AfterDownload`,
`Assembly.AssemblyOutcome`, `Assembly.AfterAssembly`). The lemmas state
what the source promises about those functions.

The module layout is: `Wrappers` (Option), `Files` (bytes, contents, the
path map), `Slices`, `Paths`, `Downloads`, `Assembly`, `Downloader`.

Facts about `raw_downloader.py` that the model keeps as written:
- A failing `Image.open` raises out of the list comprehension at line 75 and
  aborts the call (`Assembly.Outcome.OpenFailed`); no image is skipped.
- Scratch files are removed only after a successful save (lines 76-78);
  there is no cleanup when opening or saving fails.
- The only trim is `jpgs[1:-1]` (line 90).
- Chapter listing, skip counts, site dispatch and decode-failure skipping do
  not appear in this file.

A property the model brings out: two succeeding links with the same last
segment download to the same scratch file. The second download overwrites
the first, and the document repeats that page. Then `os.remove` fails on the
path's second occurrence, after the document is already written. See
`Downloads.SameNameRepeats`, `Assembly.RepeatedPathFailsRemoval` and
`Downloader.PipelineSameNameNeverSaved`. The model keeps this behaviour as
written.

## Model

| member | source | states |
|---|---|---|
| Slices.Bound | raw_downloader.py:90 | a Python slice bound, normalised against length n, lies in [0, n] |
| Slices.SliceNormalisation | raw_downloader.py:90 | `s[i:j]` is `s[i..j]` for bounds inside the sequence, a negative bound counts from the end, out-of-range bounds are clamped, and crossed bounds give an empty slice rather than an error |
| Slices.TrimShape | raw_downloader.py:90 | trimming M links gives max(0, M-2) links, and element i of the result is original element i+1 |
| Slices.TrimShort | raw_downloader.py:90 | lists of length 0, 1 or 2 trim to the empty list rather than raising |
| Slices.TrimRestore | raw_downloader.py:90 | for M >= 2 the original is the first link, the trimmed list and the last link |
| Paths.Split | raw_downloader.py:56 | `split("/")` yields at least one piece and no piece contains "/" |
| Paths.JoinSplit | raw_downloader.py:56 | joining the pieces of a split with "/" gives back the original string |
| Paths.SplitJoin | raw_downloader.py:56 | splitting a "/"-join of separator-free pieces gives back the pieces |
| Paths.SplitAround | raw_downloader.py:56 | a "/" splits a string into the pieces of its left side followed by those of its right side |
| Paths.LastSegmentIsLastComponent | raw_downloader.py:56 | `split("/")[-1]` has no "/", is a suffix of the URL, and is either the whole URL or preceded by "/"; it is the whole URL exactly when the URL has no "/" |
| Paths.LastSegmentOfDirectory | raw_downloader.py:98 | a URL ending in "/" has an empty last segment |
| Paths.PathJoinName | raw_downloader.py:56 | `os.path.join(dir, name)` with a separator-free name has as components those of dir (without a trailing "/") followed by name, so it names the file name directly in dir; with an empty dir it is name |
| Paths.ScratchNameShape | raw_downloader.py:55-56 | the scratch file is named after the URL's last segment and, under an absolute cwd, its components are cwd's followed by that segment, so it sits directly in cwd and is non-empty |
| Paths.PdfNameShape | raw_downloader.py:98 | the document name is the URL's last segment followed by ".pdf", holds no "/", and is exactly ".pdf" for a URL ending in "/" |
| Downloads.DownloadedAppend | raw_downloader.py:64-68 | the download list of a concatenation of link lists is the concatenation of their download lists |
| Downloads.AfterDownloadAppend | raw_downloader.py:57-58 | downloading one more link applies that link's write after the earlier ones |
| Downloads.DownloadedNamesSucceeded | raw_downloader.py:62-70 | the download list has one entry per link answered with 200, and entry i is the scratch name of the i-th such link |
| Downloads.SucceededIsOrderedFilter | raw_downloader.py:64-68 | the succeeding links form a subsequence of the links and are exactly the links answered with 200 |
| Downloads.SucceededPlusFailed | raw_downloader.py:65-68 | the succeeding and failing links together account for every link |
| Downloads.FailedLinkIgnored | raw_downloader.py:53-54 | a link answered with a status other than 200 adds nothing to the download list wherever it stands |
| Downloads.AllFailing | raw_downloader.py:62-70 | when every fetch fails the list is empty and no file is written |
| Downloads.SucceededListed | raw_downloader.py:66-68 | every succeeding link's scratch path appears in the download list |
| Downloads.DownloadedFilesExist | raw_downloader.py:56-58 | after downloading, the new paths are exactly the listed ones, each holds raw bytes, and unlisted files are unchanged |
| Downloads.DownloadedContents | raw_downloader.py:56-58 | when no scratch path is written twice, the file of the i-th succeeding link exists and holds exactly that link's response body |
| Downloads.SameNameRepeats | raw_downloader.py:56 | two succeeding links with the same last segment make the download list repeat a path |
| Assembly.FirstUnopenable | raw_downloader.py:75 | the index of the first path `Image.open` rejects: every earlier path opens and the path at it does not |
| Assembly.FirstRepeatFrom | raw_downloader.py:77-78 | the index of the first path that repeats an earlier one: the paths before it are distinct and the path at it occurred before |
| Assembly.ImagesSnoc | raw_downloader.py:75 | opening one more path appends its image to the image list |
| Assembly.SavedIff | raw_downloader.py:73-78 | `images_to_pdf` ends normally if and only if the list is non-empty, every path opens, the save succeeds and no path repeats |
| Assembly.EmptyFails | raw_downloader.py:76 | an empty list fails at `images[0]` and leaves the file system unchanged |
| Assembly.NoCleanupOnEarlyFailure | raw_downloader.py:75-78 | after an open, `images[0]` or save failure no input file has been removed (and, with a failed save taken to write nothing, the document path is as it was) |
| Assembly.CleanupOnSuccess | raw_downloader.py:76-78 | after a normal end no input path remains, the document holds the images, and every other file is unchanged |
| Assembly.PagesInOrder | raw_downloader.py:75-76 | the document has one page per path, page j being the bytes of path j, so page one is `files[0]` and the rest follow in order |
| Assembly.RepeatedPathFailsRemoval | raw_downloader.py:77-78 | with a repeated path, every open and the save succeeding, removal fails at the first repeat, after the document holding the images has been written (unless an earlier input path removed it) and the paths before the repeat removed |
| Downloader.FileSystem.FetchImage | raw_downloader.py:48-59 | returns the scratch path exactly on status 200 and writes the body there; otherwise returns None and writes nothing |
| Downloader.FileSystem.DownloadImages | raw_downloader.py:62-70 | returns the download list of the links and leaves the file system with every succeeding body written, in link order |
| Downloader.FileSystem.ImagesToPdf | raw_downloader.py:73-78 | ends with the outcome of the first exception raised; inputs are removed only once the save has succeeded |
| Downloader.FileSystem.Run | raw_downloader.py:89-99 | `main` assembles the downloads of the trimmed links into the document named after the URL |
| Downloader.PipelinePageCount | raw_downloader.py:89-99 | a normal end writes a document with one page per trimmed link answered with 200, that is M-2 pages less one per failed fetch |
| Downloader.PipelinePageContents | raw_downloader.py:89-99 | a normal end writes a document whose page j is the response body of the j-th trimmed link answered with 200 |
| Downloader.PipelineAllFailing | raw_downloader.py:89-99 | if every trimmed link fails, `main` fails at `images[0]` and the file system is unchanged |
| Downloader.PipelineSameNameNeverSaved | raw_downloader.py:90-99 | two succeeding trimmed links sharing a last segment keep `main` from ending normally |

## Left out

- `create_driver` and `get_content` (raw_downloader.py:22-38): browser control and a fixed three-second wait. The rendered markup is not modelled.
- `find_jpg` (raw_downloader.py:41-45): a CSS-selector query. Its result is the arbitrary input `jpgs` of `Downloader.FileSystem.Run`.
- The network call in `fetch_image` (raw_downloader.py:52): it is an oracle from URL to status and body that always answers. Any exception `requests.get` raises (timeouts, connection errors, a relative or scheme-less link, too many redirects), which would abort `download_images` and `main`, is not modelled. Neither is the timeout value.
- Image decoding and PDF encoding (raw_downloader.py:75-76): `Image.open` is an oracle on the file's bytes, and the save is a success flag. A saved document is recorded as its list of page bytes. A file holding a saved document is taken not to open as an image.
- `os.getcwd()`: the working directory is a parameter, required to be absolute as `getcwd` guarantees. The relative document name is resolved against it.
- `os.remove` failures other than a missing file (permissions, directories) and `open` failures when writing a scratch file are not modelled.
- The hard-coded chapter URL and the `print` calls (raw_downloader.py:69, 83-84): configuration and console output.
- Chapter listing, skip counts, site dispatch and decode-failure skipping do not appear in this file, so there is no code to model.
- Assembly.PagesInOrder: states one page per path because every image is taken to be single-frame; with `save_all=True` a multi-frame file (MPO, animated GIF or WebP) would give several pages.
- Downloader.PipelinePageCount: the page count assumes single-frame images, as for Assembly.PagesInOrder.
- Downloader.PipelinePageContents: one page per body assumes single-frame images, as for Assembly.PagesInOrder.
- Assembly.NoCleanupOnEarlyFailure: a failed save is taken to write nothing, whereas the image library opens the output for writing before encoding and may truncate an existing document or leave a partial one; what the source guarantees is only that no input file is removed.
- Downloader.FileSystem.ImagesToPdf: like Assembly.NoCleanupOnEarlyFailure, a failed save leaves the document path as it was in the model.
- Python slices with a step: only the two-bound form used at raw_downloader.py:90 is modelled.
