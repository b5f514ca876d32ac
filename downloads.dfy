/**
 * Specification of `fetch_image` and `download_images`: which links yield a
 * scratch file, in which order, and what the file system holds afterwards.
 * The HTTP client is an oracle `respond` from URL to response.
 */
module Downloads {
  import opened Wrappers
  import opened Files
  import opened Paths

  /** What `requests.get` yields: a status code and a body. */
  datatype Response = Response(status: int, content: Bytes)

  const StatusOk := 200

  predicate Succeeds(respond: string -> Response, url: string)
  {
    respond(url).status == StatusOk
  }

  /** The value `fetch_image` returns: the scratch path on status 200, else None. */
  function Fetched(cwd: string, respond: string -> Response, url: string): Option<string>
  {
    if Succeeds(respond, url) then Some(ScratchName(cwd, url)) else None
  }

  /** The file system after `fetch_image(url)`: on status 200 the body is
      written to the scratch path, overwriting whatever was there. */
  function Written(files: FileMap, cwd: string, respond: string -> Response, url: string): FileMap
  {
    if Succeeds(respond, url) then files[ScratchName(cwd, url) := Raw(respond(url).content)]
    else files
  }

  /** The links whose fetch succeeds, in link order. */
  function Succeeded(respond: string -> Response, links: seq<string>): seq<string>
  {
    if links == [] then []
    else (if Succeeds(respond, links[0]) then [links[0]] else []) + Succeeded(respond, links[1..])
  }

  /** The links whose fetch fails, in link order. */
  function Failed(respond: string -> Response, links: seq<string>): seq<string>
  {
    if links == [] then []
    else (if Succeeds(respond, links[0]) then [] else [links[0]]) + Failed(respond, links[1..])
  }

  /** The list `download_images` returns. */
  function Downloaded(cwd: string, respond: string -> Response, links: seq<string>): seq<string>
  {
    if links == [] then []
    else
      (if Succeeds(respond, links[0]) then [ScratchName(cwd, links[0])] else []) +
      Downloaded(cwd, respond, links[1..])
  }

  /** The file system after `download_images(links)`. */
  function AfterDownload(files: FileMap, cwd: string, respond: string -> Response, links: seq<string>): FileMap
    decreases |links|
  {
    if links == [] then files
    else AfterDownload(Written(files, cwd, respond, links[0]), cwd, respond, links[1..])
  }

  /** `a` is `b` with some entries left out and the rest in the same order. */
  predicate IsSubsequence<T(==)>(a: seq<T>, b: seq<T>)
    decreases |b|
  {
    a == [] ||
    (b != [] &&
     if a[0] == b[0] then IsSubsequence(a[1..], b[1..]) else IsSubsequence(a, b[1..]))
  }

  /** The download list of a concatenation is the concatenation of the lists. */
  lemma {:induction false} DownloadedAppend(cwd: string, respond: string -> Response, a: seq<string>, b: seq<string>)
    ensures Downloaded(cwd, respond, a + b) == Downloaded(cwd, respond, a) + Downloaded(cwd, respond, b)
    decreases |a|
  {
    if a == [] {
      assert a + b == b;
    } else {
      assert (a + b)[1..] == a[1..] + b;
      DownloadedAppend(cwd, respond, a[1..], b);
    }
  }

  /** Downloading one more link writes one more file, after the others. */
  lemma {:induction false} AfterDownloadAppend(files: FileMap, cwd: string, respond: string -> Response, a: seq<string>, url: string)
    ensures AfterDownload(files, cwd, respond, a + [url]) ==
            Written(AfterDownload(files, cwd, respond, a), cwd, respond, url)
    decreases |a|
  {
    if a == [] {
      assert [] + [url] == [url];
    } else {
      assert (a + [url])[1..] == a[1..] + [url];
      AfterDownloadAppend(Written(files, cwd, respond, a[0]), cwd, respond, a[1..], url);
    }
  }

  /** The download list is the scratch names of the succeeding links, in link
      order; so its length is the number of links answered with status 200. */
  lemma {:induction false} DownloadedNamesSucceeded(cwd: string, respond: string -> Response, links: seq<string>)
    ensures |Downloaded(cwd, respond, links)| == |Succeeded(respond, links)|
    ensures forall i :: 0 <= i < |Succeeded(respond, links)| ==>
      Downloaded(cwd, respond, links)[i] == ScratchName(cwd, Succeeded(respond, links)[i])
    decreases |links|
  {
    if links != [] {
      DownloadedNamesSucceeded(cwd, respond, links[1..]);
    }
  }

  /** The succeeding links keep their relative order, and they are exactly
      the links answered with status 200. */
  lemma {:induction false} SucceededIsOrderedFilter(respond: string -> Response, links: seq<string>)
    ensures IsSubsequence(Succeeded(respond, links), links)
    ensures forall url :: url in Succeeded(respond, links) <==> url in links && Succeeds(respond, url)
    decreases |links|
  {
    if links != [] {
      SucceededIsOrderedFilter(respond, links[1..]);
      var rest := Succeeded(respond, links[1..]);
      if Succeeds(respond, links[0]) {
        assert ([links[0]] + rest)[1..] == rest;
      } else {
        assert [] + rest == rest;
      }
      assert links == [links[0]] + links[1..];
    }
  }

  /** A link answered with a status other than 200 adds nothing to the list. */
  lemma FailedLinkIgnored(cwd: string, respond: string -> Response, a: seq<string>, url: string, b: seq<string>)
    requires !Succeeds(respond, url)
    ensures Downloaded(cwd, respond, a + [url] + b) == Downloaded(cwd, respond, a + b)
  {
    DownloadedAppend(cwd, respond, a + [url], b);
    DownloadedAppend(cwd, respond, a, [url]);
    DownloadedAppend(cwd, respond, a, b);
    assert Downloaded(cwd, respond, [url]) == [];
  }

  /** When every fetch fails, nothing is downloaded and nothing is written. */
  lemma {:induction false} AllFailing(files: FileMap, cwd: string, respond: string -> Response, links: seq<string>)
    requires forall i :: 0 <= i < |links| ==> !Succeeds(respond, links[i])
    ensures Downloaded(cwd, respond, links) == []
    ensures AfterDownload(files, cwd, respond, links) == files
    decreases |links|
  {
    if links != [] {
      AllFailing(files, cwd, respond, links[1..]);
    }
  }

  /** Every succeeding link's scratch path is on the download list. */
  lemma {:induction false} SucceededListed(cwd: string, respond: string -> Response, links: seq<string>, i: nat)
    requires i < |links| && Succeeds(respond, links[i])
    ensures ScratchName(cwd, links[i]) in Downloaded(cwd, respond, links)
    decreases i
  {
    if i > 0 {
      SucceededListed(cwd, respond, links[1..], i - 1);
    }
  }

  /** After downloading, every listed path exists as a raw file, new paths are
      exactly the listed ones, and files off the list are untouched. */
  lemma {:induction false} DownloadedFilesExist(files: FileMap, cwd: string, respond: string -> Response, links: seq<string>)
    ensures var after, listed := AfterDownload(files, cwd, respond, links), Downloaded(cwd, respond, links);
      after.Keys == files.Keys + (set p | p in listed) &&
      (forall p :: p in listed ==> after[p].Raw?) &&
      (forall p :: p in files && p !in listed ==> after[p] == files[p])
    decreases |links|
  {
    if links != [] {
      DownloadedFilesExist(Written(files, cwd, respond, links[0]), cwd, respond, links[1..]);
    }
  }

  /** Two succeeding links with the same last segment write the same scratch
      file, so the download list repeats a path. */
  lemma SameNameRepeats(cwd: string, respond: string -> Response, links: seq<string>, i: nat, j: nat)
    requires i < j < |links|
    requires Succeeds(respond, links[i]) && Succeeds(respond, links[j])
    requires LastSegment(links[i]) == LastSegment(links[j])
    ensures !Distinct(Downloaded(cwd, respond, links))
  {
    var front, back := links[..i + 1], links[i + 1..];
    assert links == front + back;
    DownloadedAppend(cwd, respond, front, back);
    SucceededListed(cwd, respond, front, i);
    SucceededListed(cwd, respond, back, j - i - 1);
    var d, df, db := Downloaded(cwd, respond, links), Downloaded(cwd, respond, front), Downloaded(cwd, respond, back);
    var name := ScratchName(cwd, links[i]);
    var x :| 0 <= x < |df| && df[x] == name;
    var y :| 0 <= y < |db| && db[y] == name;
    assert d[x] == d[|df| + y];
  }

  /** Every link either succeeds or fails. */
  lemma {:induction false} SucceededPlusFailed(respond: string -> Response, links: seq<string>)
    ensures |Succeeded(respond, links)| + |Failed(respond, links)| == |links|
    decreases |links|
  {
    if links != [] {
      SucceededPlusFailed(respond, links[1..]);
    }
  }

  /** When no scratch path is written twice, the file of the i-th succeeding
      link holds exactly the body that link was answered with. */
  lemma {:induction false} DownloadedContents(files: FileMap, cwd: string, respond: string -> Response, links: seq<string>)
    requires Distinct(Downloaded(cwd, respond, links))
    ensures forall i :: 0 <= i < |Succeeded(respond, links)| ==>
      var url := Succeeded(respond, links)[i];
      ScratchName(cwd, url) in AfterDownload(files, cwd, respond, links) &&
      AfterDownload(files, cwd, respond, links)[ScratchName(cwd, url)] == Raw(respond(url).content)
    decreases |links|
  {
    if links != [] {
      var rest := links[1..];
      var written := Written(files, cwd, respond, links[0]);
      var all, tail := Downloaded(cwd, respond, links), Downloaded(cwd, respond, rest);
      var shift := |all| - |tail|;
      assert forall a :: 0 <= a < |tail| ==> tail[a] == all[shift + a];
      DownloadedContents(written, cwd, respond, rest);
      if Succeeds(respond, links[0]) {
        var name := ScratchName(cwd, links[0]);
        assert all[0] == name && shift == 1;
        assert name !in tail;
        DownloadedFilesExist(written, cwd, respond, rest);
      }
    }
  }
}
