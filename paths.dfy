/**
 * The string side of the downloader: `str.split("/")`, the last path
 * segment of a URL, `os.path.join` and the names derived from them.
 */
module Paths {

  const Sep: char := '/'
  const PdfSuffix: string := ".pdf"

  /** `s.split("/")`: the pieces between separators; always at least one. */
  function Split(s: string): (parts: seq<string>)
    ensures |parts| >= 1
    ensures forall i :: 0 <= i < |parts| ==> Sep !in parts[i]
    decreases |s|
  {
    if s == [] then [[]]
    else
      var rest := Split(s[1..]);
      if s[0] == Sep then [[]] + rest
      else [[s[0]] + rest[0]] + rest[1..]
  }

  /** `"/".join(parts)`, the inverse of Split. */
  function Join(parts: seq<string>): string
    requires |parts| >= 1
    decreases |parts|
  {
    if |parts| == 1 then parts[0]
    else parts[0] + [Sep] + Join(parts[1..])
  }

  /** `url.split("/")[-1]`: the text after the last separator. */
  function LastSegment(url: string): string
  {
    var parts := Split(url);
    parts[|parts| - 1]
  }

  /** `os.path.join(a, b)` as posixpath implements it for one component. */
  function PathJoin(a: string, b: string): string
  {
    if |b| > 0 && b[0] == Sep then b
    else if a == [] || a[|a| - 1] == Sep then a + b
    else a + [Sep] + b
  }

  /** The scratch file `fetch_image` writes for `url`, under directory `cwd`. */
  function ScratchName(cwd: string, url: string): string
  {
    PathJoin(cwd, LastSegment(url))
  }

  /** The document name `main` derives from the chapter URL. */
  function PdfName(url: string): string
  {
    LastSegment(url) + PdfSuffix
  }

  /** What `os.getcwd()` returns: an absolute path. */
  predicate IsAbsolute(path: string)
  {
    |path| > 0 && path[0] == Sep
  }

  /** Joining the pieces of a split gives back the original string. */
  lemma {:induction false} JoinSplit(s: string)
    ensures Join(Split(s)) == s
    decreases |s|
  {
    if s != [] {
      var rest := Split(s[1..]);
      JoinSplit(s[1..]);
      if s[0] == Sep {
        assert ([[]] + rest)[1..] == rest;
      } else if |rest| > 1 {
        var parts := [[s[0]] + rest[0]] + rest[1..];
        assert parts[1..] == rest[1..];
      }
    }
  }

  /** A separator splits a string into the pieces of its two sides. */
  lemma {:induction false} SplitAround(p: string, q: string)
    ensures Split(p + [Sep] + q) == Split(p) + Split(q)
    decreases |p|
  {
    if p == [] {
      assert [] + [Sep] + q == [Sep] + q;
      assert ([Sep] + q)[1..] == q;
    } else {
      assert (p + [Sep] + q)[1..] == p[1..] + [Sep] + q;
      SplitAround(p[1..], q);
    }
  }

  /** A string without separators splits into itself. */
  lemma {:induction false} SplitWhole(s: string)
    requires Sep !in s
    ensures Split(s) == [s]
    decreases |s|
  {
    if s != [] {
      assert Sep !in s[1..];
      SplitWhole(s[1..]);
      assert [s[0]] + s[1..] == s;
    }
  }

  /** Splitting a join of separator-free pieces gives the pieces back. */
  lemma {:induction false} SplitJoin(parts: seq<string>)
    requires |parts| >= 1
    requires forall i :: 0 <= i < |parts| ==> Sep !in parts[i]
    ensures Split(Join(parts)) == parts
    decreases |parts|
  {
    if |parts| == 1 {
      SplitWhole(parts[0]);
    } else {
      SplitWhole(parts[0]);
      SplitJoin(parts[1..]);
      SplitAround(parts[0], Join(parts[1..]));
    }
  }

  /** The last piece of a join follows the join of the others and a separator. */
  lemma {:induction false} JoinLast(parts: seq<string>)
    requires |parts| >= 2
    ensures Join(parts) == Join(parts[..|parts| - 1]) + [Sep] + parts[|parts| - 1]
    decreases |parts|
  {
    if |parts| > 2 {
      JoinLast(parts[1..]);
      assert parts[1..][..|parts| - 2] == parts[..|parts| - 1][1..];
    }
  }

  /** The last segment is the longest separator-free suffix: it holds no
      separator, it ends the URL, and it is the whole URL or follows a separator. */
  lemma LastSegmentIsLastComponent(url: string)
    ensures var seg := LastSegment(url);
      Sep !in seg &&
      |seg| <= |url| && url[|url| - |seg|..] == seg &&
      (|seg| == |url| || url[|url| - |seg| - 1] == Sep)
    ensures LastSegment(url) == url <==> Sep !in url
  {
    var parts := Split(url);
    var seg := parts[|parts| - 1];
    JoinSplit(url);
    if |parts| >= 2 {
      JoinLast(parts);
      var head := Join(parts[..|parts| - 1]);
      assert url == head + [Sep] + seg;
      assert url[|url| - |seg|..] == seg;
      assert url[|head|] == Sep;
    }
  }

  /** A URL that ends in a separator has an empty last segment. */
  lemma LastSegmentOfDirectory(url: string)
    requires |url| > 0 && url[|url| - 1] == Sep
    ensures LastSegment(url) == []
  {
    LastSegmentIsLastComponent(url);
  }

  /** `dir` without the one trailing separator it may end in. */
  function DirectoryPart(dir: string): string
  {
    if dir != [] && dir[|dir| - 1] == Sep then dir[..|dir| - 1] else dir
  }

  /** Joining a directory and a separator-free name puts the name in that
      directory: the result's components are the directory's components
      followed by the name, so the result starts with the directory and its
      last segment is the name. */
  lemma PathJoinName(dir: string, name: string)
    requires Sep !in name
    ensures var r := PathJoin(dir, name);
      |dir| <= |r| && r[..|dir|] == dir && LastSegment(r) == name
    ensures dir != [] ==> Split(PathJoin(dir, name)) == Split(DirectoryPart(dir)) + [name]
    ensures dir == [] ==> PathJoin(dir, name) == name
  {
    SplitWhole(name);
    var r := PathJoin(dir, name);
    if |name| > 0 && name[0] == Sep {
      assert false;
    } else if dir == [] {
      assert r == name;
    } else if dir[|dir| - 1] == Sep {
      var p := dir[..|dir| - 1];
      assert r == p + [Sep] + name;
      SplitAround(p, name);
    } else {
      SplitAround(dir, name);
    }
  }

  /** The scratch file of a URL is named after the URL's last segment and,
      under an absolute `cwd`, sits directly in `cwd`: its components are
      those of `cwd` followed by that segment, so it is never empty. */
  lemma ScratchNameShape(cwd: string, url: string)
    ensures var r := ScratchName(cwd, url);
      |cwd| <= |r| && r[..|cwd|] == cwd && LastSegment(r) == LastSegment(url)
    ensures IsAbsolute(cwd) ==>
      Split(ScratchName(cwd, url)) == Split(DirectoryPart(cwd)) + [LastSegment(url)]
    ensures IsAbsolute(cwd) ==> ScratchName(cwd, url) != []
  {
    LastSegmentIsLastComponent(url);
    PathJoinName(cwd, LastSegment(url));
  }

  /** The document name is the URL's last segment followed by ".pdf"; it holds
      no separator, and a URL ending in "/" gives exactly ".pdf". */
  lemma PdfNameShape(url: string)
    ensures var name := PdfName(url);
      Sep !in name && |name| >= |PdfSuffix| && name[|name| - |PdfSuffix|..] == PdfSuffix &&
      name[..|name| - |PdfSuffix|] == LastSegment(url)
    ensures |url| > 0 && url[|url| - 1] == Sep ==> PdfName(url) == PdfSuffix
  {
    LastSegmentIsLastComponent(url);
    var name := PdfName(url);
    assert name[|name| - |PdfSuffix|..] == PdfSuffix;
    if |url| > 0 && url[|url| - 1] == Sep {
      LastSegmentOfDirectory(url);
    }
  }
}
