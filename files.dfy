/** The file system the downloader reads and writes, as a map from path to content. */
module Files {
  type Bytes = seq<bv8>

  /** A file is either raw downloaded bytes or a saved multi-page document. */
  datatype Content = Raw(bytes: Bytes) | Pdf(pages: seq<Bytes>)

  type FileMap = map<string, Content>

  /** No path occurs twice. */
  predicate Distinct(paths: seq<string>)
  {
    forall i, j :: 0 <= i < j < |paths| ==> paths[i] != paths[j]
  }
}
