/** The filesystem as the image pipeline sees it: a map from path to file contents. */
module Storage {

  type Bytes = seq<bv8>

  type Files = map<string, Bytes>

  /** `p` holds the same file (or is absent) before and after. */
  predicate Unchanged(before: Files, after: Files, p: string) {
    (p in before <==> p in after) && (p in before ==> before[p] == after[p])
  }
}
