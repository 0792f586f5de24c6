/** The parts of a WHATWG `URL` object that the extension reads. Parsing
    itself is not modelled: callers pass the parts, or `None` where
    `new URL(...)` throws. */
module Url {
  import opened Strings

  datatype UrlParts = UrlParts(origin: string, pathname: string, search: string)

  /** `pathname.substring(0, pathname.lastIndexOf('/') + 1)`: everything up
      to and including the last `/`, or nothing when there is no `/`. */
  function Directory(pathname: string): (d: string)
    ensures StartsWith(pathname, d)
    ensures d == [] || d[|d| - 1] == '/'
    ensures '/' !in pathname[|d|..]
  {
    var k := LastIndexOf(pathname, '/');
    pathname[..k + 1]
  }
}
