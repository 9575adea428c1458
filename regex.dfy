/** Regular-expression search, taken as given. */
module Regex {
  import opened Wrappers

  /** `re.search(pattern, text)` followed by `.group(1)`: the first capture group
      of the leftmost match of `pattern` in `text`, or `None` when there is no
      match, under the flags of the call site (case-insensitive for intents,
      case-insensitive and multi-line for document fields). Both rule tables
      use it only through this shape. */
  type Matcher = (string, string) -> Option<string>
}
