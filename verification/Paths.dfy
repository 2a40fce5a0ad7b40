/** Slash-separated paths as byte strings, shared by the two filesystems. */
module Paths {
  import opened Bytes

  const SLASH: byte := 0x2F
  const DOT: byte := 0x2E

  /** `trim_end_matches('/')` */
  function TrimEnd(path: seq<byte>): (r: seq<byte>)
    ensures |r| <= |path| && r == path[..|r|]
    ensures r == [] || r[|r| - 1] != SLASH
    ensures forall i :: |r| <= i < |path| ==> path[i] == SLASH
  {
    if |path| == 0 || path[|path| - 1] != SLASH then path else TrimEnd(path[..|path| - 1])
  }

  /** `rfind('/')`: position of the last slash, or -1. */
  function LastSlash(path: seq<byte>): (r: int)
    ensures -1 <= r < |path|
    ensures r >= 0 ==> path[r] == SLASH
    ensures forall i :: r < i < |path| ==> path[i] != SLASH
  {
    if |path| == 0 then -1
    else if path[|path| - 1] == SLASH then |path| - 1
    else LastSlash(path[..|path| - 1])
  }
}
