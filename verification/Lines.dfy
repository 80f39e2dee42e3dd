/** Text lines as the relocation code reads them: stripping, blank lines and the
    non-blank neighbours of a block. */
module Lines {
  import opened Wrappers

  /** `str.isspace` for one character. */
  predicate IsSpace(c: char) {
    || '\t' <= c <= '\r' || '\U{1C}' <= c <= ' ' || c == '\U{85}' || c == '\U{A0}'
    || c == '\U{1680}' || '\U{2000}' <= c <= '\U{200A}' || c == '\U{2028}' || c == '\U{2029}'
    || c == '\U{202F}' || c == '\U{205F}' || c == '\U{3000}'
  }

  function StripLeft(s: string): string {
    if s != "" && IsSpace(s[0]) then StripLeft(s[1..]) else s
  }

  function StripRight(s: string): string {
    if s != "" && IsSpace(s[|s| - 1]) then StripRight(s[..|s| - 1]) else s
  }

  /** `str.strip()`. */
  function Strip(s: string): string {
    StripRight(StripLeft(s))
  }

  function StripAll(lines: seq<string>): seq<string> {
    seq(|lines|, i requires 0 <= i < |lines| => Strip(lines[i]))
  }

  /** A line the code skips when it looks for a neighbour: `not line.strip()`. */
  predicate Blank(line: string) {
    Strip(line) == ""
  }

  /** The nearest non-blank line above `lines[start]`; None at the file's edge. */
  function Above(lines: seq<string>, start: nat): Option<string>
    requires start <= |lines|
  {
    if start == 0 then None
    else if !Blank(lines[start - 1]) then Some(lines[start - 1])
    else Above(lines, start - 1)
  }

  /** The nearest non-blank line from `lines[end]` on; None at the file's edge. */
  function Below(lines: seq<string>, end: nat): Option<string>
    requires end <= |lines|
    decreases |lines| - end
  {
    if end == |lines| then None
    else if !Blank(lines[end]) then Some(lines[end])
    else Below(lines, end + 1)
  }

  datatype Context = Context(above: Option<string>, below: Option<string>)

  function Neighbours(lines: seq<string>, start: nat, end: nat): Context
    requires start <= |lines| && end <= |lines|
  {
    Context(Above(lines, start), Below(lines, end))
  }

  /** How many of the pinned neighbours (0, 1 or 2) still flank `current[j..j + n]`. */
  function Agreement(context: Context, current: seq<string>, j: nat, n: nat): (count: nat)
    requires j + n <= |current|
    ensures count <= 2
    ensures count == 2 <==> Neighbours(current, j, j + n) == context
  {
    (if context.above == Above(current, j) then 1 else 0)
    + (if context.below == Below(current, j + n) then 1 else 0)
  }
}
