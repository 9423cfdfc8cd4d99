/** String.prototype.trim, for the ASCII white space. */
module Text {
  predicate IsSpace(c: char) { c == ' ' || c == '\t' || c == '\n' || c == '\r' }

  function TrimStart(s: string): (t: string)
    ensures |t| <= |s|
    decreases |s|
  {
    if s != "" && IsSpace(s[0]) then TrimStart(s[1..]) else s
  }

  function TrimEnd(s: string): (t: string)
    ensures |t| <= |s|
    decreases |s|
  {
    if s != "" && IsSpace(s[|s| - 1]) then TrimEnd(s[..|s| - 1]) else s
  }

  function Trim(s: string): string { TrimEnd(TrimStart(s)) }
}
