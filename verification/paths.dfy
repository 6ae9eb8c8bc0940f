/** POSIX `os.path.join` of two path components, as the downloader uses it. */
module Paths {

  const Sep: char := '/'

  predicate IsAbsolute(p: string)
  {
    |p| > 0 && p[0] == Sep
  }

  /** `os.path.join(a, b)`: an absolute `b` replaces `a`; otherwise `b` is appended to `a`,
      with a separator unless `a` is empty or already ends in one. */
  function JoinPath(a: string, b: string): (r: string)
    ensures |r| >= |b| && r[|r| - |b|..] == b
    ensures !IsAbsolute(b) ==> |r| >= |a| && r[..|a|] == a
    ensures IsAbsolute(b) ==> r == b
  {
    if IsAbsolute(b) then b
    else if |a| == 0 || a[|a| - 1] == Sep then a + b
    else a + [Sep] + b
  }

  /** Appending a suffix after joining is the same as joining the extended last component,
      unless the last component is empty and the suffix would make it absolute. */
  lemma JoinThenAppend(a: string, b: string, s: string)
    requires |b| > 0 || !IsAbsolute(s)
    ensures JoinPath(a, b) + s == JoinPath(a, b + s)
  {
  }

  /** Joining onto the same directory is injective on components that are both absolute or
      both relative. */
  lemma JoinPathInjective(a: string, b1: string, b2: string)
    requires IsAbsolute(b1) <==> IsAbsolute(b2)
    ensures JoinPath(a, b1) == JoinPath(a, b2) <==> b1 == b2
  {
  }

  /** Extending a component with either of two suffixes that both start with the same
      non-separator character does not change whether it is absolute. */
  lemma AppendKeepsAbsolute(y: string, s1: string, s2: string)
    requires |s1| > 0 && |s2| > 0 && s1[0] == s2[0] && s1[0] != Sep
    ensures IsAbsolute(y + s1) <==> IsAbsolute(y + s2)
  {
  }
}
