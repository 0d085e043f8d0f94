/** `os.path.join` with two arguments, as POSIX Python defines it; paths are
    otherwise opaque strings. */
module Paths {

  predicate IsAbsolute(p: string) {
    |p| > 0 && p[0] == '/'
  }

  predicate EndsWithSep(p: string) {
    |p| > 0 && p[|p| - 1] == '/'
  }

  /** `os.path.join(a, b)`. */
  function PathJoin(a: string, b: string): string {
    if IsAbsolute(b) then b
    else if a == [] || EndsWithSep(a) then a + b
    else a + "/" + b
  }

  /** An absolute `b` replaces `a`; a relative `b` is placed inside `a`: the
      result starts with `a`, ends with `b`, and has a `/` where `a` ends (its
      own last character, or one inserted), unless `a` is empty. */
  lemma PathJoinShape(a: string, b: string)
    ensures IsAbsolute(b) ==> PathJoin(a, b) == b
    ensures |b| <= |PathJoin(a, b)| && PathJoin(a, b)[|PathJoin(a, b)| - |b|..] == b
    ensures !IsAbsolute(b) ==>
      |a| <= |PathJoin(a, b)| <= |a| + 1 + |b| && PathJoin(a, b)[..|a|] == a
    ensures !IsAbsolute(b) && a != [] ==>
      EndsWithSep(a) || (|a| < |PathJoin(a, b)| && PathJoin(a, b)[|a|] == '/')
  {
  }
}
