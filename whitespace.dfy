/** Python's `str.split()` with no arguments, as `list_commits` applies it to the
    output of `git rev-list --all`: runs of whitespace separate tokens, leading and
    trailing whitespace are ignored, and no token is empty. */
module Whitespace {

  /** The characters Python's `str.isspace()` accepts (and so the separators of
      `str.split()`): the Unicode characters of category Zs or of bidirectional
      class WS, B or S. */
  predicate IsSpace(c: char) {
    var n := c as int;
    (9 <= n <= 13) || (28 <= n <= 32) || n == 0x85 || n == 0xA0 || n == 0x1680 ||
    (0x2000 <= n <= 0x200A) || n == 0x2028 || n == 0x2029 || n == 0x202F ||
    n == 0x205F || n == 0x3000
  }

  predicate NoSpace(s: string) {
    forall i :: 0 <= i < |s| ==> !IsSpace(s[i])
  }

  predicate AllSpace(s: string) {
    forall i :: 0 <= i < |s| ==> IsSpace(s[i])
  }

  /** A token as `str.split()` produces it. */
  predicate IsToken(w: string) {
    |w| > 0 && NoSpace(w)
  }

  /** `s` without its leading whitespace. */
  function SkipSpace(s: string): (r: string)
    ensures |r| <= |s|
  {
    if s != [] && IsSpace(s[0]) then SkipSpace(s[1..]) else s
  }

  /** The longest prefix of `s` that holds no whitespace. */
  function Word(s: string): (w: string)
    ensures |w| <= |s|
    ensures s != [] && !IsSpace(s[0]) ==> |w| > 0
  {
    if s == [] || IsSpace(s[0]) then [] else [s[0]] + Word(s[1..])
  }

  /** `SkipSpace` drops a whitespace prefix and stops at the first other
      character. */
  lemma {:induction false} SkipSpaceShape(s: string)
    ensures SkipSpace(s) == s[|s| - |SkipSpace(s)|..]
    ensures AllSpace(s[..|s| - |SkipSpace(s)|])
    ensures SkipSpace(s) == [] || !IsSpace(SkipSpace(s)[0])
  {
    if s != [] && IsSpace(s[0]) {
      SkipSpaceShape(s[1..]);
      var r := SkipSpace(s);
      assert s[..|s| - |r|] == [s[0]] + s[1..][..|s| - 1 - |r|];
    }
  }

  /** `Word` is a whitespace-free prefix that ends at whitespace or at the end. */
  lemma {:induction false} WordShape(s: string)
    ensures Word(s) == s[..|Word(s)|]
    ensures NoSpace(Word(s))
    ensures |Word(s)| < |s| ==> IsSpace(s[|Word(s)|])
  {
    if s != [] && !IsSpace(s[0]) {
      WordShape(s[1..]);
    }
  }

  /** `s.split()`. */
  function Split(s: string): seq<string>
    decreases |s|
  {
    var t := SkipSpace(s);
    if t == [] then []
    else
      var w := Word(t);
      [w] + Split(t[|w|..])
  }

  /** Every token is non-empty and holds no whitespace. */
  lemma {:induction false} SplitTokens(s: string)
    ensures forall i :: 0 <= i < |Split(s)| ==> IsToken(Split(s)[i])
    decreases |s|
  {
    var t := SkipSpace(s);
    if t != [] {
      SkipSpaceShape(s);
      var w := Word(t);
      WordShape(t);
      var tail := Split(t[|w|..]);
      SplitTokens(t[|w|..]);
      assert Split(s) == [w] + tail;
      forall i | 0 <= i < |[w] + tail| ensures IsToken(([w] + tail)[i]) {
        if i > 0 { assert ([w] + tail)[i] == tail[i - 1]; }
      }
    }
  }

  /** The concatenation of a list of strings. */
  function Concat(ws: seq<string>): string {
    if ws == [] then [] else ws[0] + Concat(ws[1..])
  }

  /** `s` with every whitespace character removed. */
  function RemoveSpace(s: string): (r: string)
    ensures NoSpace(r)
  {
    if s == [] then []
    else if IsSpace(s[0]) then RemoveSpace(s[1..])
    else [s[0]] + RemoveSpace(s[1..])
  }

  /** `sep.join(ws)`. */
  function Join(ws: seq<string>, sep: string): string {
    if ws == [] then []
    else if |ws| == 1 then ws[0]
    else ws[0] + sep + Join(ws[1..], sep)
  }

  /** Every string followed by `sep`: the shape of `git rev-list`'s output,
      one revision per line, each line ended by a newline. */
  function Terminated(ws: seq<string>, sep: string): string {
    if ws == [] then [] else ws[0] + sep + Terminated(ws[1..], sep)
  }

  lemma {:induction false} RemoveSpaceAppend(a: string, b: string)
    ensures RemoveSpace(a + b) == RemoveSpace(a) + RemoveSpace(b)
  {
    if a == [] {
      assert a + b == b;
    } else {
      assert (a + b)[1..] == a[1..] + b;
      RemoveSpaceAppend(a[1..], b);
    }
  }

  lemma {:induction false} RemoveSpaceOfSpace(s: string)
    requires AllSpace(s)
    ensures RemoveSpace(s) == []
  {
    if s != [] {
      RemoveSpaceOfSpace(s[1..]);
    }
  }

  lemma {:induction false} RemoveSpaceOfWord(s: string)
    requires NoSpace(s)
    ensures RemoveSpace(s) == s
  {
    if s != [] {
      RemoveSpaceOfWord(s[1..]);
    }
  }

  /** Leading whitespace contributes nothing to `RemoveSpace`. */
  lemma RemoveSpaceSkip(s: string)
    ensures RemoveSpace(s) == RemoveSpace(SkipSpace(s))
  {
    var t := SkipSpace(s);
    SkipSpaceShape(s);
    var lead := s[..|s| - |t|];
    assert s == lead + t;
    RemoveSpaceAppend(lead, t);
    RemoveSpaceOfSpace(lead);
  }

  /** A leading word is kept whole by `RemoveSpace`. */
  lemma RemoveSpaceWord(t: string)
    ensures RemoveSpace(t) == Word(t) + RemoveSpace(t[|Word(t)|..])
  {
    var w := Word(t);
    WordShape(t);
    var rest := t[|w|..];
    assert t == w + rest;
    RemoveSpaceAppend(w, rest);
    RemoveSpaceOfWord(w);
  }

  lemma ConcatCons(w: string, ws: seq<string>)
    ensures Concat([w] + ws) == w + Concat(ws)
  {
    assert ([w] + ws)[1..] == ws;
  }

  /** Splitting loses nothing but whitespace: the tokens, concatenated, are the
      input's non-whitespace characters in their original order. */
  lemma {:induction false} SplitKeepsNonSpace(s: string)
    ensures Concat(Split(s)) == RemoveSpace(s)
    decreases |s|
  {
    var t := SkipSpace(s);
    RemoveSpaceSkip(s);
    if t != [] {
      var w := Word(t);
      var rest := t[|w|..];
      RemoveSpaceWord(t);
      SplitKeepsNonSpace(rest);
      assert Split(s) == [w] + Split(rest);
      ConcatCons(w, Split(rest));
    }
  }

  lemma {:induction false} SkipSpaceOfLeading(sep: string, s: string)
    requires AllSpace(sep)
    ensures SkipSpace(sep + s) == SkipSpace(s)
  {
    if sep != [] {
      assert (sep + s)[1..] == sep[1..] + s;
      SkipSpaceOfLeading(sep[1..], s);
    } else {
      assert sep + s == s;
    }
  }

  lemma {:induction false} WordOfToken(w: string, rest: string)
    requires NoSpace(w)
    requires rest == [] || IsSpace(rest[0])
    ensures Word(w + rest) == w
  {
    if w == [] {
      assert w + rest == rest;
    } else {
      assert (w + rest)[0] == w[0];
      assert (w + rest)[1..] == w[1..] + rest;
      WordOfToken(w[1..], rest);
    }
  }

  /** Leading whitespace does not change the tokens. */
  lemma SplitLeadingSpace(sep: string, s: string)
    requires AllSpace(sep)
    ensures Split(sep + s) == Split(s)
  {
    SkipSpaceOfLeading(sep, s);
  }

  /** A token followed by whitespace contributes exactly itself. */
  lemma SplitToken(w: string, sep: string, rest: string)
    requires IsToken(w)
    requires |sep| > 0 && AllSpace(sep)
    ensures Split(w + sep + rest) == [w] + Split(rest)
  {
    var s := w + sep + rest;
    assert s == w + (sep + rest);
    assert SkipSpace(s) == s;
    WordOfToken(w, sep + rest);
    assert s[|w|..] == sep + rest;
    SplitLeadingSpace(sep, rest);
  }

  /** A lone token splits into itself. */
  lemma SplitSingle(w: string)
    requires IsToken(w)
    ensures Split(w) == [w]
  {
    assert SkipSpace(w) == w;
    WordOfToken(w, []);
    assert w + [] == w;
    assert w[|w|..] == [];
  }

  /** Round trip: joining tokens with any non-empty run of whitespace and
      splitting again gives back exactly those tokens, in order. */
  lemma {:induction false} SplitJoin(ws: seq<string>, sep: string)
    requires forall i :: 0 <= i < |ws| ==> IsToken(ws[i])
    requires |sep| > 0 && AllSpace(sep)
    ensures Split(Join(ws, sep)) == ws
  {
    if |ws| == 1 {
      SplitSingle(ws[0]);
    } else if |ws| > 1 {
      var tail := ws[1..];
      assert Join(ws, sep) == ws[0] + sep + Join(tail, sep);
      SplitToken(ws[0], sep, Join(tail, sep));
      SplitJoin(tail, sep);
      assert ws == [ws[0]] + tail;
    }
  }

  /** Round trip for `git rev-list`'s output shape: tokens each followed by a
      non-empty run of whitespace split back into exactly those tokens. */
  lemma {:induction false} SplitTerminated(ws: seq<string>, sep: string)
    requires forall i :: 0 <= i < |ws| ==> IsToken(ws[i])
    requires |sep| > 0 && AllSpace(sep)
    ensures Split(Terminated(ws, sep)) == ws
  {
    if ws != [] {
      var tail := ws[1..];
      SplitToken(ws[0], sep, Terminated(tail, sep));
      SplitTerminated(tail, sep);
      assert ws == [ws[0]] + tail;
    }
  }
}
