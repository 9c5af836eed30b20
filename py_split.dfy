/** Python's `str.split()` with no separator: maximal runs of non-whitespace
    characters, whitespace being what `str.isspace` accepts. */
module PySplit {

  /** `str.isspace` for one character: the ASCII separators and controls
      U+0009..U+000D and U+001C..U+0020, and the Unicode spaces U+0085, U+00A0,
      U+1680, U+2000..U+200A, U+2028, U+2029, U+202F, U+205F and U+3000. */
  predicate IsSpace(c: char) {
    var n := c as int;
    || 0x09 <= n <= 0x0D
    || 0x1C <= n <= 0x20
    || n == 0x85 || n == 0xA0 || n == 0x1680
    || 0x2000 <= n <= 0x200A
    || n == 0x2028 || n == 0x2029 || n == 0x202F || n == 0x205F || n == 0x3000
  }

  predicate NoSpace(s: string) {
    forall i :: 0 <= i < |s| ==> !IsSpace(s[i])
  }

  /** `s` without its leading whitespace. */
  function DropSpaces(s: string): (r: string)
    ensures |r| <= |s| && s[|s| - |r|..] == r
    ensures r == [] || !IsSpace(r[0])
  {
    if s != [] && IsSpace(s[0]) then DropSpaces(s[1..]) else s
  }

  /** The length of the run of non-whitespace characters `s` starts with. */
  function WordLength(s: string): (n: nat)
    ensures n <= |s| && NoSpace(s[..n])
    ensures n < |s| ==> IsSpace(s[n])
    ensures s != [] && !IsSpace(s[0]) ==> n >= 1
  {
    if s != [] && !IsSpace(s[0]) then 1 + WordLength(s[1..]) else 0
  }

  /** `s.split()`: every token is non-empty and holds no whitespace. */
  function Split(s: string): (tokens: seq<string>)
    ensures forall k :: 0 <= k < |tokens| ==> tokens[k] != [] && NoSpace(tokens[k])
    decreases |s|
  {
    var t := DropSpaces(s);
    if t == [] then []
    else
      var n := WordLength(t);
      [t[..n]] + Split(t[n..])
  }

  // ------------------------------------------------ an independent count

  /** The number of positions where a non-whitespace character follows
      whitespace or the start of the string (`afterSpace` says which side of
      such a boundary the scan stands on). */
  function WordStarts(s: string, afterSpace: bool): nat {
    if s == [] then 0
    else (if afterSpace && !IsSpace(s[0]) then 1 else 0) + WordStarts(s[1..], IsSpace(s[0]))
  }

  lemma {:induction false} WordStartsDropSpaces(s: string)
    ensures WordStarts(s, true) == WordStarts(DropSpaces(s), true)
  {
    if s != [] && IsSpace(s[0]) {
      WordStartsDropSpaces(s[1..]);
    }
  }

  lemma {:induction false} WordStartsInsideWord(u: string)
    ensures WordStarts(u, false) == WordStarts(u[WordLength(u)..], true)
  {
    if u != [] && !IsSpace(u[0]) {
      WordStartsInsideWord(u[1..]);
      assert u[WordLength(u)..] == u[1..][WordLength(u[1..])..];
    }
  }

  /** The number of tokens `split()` yields is the number of word starts. */
  lemma {:induction false} SplitCountsWordStarts(s: string)
    ensures |Split(s)| == WordStarts(s, true)
    decreases |s|
  {
    var t := DropSpaces(s);
    WordStartsDropSpaces(s);
    if t != [] {
      var n := WordLength(t);
      WordStartsInsideWord(t[1..]);
      assert t[n..] == t[1..][WordLength(t[1..])..];
      SplitCountsWordStarts(t[n..]);
    }
  }

  // ------------------------------------------------ nothing else is lost

  /** The non-whitespace characters of `s`, in order. */
  function NonSpace(s: string): string {
    if s == [] then [] else (if IsSpace(s[0]) then [] else [s[0]]) + NonSpace(s[1..])
  }

  function Concat(tokens: seq<string>): string {
    if tokens == [] then [] else tokens[0] + Concat(tokens[1..])
  }

  lemma {:induction false} NonSpaceDropSpaces(s: string)
    ensures NonSpace(s) == NonSpace(DropSpaces(s))
  {
    if s != [] && IsSpace(s[0]) {
      NonSpaceDropSpaces(s[1..]);
    }
  }

  lemma {:induction false} NonSpaceWord(t: string)
    ensures NonSpace(t) == t[..WordLength(t)] + NonSpace(t[WordLength(t)..])
  {
    if t != [] && !IsSpace(t[0]) {
      NonSpaceWord(t[1..]);
      assert t[..WordLength(t)] == [t[0]] + t[1..][..WordLength(t[1..])];
      assert t[WordLength(t)..] == t[1..][WordLength(t[1..])..];
    }
  }

  /** Joining the tokens gives back every non-whitespace character of `s`. */
  lemma {:induction false} SplitKeepsNonSpace(s: string)
    ensures Concat(Split(s)) == NonSpace(s)
    decreases |s|
  {
    var t := DropSpaces(s);
    NonSpaceDropSpaces(s);
    if t != [] {
      var n := WordLength(t);
      NonSpaceWord(t);
      SplitKeepsNonSpace(t[n..]);
      assert Split(s)[1..] == Split(t[n..]);
    }
  }
}
