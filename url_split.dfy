/** The part of `urllib.parse.urlparse` the URL validators look at: the scheme
    (section 3.1 of RFC 3986) and the authority, called netloc (section 3.2). */
module UrlSplit {

  /** A C0 control character or space, stripped from the front of the URL. */
  predicate IsC0OrSpace(c: char) {
    c as int <= 0x20
  }

  /** Tab, carriage return and line feed, removed wherever they occur. */
  predicate IsUnsafe(c: char) {
    c == '\t' || c == '\r' || c == '\n'
  }

  function LStrip(s: string): string {
    if s != [] && IsC0OrSpace(s[0]) then LStrip(s[1..]) else s
  }

  function RemoveUnsafe(s: string): string {
    if s == [] then [] else (if IsUnsafe(s[0]) then [] else [s[0]]) + RemoveUnsafe(s[1..])
  }

  /** The URL as the splitter sees it after its clean-up. */
  function Clean(url: string): string {
    RemoveUnsafe(LStrip(url))
  }

  predicate IsAsciiAlpha(c: char) {
    ('a' <= c <= 'z') || ('A' <= c <= 'Z')
  }

  /** ALPHA / DIGIT / "+" / "-" / "." */
  predicate IsSchemeChar(c: char) {
    IsAsciiAlpha(c) || ('0' <= c <= '9') || c == '+' || c == '-' || c == '.'
  }

  predicate AllSchemeChars(s: string) {
    forall i :: 0 <= i < |s| ==> IsSchemeChar(s[i])
  }

  function LowerChar(c: char): char {
    if 'A' <= c <= 'Z' then (c as int + 32) as char else c
  }

  function Lower(s: string): (r: string)
    ensures |r| == |s| && forall i :: 0 <= i < |s| ==> r[i] == LowerChar(s[i])
  {
    seq(|s|, i requires 0 <= i < |s| => LowerChar(s[i]))
  }

  /** The index of the first `c` in `s`, or `|s|` when there is none. */
  function IndexOf(s: string, c: char): (i: nat)
    ensures i <= |s| && (i < |s| ==> s[i] == c)
    ensures forall k :: 0 <= k < i ==> s[k] != c
  {
    if s == [] then 0 else if s[0] == c then 0 else 1 + IndexOf(s[1..], c)
  }

  /** `/`, `?` and `#` end the authority. */
  predicate EndsAuthority(c: char) {
    c == '/' || c == '?' || c == '#'
  }

  /** The length of the authority at the front of `s`. */
  function AuthorityLength(s: string): (n: nat)
    ensures n <= |s|
    ensures n < |s| ==> EndsAuthority(s[n])
    ensures n == 0 <==> s == [] || EndsAuthority(s[0])
  {
    if s == [] || EndsAuthority(s[0]) then 0 else 1 + AuthorityLength(s[1..])
  }

  datatype Parts = Parts(scheme: string, netloc: string, rest: string)

  /** Scheme and netloc of a cleaned URL `u`: the scheme is the text before the
      first `:` when it starts with a letter and is made of scheme characters
      (then lower-cased); the netloc follows a `//` and runs to the first `/`,
      `?` or `#`. */
  function SplitText(u: string): Parts {
    var i := IndexOf(u, ':');
    var hasScheme := 0 < i < |u| && IsAsciiAlpha(u[0]) && AllSchemeChars(u[..i]);
    var scheme := if hasScheme then Lower(u[..i]) else "";
    var after := if hasScheme then u[i + 1..] else u;
    if |after| >= 2 && after[..2] == "//" then
      var n := AuthorityLength(after[2..]);
      Parts(scheme, after[2..2 + n], after[2 + n..])
    else Parts(scheme, "", after)
  }

  /** `urlsplit(url)`, as far as scheme and netloc. */
  function Split(url: string): Parts {
    SplitText(Clean(url))
  }

  /** The acceptance rule of both URL validators: an `http` or `https` scheme
      and a non-empty netloc. */
  predicate IsHttpWithAuthority(url: string) {
    var p := Split(url);
    (p.scheme == "http" || p.scheme == "https") && p.netloc != ""
  }

  /** The same rule read off the text: after the clean-up the URL starts, in
      any letter case, with `http://` or `https://`, and the next character
      exists and is not `/`, `?` or `#`. */
  predicate StartsWithHttpAuthority(u: string) {
    || (|u| > 7 && Lower(u[..4]) == "http" && u[4..7] == "://" && !EndsAuthority(u[7]))
    || (|u| > 8 && Lower(u[..5]) == "https" && u[5..8] == "://" && !EndsAuthority(u[8]))
  }

  lemma LowerHttpIsSchemeText(x: string, n: nat)
    requires n <= |x| && (Lower(x[..n]) == "http" || Lower(x[..n]) == "https")
    ensures n > 0 && IsAsciiAlpha(x[0]) && AllSchemeChars(x[..n])
    ensures forall k :: 0 <= k < n ==> x[k] != ':'
  {
    var l := Lower(x[..n]);
    forall k | 0 <= k < n
      ensures IsAsciiAlpha(x[k])
    {
      assert l[k] == LowerChar(x[k]);
    }
  }

  /** A non-empty netloc after `//` means the character after `//` is not a delimiter. */
  lemma NetlocStart(after: string)
    requires |after| >= 2 && after[..2] == "//"
    ensures AuthorityLength(after[2..]) > 0 <==> |after| > 2 && !EndsAuthority(after[2])
  {
  }

  lemma {:induction false} HttpRuleForward(u: string)
    requires var p := SplitText(u); (p.scheme == "http" || p.scheme == "https") && p.netloc != ""
    ensures StartsWithHttpAuthority(u)
  {
    var i := IndexOf(u, ':');
    assert 0 < i < |u| && IsAsciiAlpha(u[0]) && AllSchemeChars(u[..i]);
    var after := u[i + 1..];
    assert |after| >= 2 && after[..2] == "//";
    NetlocStart(after);
    assert u[i] == ':' && u[i + 1] == '/' && u[i + 2] == '/';
    assert !EndsAuthority(u[i + 3]);
    assert |Lower(u[..i])| == i;
    if i == 4 {
      assert u[4..7] == "://";
    } else {
      assert i == 5;
      assert u[5..8] == "://";
    }
  }

  lemma {:induction false} HttpRuleBackward(u: string, n: nat)
    requires n + 3 < |u| && (Lower(u[..n]) == "http" || Lower(u[..n]) == "https")
    requires u[n..n + 3] == "://" && !EndsAuthority(u[n + 3])
    ensures var p := SplitText(u); (p.scheme == "http" || p.scheme == "https") && p.netloc != ""
  {
    LowerHttpIsSchemeText(u, n);
    assert u[n] == ':';
    assert IndexOf(u, ':') == n;
    var after := u[n + 1..];
    assert after[..2] == u[n..n + 3][1..];
    NetlocStart(after);
  }

  /** The rule the validators apply, restated on the text of the URL. */
  lemma HttpRuleOnText(url: string)
    ensures IsHttpWithAuthority(url) <==> StartsWithHttpAuthority(Clean(url))
  {
    var u := Clean(url);
    if IsHttpWithAuthority(url) {
      HttpRuleForward(u);
    }
    if StartsWithHttpAuthority(u) {
      if |u| > 7 && Lower(u[..4]) == "http" && u[4..7] == "://" && !EndsAuthority(u[7]) {
        HttpRuleBackward(u, 4);
      } else {
        HttpRuleBackward(u, 5);
      }
    }
  }
}
