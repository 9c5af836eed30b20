/** The order in which a string-backed column sorts: code point by code point,
    a proper prefix first (the BINARY collation of the storage engine). */
module Lexical {

  /** `a` sorts strictly before `b`. */
  predicate Less(a: string, b: string)
    decreases |a|
  {
    if a == [] then b != []
    else if b == [] then false
    else a[0] < b[0] || (a[0] == b[0] && Less(a[1..], b[1..]))
  }

  lemma {:induction false} LessIrreflexive(a: string)
    ensures !Less(a, a)
    decreases |a|
  {
    if a != [] {
      LessIrreflexive(a[1..]);
    }
  }

  lemma {:induction false} LessAsymmetric(a: string, b: string)
    ensures Less(a, b) ==> !Less(b, a)
    decreases |a|
  {
    if a != [] && b != [] && a[0] == b[0] {
      LessAsymmetric(a[1..], b[1..]);
    }
  }

  lemma {:induction false} LessTransitive(a: string, b: string, c: string)
    requires Less(a, b) && Less(b, c)
    ensures Less(a, c)
    decreases |a|
  {
    if a != [] && a[0] == b[0] && b[0] == c[0] {
      LessTransitive(a[1..], b[1..], c[1..]);
    }
  }

  lemma {:induction false} LessTotal(a: string, b: string)
    ensures a == b || Less(a, b) || Less(b, a)
    decreases |a|
  {
    if a != [] && b != [] && a[0] == b[0] {
      LessTotal(a[1..], b[1..]);
      if a[1..] == b[1..] {
        assert a == [a[0]] + a[1..] && b == [b[0]] + b[1..];
      }
    }
  }

  /** "Not before" is transitive as well. */
  lemma NotLessTransitive(a: string, b: string, c: string)
    requires !Less(a, b) && !Less(b, c)
    ensures !Less(a, c)
  {
    LessTotal(a, b);
    LessTotal(b, c);
    if a != b && b != c {
      LessTransitive(c, b, a);
      LessAsymmetric(c, a);
    }
  }

  /** Two strings that start with the same text compare as what follows it. */
  lemma {:induction false} LessSamePrefix(p: string, q: string, r: string)
    ensures Less(p + q, p + r) <==> Less(q, r)
    decreases |p|
  {
    if p != [] {
      assert (p + q)[1..] == p[1..] + q;
      assert (p + r)[1..] == p[1..] + r;
      LessSamePrefix(p[1..], q, r);
    } else {
      assert p + q == q && p + r == r;
    }
  }

  /** A strictly smaller head of the same length decides, whatever follows. */
  lemma {:induction false} LessHeadDecides(p: string, q: string, p': string, q': string)
    requires |p| == |p'| && Less(p, p')
    ensures Less(p + q, p' + q')
    decreases |p|
  {
    if p[0] == p'[0] {
      assert (p + q)[1..] == p[1..] + q;
      assert (p' + q')[1..] == p'[1..] + q';
      LessHeadDecides(p[1..], q, p'[1..], q');
    }
  }
}
