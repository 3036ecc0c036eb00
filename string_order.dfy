/**
  * Python's ordering of str values. Keys, columns and values are strings; the tree and the
  * slices compare them with `<`, `>`, `<=` and `>=`, which Python defines lexicographically by
  * code point (a proper prefix is smaller). Dafny's own `<` on sequences is the proper-prefix
  * relation, so the ordering is defined here and shown to be a strict total order.
  */
module StringOrder {

  /** Python's `a < b` on str. */
  predicate Less(a: string, b: string)
    decreases |a|
  {
    if |a| == 0 then |b| > 0
    else if |b| == 0 then false
    else if a[0] != b[0] then a[0] < b[0]
    else Less(a[1..], b[1..])
  }

  /** Python's `a <= b` on str. */
  predicate AtMost(a: string, b: string) {
    Less(a, b) || a == b
  }

  lemma {:induction false} Irreflexive(a: string)
    ensures !Less(a, a)
    decreases |a|
  {
    if |a| > 0 {
      Irreflexive(a[1..]);
    }
  }

  lemma {:induction false} Asymmetric(a: string, b: string)
    requires Less(a, b)
    ensures !Less(b, a)
    decreases |a|
  {
    if |a| > 0 && a[0] == b[0] {
      Asymmetric(a[1..], b[1..]);
    }
  }

  lemma {:induction false} Transitive(a: string, b: string, c: string)
    requires Less(a, b) && Less(b, c)
    ensures Less(a, c)
    decreases |a|
  {
    if |a| > 0 && a[0] == b[0] && b[0] == c[0] {
      Transitive(a[1..], b[1..], c[1..]);
    }
  }

  /** Any two strings are equal or ordered one way or the other. */
  lemma {:induction false} Trichotomy(a: string, b: string)
    ensures Less(a, b) || a == b || Less(b, a)
    decreases |a|
  {
    if |a| > 0 && |b| > 0 && a[0] == b[0] {
      Trichotomy(a[1..], b[1..]);
      if a[1..] == b[1..] {
        assert a == [a[0]] + a[1..] && b == [b[0]] + b[1..];
      }
    }
  }

  /** `Less` is a strict total order on strings. */
  lemma StrictTotalOrder()
    ensures forall a :: !Less(a, a)
    ensures forall a, b :: Less(a, b) ==> !Less(b, a)
    ensures forall a, b, c :: Less(a, b) && Less(b, c) ==> Less(a, c)
    ensures forall a, b :: a != b ==> Less(a, b) || Less(b, a)
  {
    forall a { Irreflexive(a); }
    forall a, b | Less(a, b) { Asymmetric(a, b); }
    forall a, b, c | Less(a, b) && Less(b, c) { Transitive(a, b, c); }
    forall a, b { Trichotomy(a, b); }
  }

  /** Python's `a <= b` is the negation of `b < a`. */
  lemma AtMostIsNotLess(a: string, b: string)
    ensures AtMost(a, b) <==> !Less(b, a)
  {
    Trichotomy(a, b);
    Irreflexive(a);
    if Less(a, b) {
      Asymmetric(a, b);
    }
  }
}
