/** Python's `<` on `str`: lexicographic comparison by code point, where a proper prefix is
    smaller. (Dafny's own `<` on sequences means "proper prefix", so it is written out here.) */
module Ordinal {

  predicate Less(a: string, b: string): (r: bool)
    ensures r ==> a != b
    ensures |a| < |b| && a == b[..|a|] ==> r
  {
    if |a| == 0 then |b| > 0
    else if |b| == 0 then false
    else if a[0] != b[0] then a[0] < b[0]
    else Less(a[1..], b[1..])
  }

  /** The textbook characterisation: `a` is a proper prefix of `b`, or the two first differ at
      some index `k` where `a` has the smaller character. */
  ghost predicate DiffersBelow(a: string, b: string) {
    || (|a| < |b| && a == b[..|a|])
    || exists k :: 0 <= k < |a| && k < |b| && a[..k] == b[..k] && a[k] < b[k]
  }

  lemma {:induction false} LessDiffersBelow(a: string, b: string)
    requires Less(a, b)
    ensures DiffersBelow(a, b)
    decreases |a|
  {
    if |a| == 0 {
      assert a == b[..0];
    } else if a[0] != b[0] {
      assert a[..0] == b[..0];
    } else {
      var a', b' := a[1..], b[1..];
      LessDiffersBelow(a', b');
      if |a'| < |b'| && a' == b'[..|a'|] {
        assert a == [a[0]] + a' && b[..|a|] == [b[0]] + b'[..|a'|];
      } else {
        var k :| 0 <= k < |a'| && k < |b'| && a'[..k] == b'[..k] && a'[k] < b'[k];
        assert a[..k + 1] == [a[0]] + a'[..k];
        assert b[..k + 1] == [b[0]] + b'[..k];
        assert a[k + 1] < b[k + 1];
      }
    }
  }

  lemma {:induction false} DiffersBelowLess(a: string, b: string)
    requires DiffersBelow(a, b)
    ensures Less(a, b)
    decreases |a|
  {
    if |a| == 0 {
    } else if |a| < |b| && a == b[..|a|] {
      assert a[0] == b[0];
      var a', b' := a[1..], b[1..];
      assert a' == b'[..|a'|];
      DiffersBelowLess(a', b');
    } else {
      var k :| 0 <= k < |a| && k < |b| && a[..k] == b[..k] && a[k] < b[k];
      if k > 0 {
        assert a[0] == a[..k][0] == b[..k][0] == b[0];
        var a', b' := a[1..], b[1..];
        assert a'[..k - 1] == a[..k][1..] == b[..k][1..] == b'[..k - 1];
        assert a'[k - 1] < b'[k - 1];
        DiffersBelowLess(a', b');
      }
    }
  }

  lemma LessIffDiffersBelow(a: string, b: string)
    ensures Less(a, b) <==> DiffersBelow(a, b)
  {
    if Less(a, b) {
      LessDiffersBelow(a, b);
    }
    if DiffersBelow(a, b) {
      DiffersBelowLess(a, b);
    }
  }

  lemma {:induction false} Irreflexive(a: string)
    ensures !Less(a, a)
    decreases |a|
  {
    if |a| > 0 {
      Irreflexive(a[1..]);
    }
  }

  lemma {:induction false} Asymmetric(a: string, b: string)
    ensures Less(a, b) ==> !Less(b, a)
    decreases |a|
  {
    if |a| > 0 && |b| > 0 && a[0] == b[0] {
      Asymmetric(a[1..], b[1..]);
    }
  }

  /** Any two distinct strings are ordered one way or the other. */
  lemma {:induction false} Connected(a: string, b: string)
    ensures a != b ==> Less(a, b) || Less(b, a)
    decreases |a|
  {
    if |a| > 0 && |b| > 0 && a[0] == b[0] {
      Connected(a[1..], b[1..]);
      if a[1..] == b[1..] {
        assert a == [a[0]] + a[1..] && b == [b[0]] + b[1..];
      }
    }
  }

  lemma {:induction false} Transitive(a: string, b: string, c: string)
    requires Less(a, b) && Less(b, c)
    ensures Less(a, c)
    decreases |a|
  {
    if |a| > 0 && a[0] == b[0] && b[0] == c[0] {
      Transitive(a[1..], b[1..], c[1..]);
    }
  }
}
