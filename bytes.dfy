/** Byte strings and the byte-lexicographic order in which the engine keeps its keys. */
module ByteOrder {

  /** An unsigned byte: keys are compared character by character as unsigned chars. */
  type Byte = b: int | 0 <= b < 256

  /** A key or a value: an arbitrary byte string. */
  type Bytes = seq<Byte>

  /** `a < b` on byte strings: a proper prefix comes first, otherwise the first differing byte decides. */
  predicate Less(a: Bytes, b: Bytes)
    decreases |a|
  {
    |b| > 0 && (|a| == 0 || a[0] < b[0] || (a[0] == b[0] && Less(a[1..], b[1..])))
  }

  /** The textbook definition of lexicographic order, stated independently of `Less`. */
  ghost predicate LexLess(a: Bytes, b: Bytes) {
    (|a| < |b| && a == b[..|a|])
    || exists i :: 0 <= i < |a| && i < |b| && a[..i] == b[..i] && a[i] < b[i]
  }

  lemma {:induction false} LessIrreflexive(a: Bytes)
    ensures !Less(a, a)
  {
    if |a| > 0 {
      LessIrreflexive(a[1..]);
    }
  }

  lemma {:induction false} LessAsymmetric(a: Bytes, b: Bytes)
    requires Less(a, b)
    ensures !Less(b, a)
  {
    if |a| > 0 && a[0] == b[0] {
      LessAsymmetric(a[1..], b[1..]);
    }
  }

  lemma {:induction false} LessTransitive(a: Bytes, b: Bytes, c: Bytes)
    requires Less(a, b) && Less(b, c)
    ensures Less(a, c)
  {
    if |a| > 0 && a[0] == b[0] && b[0] == c[0] {
      LessTransitive(a[1..], b[1..], c[1..]);
    }
  }

  lemma {:induction false} LessTotal(a: Bytes, b: Bytes)
    requires a != b
    ensures Less(a, b) || Less(b, a)
  {
    if |a| > 0 && |b| > 0 && a[0] == b[0] {
      assert a == [a[0]] + a[1..] && b == [b[0]] + b[1..];
      LessTotal(a[1..], b[1..]);
    }
  }

  lemma {:induction false} LessImpliesLexLess(a: Bytes, b: Bytes)
    requires Less(a, b)
    ensures LexLess(a, b)
  {
    if |a| == 0 {
      assert a == b[..0];
    } else if a[0] < b[0] {
      assert a[..0] == b[..0];
    } else {
      var a', b' := a[1..], b[1..];
      LessImpliesLexLess(a', b');
      if |a'| < |b'| && a' == b'[..|a'|] {
        assert a == [a[0]] + a' && b[..|a|] == [b[0]] + b'[..|a'|];
      } else {
        var i :| 0 <= i < |a'| && i < |b'| && a'[..i] == b'[..i] && a'[i] < b'[i];
        assert a[..i + 1] == [a[0]] + a'[..i] && b[..i + 1] == [b[0]] + b'[..i];
        assert a[i + 1] < b[i + 1];
      }
    }
  }

  lemma {:induction false} LexLessImpliesLess(a: Bytes, b: Bytes)
    requires LexLess(a, b)
    ensures Less(a, b)
  {
    if |a| > 0 {
      if |a| < |b| && a == b[..|a|] {
        assert a[0] == b[..|a|][0];
        if a[0] == b[0] {
          assert a[1..] == b[1..][..|a| - 1];
          LexLessImpliesLess(a[1..], b[1..]);
        }
      } else {
        var i :| 0 <= i < |a| && i < |b| && a[..i] == b[..i] && a[i] < b[i];
        if i > 0 {
          assert a[..i][0] == a[0] && b[..i][0] == b[0];
          assert a[1..][..i - 1] == a[..i][1..] && b[1..][..i - 1] == b[..i][1..];
          assert a[1..][i - 1] < b[1..][i - 1];
          LexLessImpliesLess(a[1..], b[1..]);
        }
      }
    }
  }

  /** `Less` agrees with the textbook lexicographic order. */
  lemma LessIsLexLess(a: Bytes, b: Bytes)
    ensures Less(a, b) <==> LexLess(a, b)
  {
    if Less(a, b) {
      LessImpliesLexLess(a, b);
    }
    if LexLess(a, b) {
      LexLessImpliesLess(a, b);
    }
  }

  /** The keys invariant of the container: strictly ascending, hence without duplicates. */
  predicate StrictlySorted(s: seq<Bytes>) {
    forall i, j {:trigger Less(s[i], s[j])} :: 0 <= i < j < |s| ==> Less(s[i], s[j])
  }

  predicate Distinct(s: seq<Bytes>) {
    forall i, j :: 0 <= i < j < |s| ==> s[i] != s[j]
  }

  lemma SortedDistinct(s: seq<Bytes>)
    requires StrictlySorted(s)
    ensures Distinct(s)
  {
    forall i, j | 0 <= i < j < |s|
      ensures s[i] != s[j]
    {
      LessIrreflexive(s[i]);
    }
  }
}
