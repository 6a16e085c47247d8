/**
 * The abstract view of the container: the map its parallel vectors represent, the mutations on
 * those vectors, the four scan ranges, and how a visitor callback stops a scan.
 */
module KvModel {
  import opened ByteOrder
  import opened Search

  datatype Option<T> = None | Some(value: T)

  /** The engine's status codes that this core returns. */
  datatype Status = OK | NotFound | StoppedByCallback

  /** A key together with the value bound to it, as handed to a visitor. */
  datatype Entry = Entry(key: Bytes, value: Bytes)

  /** What a scan reports, and the entries it handed to the visitor, in order. */
  datatype ScanResult = ScanResult(status: Status, visited: seq<Entry>)

  /** The pairs (keys[i], values[i]) of two parallel vectors. */
  function Zip(ks: seq<Bytes>, vs: seq<Bytes>): seq<Entry>
    requires |ks| == |vs|
  {
    seq(|ks|, i requires 0 <= i < |ks| => Entry(ks[i], vs[i]))
  }

  /** Keys of a sequence of entries strictly ascending. */
  predicate Ascending(es: seq<Entry>) {
    forall i, j :: 0 <= i < j < |es| ==> Less(es[i].key, es[j].key)
  }

  // ---------------------------------------------------------------------------------------------
  // The map the two vectors represent
  // ---------------------------------------------------------------------------------------------

  ghost function MapOf(ks: seq<Bytes>, vs: seq<Bytes>): map<Bytes, Bytes>
    requires |ks| == |vs|
  {
    if |ks| == 0 then map[] else MapOf(ks[1..], vs[1..])[ks[0] := vs[0]]
  }

  lemma {:induction false} MapOfDomain(ks: seq<Bytes>, vs: seq<Bytes>)
    requires |ks| == |vs|
    ensures forall k :: k in MapOf(ks, vs) <==> k in ks
  {
    if |ks| > 0 {
      MapOfDomain(ks[1..], vs[1..]);
      assert ks == [ks[0]] + ks[1..];
    }
  }

  /** With distinct keys, the map binds keys[i] to values[i]. */
  lemma {:induction false} MapOfAt(ks: seq<Bytes>, vs: seq<Bytes>, i: int)
    requires |ks| == |vs| && Distinct(ks) && 0 <= i < |ks|
    ensures ks[i] in MapOf(ks, vs) && MapOf(ks, vs)[ks[i]] == vs[i]
  {
    if i > 0 {
      assert Distinct(ks[1..]);
      MapOfAt(ks[1..], vs[1..], i - 1);
    }
  }

  /** With distinct keys, the map has as many entries as there are keys. */
  lemma {:induction false} MapOfSize(ks: seq<Bytes>, vs: seq<Bytes>)
    requires |ks| == |vs| && Distinct(ks)
    ensures |MapOf(ks, vs)| == |ks|
  {
    if |ks| > 0 {
      assert Distinct(ks[1..]);
      MapOfSize(ks[1..], vs[1..]);
      MapOfDomain(ks[1..], vs[1..]);
    }
  }

  /** An entry is one of the pairs exactly when the map binds its key to its value. */
  lemma ZipMembers(ks: seq<Bytes>, vs: seq<Bytes>)
    requires |ks| == |vs| && Distinct(ks)
    ensures forall e :: e in Zip(ks, vs) <==> e.key in MapOf(ks, vs) && MapOf(ks, vs)[e.key] == e.value
  {
    var es, m := Zip(ks, vs), MapOf(ks, vs);
    MapOfDomain(ks, vs);
    forall e | e in es
      ensures e.key in m && m[e.key] == e.value
    {
      var i :| 0 <= i < |es| && es[i] == e;
      MapOfAt(ks, vs, i);
    }
    forall e: Entry | e.key in m && m[e.key] == e.value
      ensures e in es
    {
      var i :| 0 <= i < |ks| && ks[i] == e.key;
      MapOfAt(ks, vs, i);
      assert es[i] == e;
    }
  }

  // ---------------------------------------------------------------------------------------------
  // The three mutations `put` and `remove` make to the vectors
  // ---------------------------------------------------------------------------------------------

  /** Replacing values[i] rebinds keys[i] and nothing else. */
  lemma {:induction false} MapOfOverwrite(ks: seq<Bytes>, vs: seq<Bytes>, i: int, v: Bytes)
    requires |ks| == |vs| && Distinct(ks) && 0 <= i < |ks|
    ensures MapOf(ks, vs[i := v]) == MapOf(ks, vs)[ks[i] := v]
  {
    if i == 0 {
      assert vs[i := v][1..] == vs[1..];
      MapOfDomain(ks[1..], vs[1..]);
      assert ks == [ks[0]] + ks[1..];
    } else {
      assert Distinct(ks[1..]);
      assert vs[i := v][1..] == vs[1..][i - 1 := v];
      MapOfOverwrite(ks[1..], vs[1..], i - 1, v);
    }
  }

  /** Inserting an absent key at the same index of both vectors adds exactly that binding. */
  lemma {:induction false} MapOfInsert(ks: seq<Bytes>, vs: seq<Bytes>, i: int, k: Bytes, v: Bytes)
    requires |ks| == |vs| && 0 <= i <= |ks| && k !in ks
    ensures MapOf(ks[..i] + [k] + ks[i..], vs[..i] + [v] + vs[i..]) == MapOf(ks, vs)[k := v]
  {
    var ks', vs' := ks[..i] + [k] + ks[i..], vs[..i] + [v] + vs[i..];
    if i == 0 {
      assert ks'[1..] == ks && vs'[1..] == vs;
    } else {
      assert ks'[1..] == ks[1..][..i - 1] + [k] + ks[1..][i - 1..];
      assert vs'[1..] == vs[1..][..i - 1] + [v] + vs[1..][i - 1..];
      assert k !in ks[1..] && k != ks[0];
      MapOfInsert(ks[1..], vs[1..], i - 1, k, v);
    }
  }

  lemma MapOfEraseHead(ks: seq<Bytes>, vs: seq<Bytes>)
    requires |ks| == |vs| && 0 < |ks| && ks[0] !in ks[1..]
    ensures MapOf(ks[1..], vs[1..]) == MapOf(ks, vs) - {ks[0]}
  {
    var tail := MapOf(ks[1..], vs[1..]);
    MapOfDomain(ks[1..], vs[1..]);
    assert tail[ks[0] := vs[0]] - {ks[0]} == tail;
  }

  /** Erasing index i of both vectors removes exactly the binding of keys[i]. */
  lemma {:induction false} MapOfErase(ks: seq<Bytes>, vs: seq<Bytes>, i: int)
    requires |ks| == |vs| && Distinct(ks) && 0 <= i < |ks|
    ensures MapOf(ks[..i] + ks[i + 1..], vs[..i] + vs[i + 1..]) == MapOf(ks, vs) - {ks[i]}
  {
    if i == 0 {
      assert ks[..i] + ks[i + 1..] == ks[1..] && vs[..i] + vs[i + 1..] == vs[1..];
      MapOfEraseHead(ks, vs);
    } else {
      var ks', vs' := ks[..i] + ks[i + 1..], vs[..i] + vs[i + 1..];
      var tail := MapOf(ks[1..], vs[1..]);
      assert Distinct(ks[1..]);
      assert ks'[1..] == ks[1..][..i - 1] + ks[1..][i..] && ks'[0] == ks[0];
      assert vs'[1..] == vs[1..][..i - 1] + vs[1..][i..] && vs'[0] == vs[0];
      MapOfErase(ks[1..], vs[1..], i - 1);
      assert ks[1..][i - 1] == ks[i] != ks[0];
      assert MapOf(ks', vs') == (tail - {ks[i]})[ks[0] := vs[0]];
      assert (tail - {ks[i]})[ks[0] := vs[0]] == tail[ks[0] := vs[0]] - {ks[i]};
    }
  }

  /** Inserting an absent key at its lower bound keeps the keys strictly sorted. */
  lemma SortedInsert(ks: seq<Bytes>, k: Bytes)
    requires StrictlySorted(ks) && k !in ks
    ensures var i := LowerBound(ks, k); StrictlySorted(ks[..i] + [k] + ks[i..])
  {
    var i := LowerBound(ks, k);
    var ks' := ks[..i] + [k] + ks[i..];
    LowerBoundPartitions(ks, k);
    forall j | i <= j < |ks|
      ensures Less(k, ks[j])
    {
      LessTotal(k, ks[j]);
    }
    forall a, b | 0 <= a < b < |ks'|
      ensures Less(ks'[a], ks'[b])
    {
      if b < i || a > i {
      } else if a < i && b > i {
        LessTransitive(ks'[a], k, ks'[b]);
      }
    }
  }

  /** Erasing one key keeps the keys strictly sorted. */
  lemma SortedErase(ks: seq<Bytes>, i: int)
    requires StrictlySorted(ks) && 0 <= i < |ks|
    ensures StrictlySorted(ks[..i] + ks[i + 1..])
  {
    var ks' := ks[..i] + ks[i + 1..];
    forall a, b | 0 <= a < b < |ks'|
      ensures Less(ks'[a], ks'[b])
    {
      var a', b' := if a < i then a else a + 1, if b < i then b else b + 1;
      assert ks'[a] == ks[a'] && ks'[b] == ks[b'];
    }
  }

  // ---------------------------------------------------------------------------------------------
  // The four scan ranges
  // ---------------------------------------------------------------------------------------------

  /** (b, +inf), [b, +inf), (-inf, b] and (-inf, b). */
  datatype Range = Above(bound: Bytes) | EqualAbove(bound: Bytes) | EqualBelow(bound: Bytes) | Below(bound: Bytes)

  /** Membership of a key in a range, written with the comparisons the scans make. */
  predicate InRange(r: Range, k: Bytes) {
    match r
    case Above(b) => Less(b, k)
    case EqualAbove(b) => !Less(k, b)
    case EqualBelow(b) => !Less(b, k)
    case Below(b) => Less(k, b)
  }

  /** Each range holds exactly the keys its name says: open ends exclude the bound, closed ends include it. */
  lemma RangeMeaning(r: Range, k: Bytes)
    ensures r.Above? ==> (InRange(r, k) <==> Less(r.bound, k))
    ensures r.EqualAbove? ==> (InRange(r, k) <==> k == r.bound || Less(r.bound, k))
    ensures r.EqualBelow? ==> (InRange(r, k) <==> k == r.bound || Less(k, r.bound))
    ensures r.Below? ==> (InRange(r, k) <==> Less(k, r.bound))
  {
    var b := r.bound;
    LessIrreflexive(b);
    if k != b {
      LessTotal(k, b);
      if Less(k, b) {
        LessAsymmetric(k, b);
      }
    }
  }

  /** The entries of `es` whose key is in `r`, in their original order. */
  function Filter(es: seq<Entry>, r: Range): seq<Entry> {
    if |es| == 0 then []
    else (if InRange(r, es[0].key) then [es[0]] else []) + Filter(es[1..], r)
  }

  lemma {:induction false} FilterMembers(es: seq<Entry>, r: Range)
    ensures forall e :: e in Filter(es, r) <==> e in es && InRange(r, e.key)
  {
    if |es| > 0 {
      FilterMembers(es[1..], r);
      assert es == [es[0]] + es[1..];
    }
  }

  lemma {:induction false} FilterAscending(es: seq<Entry>, r: Range)
    requires Ascending(es)
    ensures Ascending(Filter(es, r))
  {
    if |es| > 0 {
      FilterAscending(es[1..], r);
      FilterMembers(es[1..], r);
      var tail := Filter(es[1..], r);
      forall j | 0 <= j < |tail|
        ensures Less(es[0].key, tail[j].key)
      {
        assert tail[j] in es[1..];
      }
    }
  }

  lemma {:induction false} FilterConcat(a: seq<Entry>, b: seq<Entry>, r: Range)
    ensures Filter(a + b, r) == Filter(a, r) + Filter(b, r)
  {
    if |a| > 0 {
      var head := if InRange(r, a[0].key) then [a[0]] else [];
      assert (a + b)[0] == a[0] && (a + b)[1..] == a[1..] + b;
      FilterConcat(a[1..], b, r);
      calc {
        Filter(a + b, r);
        head + Filter(a[1..] + b, r);
        head + (Filter(a[1..], r) + Filter(b, r));
        (head + Filter(a[1..], r)) + Filter(b, r);
      }
    } else {
      assert a + b == b;
    }
  }

  lemma {:induction false} FilterNone(es: seq<Entry>, r: Range)
    requires forall i :: 0 <= i < |es| ==> !InRange(r, es[i].key)
    ensures Filter(es, r) == []
  {
    if |es| > 0 {
      FilterNone(es[1..], r);
    }
  }

  lemma {:induction false} FilterAll(es: seq<Entry>, r: Range)
    requires forall i :: 0 <= i < |es| ==> InRange(r, es[i].key)
    ensures Filter(es, r) == es
  {
    if |es| > 0 {
      FilterAll(es[1..], r);
      assert es == [es[0]] + es[1..];
    }
  }

  /** When the range holds exactly the entries from index c on, filtering is the suffix from c. */
  lemma FilterSuffix(es: seq<Entry>, r: Range, c: int)
    requires 0 <= c <= |es|
    requires forall i :: 0 <= i < c ==> !InRange(r, es[i].key)
    requires forall i :: c <= i < |es| ==> InRange(r, es[i].key)
    ensures Filter(es, r) == es[c..|es|]
  {
    assert es == es[..c] + es[c..|es|];
    FilterConcat(es[..c], es[c..|es|], r);
    FilterNone(es[..c], r);
    FilterAll(es[c..|es|], r);
  }

  /** When the range holds exactly the entries before index c, filtering is the prefix up to c. */
  lemma FilterPrefix(es: seq<Entry>, r: Range, c: int)
    requires 0 <= c <= |es|
    requires forall i :: 0 <= i < c ==> InRange(r, es[i].key)
    requires forall i :: c <= i < |es| ==> !InRange(r, es[i].key)
    ensures Filter(es, r) == es[0..c]
  {
    assert es == es[0..c] + es[c..];
    FilterConcat(es[0..c], es[c..], r);
    FilterAll(es[0..c], r);
    FilterNone(es[c..], r);
  }

  // On sorted keys each range is one contiguous run of pairs, starting or ending at the cut point
  // the scan computes.

  /** (b, +inf) is the run from the upper bound to the end. */
  lemma AboveIsSuffix(ks: seq<Bytes>, vs: seq<Bytes>, b: Bytes)
    requires |ks| == |vs| && StrictlySorted(ks)
    ensures Filter(Zip(ks, vs), Above(b)) == Zip(ks, vs)[UpperBound(ks, b)..|ks|]
  {
    UpperBoundPartitions(ks, b);
    FilterSuffix(Zip(ks, vs), Above(b), UpperBound(ks, b));
  }

  /** [b, +inf) is the run from the lower bound to the end. */
  lemma EqualAboveIsSuffix(ks: seq<Bytes>, vs: seq<Bytes>, b: Bytes)
    requires |ks| == |vs| && StrictlySorted(ks)
    ensures Filter(Zip(ks, vs), EqualAbove(b)) == Zip(ks, vs)[LowerBound(ks, b)..|ks|]
  {
    LowerBoundPartitions(ks, b);
    FilterSuffix(Zip(ks, vs), EqualAbove(b), LowerBound(ks, b));
  }

  /** (-inf, b] is the run from index 0 up to the upper bound. */
  lemma EqualBelowIsPrefix(ks: seq<Bytes>, vs: seq<Bytes>, b: Bytes)
    requires |ks| == |vs| && StrictlySorted(ks)
    ensures Filter(Zip(ks, vs), EqualBelow(b)) == Zip(ks, vs)[0..UpperBound(ks, b)]
  {
    UpperBoundPartitions(ks, b);
    FilterPrefix(Zip(ks, vs), EqualBelow(b), UpperBound(ks, b));
  }

  /** (-inf, b) is the run from index 0 up to the lower bound. */
  lemma BelowIsPrefix(ks: seq<Bytes>, vs: seq<Bytes>, b: Bytes)
    requires |ks| == |vs| && StrictlySorted(ks)
    ensures Filter(Zip(ks, vs), Below(b)) == Zip(ks, vs)[0..LowerBound(ks, b)]
  {
    LowerBoundPartitions(ks, b);
    FilterPrefix(Zip(ks, vs), Below(b), LowerBound(ks, b));
  }

  /**
   * Range semantics against the abstract map: a scan's candidates are exactly the bindings of the
   * map whose key is in the range, in strictly ascending key order.
   */
  lemma RangeSemantics(ks: seq<Bytes>, vs: seq<Bytes>, r: Range)
    requires |ks| == |vs| && StrictlySorted(ks)
    ensures var f, m := Filter(Zip(ks, vs), r), MapOf(ks, vs);
      && (forall e :: e in f <==> e.key in m && m[e.key] == e.value && InRange(r, e.key))
      && Ascending(f)
  {
    SortedDistinct(ks);
    ZipMembers(ks, vs);
    FilterMembers(Zip(ks, vs), r);
    FilterAscending(Zip(ks, vs), r);
  }

  // ---------------------------------------------------------------------------------------------
  // Driving a visitor callback
  // ---------------------------------------------------------------------------------------------

  /** `visited` handed to the visitor before the scan went on as `rest`. */
  function Prepend(visited: seq<Entry>, rest: ScanResult): ScanResult {
    ScanResult(rest.status, visited + rest.visited)
  }

  /** Hand the entries to `cb` in order until it returns non-zero. */
  function Visit(es: seq<Entry>, cb: (Bytes, Bytes) -> int): ScanResult {
    if |es| == 0 then ScanResult(OK, [])
    else if cb(es[0].key, es[0].value) != 0 then ScanResult(StoppedByCallback, [es[0]])
    else Prepend([es[0]], Visit(es[1..], cb))
  }

  /**
   * What a scan reports: it visits a prefix of its candidates; it stops with StoppedByCallback right
   * after the first entry for which `cb` is non-zero, and visits nothing after it; if there is no
   * such entry it visits every candidate and reports OK.
   */
  lemma {:induction false} VisitMeaning(es: seq<Entry>, cb: (Bytes, Bytes) -> int)
    ensures var r := Visit(es, cb);
      && (r.status == OK || r.status == StoppedByCallback)
      && |r.visited| <= |es| && r.visited == es[..|r.visited|]
      && (r.status == OK <==> forall i :: 0 <= i < |es| ==> cb(es[i].key, es[i].value) == 0)
      && (r.status == OK ==> r.visited == es)
      && (r.status == StoppedByCallback ==>
            && |r.visited| > 0
            && cb(es[|r.visited| - 1].key, es[|r.visited| - 1].value) != 0
            && forall i :: 0 <= i < |r.visited| - 1 ==> cb(es[i].key, es[i].value) == 0)
  {
    if |es| > 0 && cb(es[0].key, es[0].value) == 0 {
      VisitMeaning(es[1..], cb);
      var tail := Visit(es[1..], cb);
      assert es == [es[0]] + es[1..];
      assert es[..|tail.visited| + 1] == [es[0]] + es[1..][..|tail.visited|];
    }
  }

  /** One step of a scan over the slice es[i..hi], after `visited` has been handed over. */
  lemma ScanStep(es: seq<Entry>, i: int, hi: int, visited: seq<Entry>, cb: (Bytes, Bytes) -> int)
    requires 0 <= i < hi <= |es|
    ensures cb(es[i].key, es[i].value) != 0 ==>
      Prepend(visited, Visit(es[i..hi], cb)) == ScanResult(StoppedByCallback, visited + [es[i]])
    ensures cb(es[i].key, es[i].value) == 0 ==>
      Prepend(visited, Visit(es[i..hi], cb)) == Prepend(visited + [es[i]], Visit(es[i + 1..hi], cb))
  {
    assert es[i..hi][1..] == es[i + 1..hi];
    var rest := Visit(es[i + 1..hi], cb);
    assert visited + ([es[i]] + rest.visited) == (visited + [es[i]]) + rest.visited;
  }
}
