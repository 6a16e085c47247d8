/**
 * A client of the engine: what a caller can conclude from the contracts alone, on the keys
 * "a" < "b" < "c".
 */
module SvectorUsage {
  import opened ByteOrder
  import opened Search
  import opened KvModel
  import opened SvectorEngine

  const A: Bytes := [97]
  const B: Bytes := [98]
  const C: Bytes := [99]

  /** Open a fresh pool and insert "c" into the empty container. */
  method OpenWithOneKey() returns (pool: Pool, engine: SVector)
    ensures fresh(pool) && fresh(engine) && fresh(engine.container)
    ensures engine.Valid() && pool.root == engine.container
    ensures engine.container.keys == [C] && engine.container.values == [[3]]
  {
    pool := new Pool();
    engine := new SVector(pool);
    var st := engine.Put(C, [3]);
  }

  /** Then insert "a", which goes in front of "c". */
  method OpenWithTwoKeys() returns (pool: Pool, engine: SVector)
    ensures fresh(pool) && fresh(engine) && fresh(engine.container)
    ensures engine.Valid() && pool.root == engine.container
    ensures engine.container.keys == [A, C] && engine.container.values == [[1], [3]]
  {
    pool, engine := OpenWithOneKey();
    var st := engine.Put(A, [1]);
  }

  /** Then insert "b", which goes between them. */
  method OpenWithThreeKeys() returns (pool: Pool, engine: SVector)
    ensures fresh(pool) && fresh(engine) && fresh(engine.container)
    ensures engine.Valid() && pool.root == engine.container
    ensures engine.container.keys == [A, B, C]
    ensures engine.container.values == [[1], [2], [3]]
    ensures engine.container.ToMap() == map[A := [1], B := [2], C := [3]]
  {
    pool, engine := OpenWithTwoKeys();
    var st := engine.Put(B, [2]);
    assert LowerBound([A, C], B) == 1;
    ThreeKeysMap();
  }

  lemma ThreeKeysMap()
    ensures MapOf([A, B, C], [[1], [2], [3]]) == map[A := [1], B := [2], C := [3]]
  {
    assert [A, B, C][1..] == [B, C] && [B, C][1..] == [C];
    assert [[1], [2], [3]][1..] == [[2], [3]] && [[2], [3]][1..] == [[3]];
    assert MapOf([C], [[3]]) == map[C := [3]];
    assert MapOf([B, C], [[2], [3]]) == map[C := [3]][B := [2]];
  }

  method PutThenGet() {
    var pool, engine := OpenWithThreeKeys();
    var found, seen := engine.Get(B);
    assert found == OK && seen == Some([2]);
    found, seen := engine.Get([100]);
    assert found == NotFound && seen == None;
  }

  /** "b" sits at index 1: the lower bound lands on it and the upper bound just after it. */
  lemma BoundsAroundB()
    ensures LowerBound([A, B, C], B) == 1 && UpperBound([A, B, C], B) == 2
  {
    var ks := [A, B, C];
    assert ks[0] == A && ks[1] == B && ks[2] == C;
    assert Less(A, B) && !Less(B, A) && !Less(B, B) && Less(B, C);
  }

  /** The scans above "b", with a visitor that never stops. */
  method ScansAboveB() {
    var pool, engine := OpenWithThreeKeys();
    var zero := (k: Bytes, v: Bytes) => 0;
    var ks, vs := engine.container.keys, engine.container.values;
    assert Zip(ks, vs) == [Entry(A, [1]), Entry(B, [2]), Entry(C, [3])];
    BoundsAroundB();
    var above := engine.GetAbove(B, zero);
    AboveIsSuffix(ks, vs, B);
    assert above == Visit([Entry(C, [3])], zero);
    assert above == ScanResult(OK, [Entry(C, [3])]);
    var equalAbove := engine.GetEqualAbove(B, zero);
    EqualAboveIsSuffix(ks, vs, B);
    VisitMeaning([Entry(B, [2]), Entry(C, [3])], zero);
    assert equalAbove == Visit([Entry(B, [2]), Entry(C, [3])], zero);
    assert equalAbove == ScanResult(OK, [Entry(B, [2]), Entry(C, [3])]);
  }

  /** The scans below "b", with a visitor that never stops. */
  method ScansBelowB() {
    var pool, engine := OpenWithThreeKeys();
    var zero := (k: Bytes, v: Bytes) => 0;
    var ks, vs := engine.container.keys, engine.container.values;
    assert Zip(ks, vs) == [Entry(A, [1]), Entry(B, [2]), Entry(C, [3])];
    BoundsAroundB();
    var equalBelow := engine.GetEqualBelow(B, zero);
    EqualBelowIsPrefix(ks, vs, B);
    VisitMeaning([Entry(A, [1]), Entry(B, [2])], zero);
    assert equalBelow == Visit([Entry(A, [1]), Entry(B, [2])], zero);
    assert equalBelow == ScanResult(OK, [Entry(A, [1]), Entry(B, [2])]);
    var below := engine.GetBelow(B, zero);
    BelowIsPrefix(ks, vs, B);
    assert below == Visit([Entry(A, [1])], zero);
    assert below == ScanResult(OK, [Entry(A, [1])]);
  }

  /** A visitor that asks to stop at once sees exactly one entry. */
  method EarlyStop() {
    var pool, engine := OpenWithThreeKeys();
    var es := Zip(engine.container.keys, engine.container.values);
    assert es[0] == Entry(A, [1]);
    var all := engine.GetAll((k: Bytes, v: Bytes) => 1);
    assert all == ScanResult(StoppedByCallback, [Entry(A, [1])]);
  }

  /** Overwriting keeps one entry for the key, with the new value; the count does not change. */
  method Overwrite() {
    var pool, engine := OpenWithThreeKeys();
    var before := engine.CountAll();
    var st := engine.Put(B, [5]);
    var after := engine.CountAll();
    assert before == after == 3;
    var found, seen := engine.Get(B);
    assert seen == Some([5]);
  }

  /** remove followed by exists reports NOT_FOUND; a second remove changes nothing. */
  method RemoveThenExists() {
    var pool, engine := OpenWithThreeKeys();
    var st := engine.Remove(B);
    assert st == OK;
    var present := engine.Exists(B);
    assert present == NotFound;
    st := engine.Remove(B);
    assert st == NotFound;
    assert engine.container.keys == [A, C];
  }

  /** Reopening on the same pool reattaches to the same container, with every entry in order. */
  method Reopen() {
    var pool, engine := OpenWithThreeKeys();
    var reopened := new SVector(pool);
    assert reopened.container == engine.container;
    assert reopened.container.keys == [A, B, C];
  }
}
