/** Whether a table is written as an array, and how long (lua_cjson.c: lua_array_length). */
module JsonTable {

  datatype Key = Number(k: real) | Other

  datatype Shape = Object | Array(length: nat) | TooSparse

  predicate Index(key: Key) {
    key.Number? && key.k.Floor as real == key.k && key.k >= 1.0
  }

  function KeyOf(i: nat): Key { Number(i as real) }

  /** The keys of an array are the whole numbers from one on. */
  lemma IndexIs(key: Key)
    ensures Index(key) <==> exists n: nat :: n >= 1 && key == KeyOf(n)
    ensures Index(key) ==> key == KeyOf(Position(key))
  {
    if Index(key) {
      var n: nat := key.k.Floor;
      assert n >= 1 && key == KeyOf(n);
    }
  }

  function Position(key: Key): (p: nat)
    requires Index(key)
    ensures p >= 1 && p as real == key.k
  {
    key.k.Floor
  }

  ghost predicate AllIndexes(keys: seq<Key>) { forall key :: key in keys ==> Index(key) }

  ghost function Positions(keys: seq<Key>): (s: set<nat>)
    requires AllIndexes(keys)
  {
    set key | key in keys :: Position(key)
  }

  /** The largest index, or 0 in an empty table. */
  ghost predicate IsLargest(keys: seq<Key>, max: nat)
    requires AllIndexes(keys)
  {
    && (keys == [] ==> max == 0)
    && (keys != [] ==> max in Positions(keys))
    && forall p :: p in Positions(keys) ==> p <= max
  }

  predicate Sparse(max: nat, items: nat, ratio: nat, safe: nat) {
    ratio > 0 && max > items * ratio && max > safe
  }

  function ShapeOf(max: nat, items: nat, convert: bool, ratio: nat, safe: nat): Shape {
    if !Sparse(max, items, ratio, safe) then Array(max) else if convert then Object else TooSparse
  }

  /** An object exactly when some key is no index, or the array is too sparse and may be converted;
      otherwise the length is the largest index. Too sparse is a largest index beyond the safe one and
      beyond the ratio to the number of keys, unless that is zero. */
  method ArrayLength(keys: seq<Key>, convert: bool, ratio: nat, safe: nat) returns (shape: Shape)
    ensures !AllIndexes(keys) ==> shape == Object
    ensures AllIndexes(keys) ==>
      exists max :: IsLargest(keys, max) && shape == ShapeOf(max, |keys|, convert, ratio, safe)
    ensures shape == TooSparse ==> !convert && ratio > 0
    ensures shape == Object && AllIndexes(keys) ==> convert && ratio > 0
    ensures AllIndexes(keys) ==>
      forall max: nat :: IsLargest(keys, max) ==>
        (shape == Array(max) <==> ratio == 0 || max <= |keys| * ratio || max <= safe)
  {
    var max: nat, items := 0, 0;
    for i := 0 to |keys|
      invariant items == i && AllIndexes(keys[..i]) && IsLargest(keys[..i], max)
    {
      if !Index(keys[i]) {
        assert keys[i] in keys;
        return Object;
      }
      var p := Position(keys[i]);
      assert keys[..i + 1] == keys[..i] + [keys[i]];
      assert Positions(keys[..i + 1]) == Positions(keys[..i]) + {p};
      if p > max {
        max := p;
      }
      items := items + 1;
    }
    assert keys[..|keys|] == keys;
    if Sparse(max, items, ratio, safe) {
      return if convert then Object else TooSparse;
    }
    return Array(max);
  }

  ghost predicate Distinct(keys: seq<Key>) { forall i, j :: 0 <= i < j < |keys| ==> keys[i] != keys[j] }

  ghost function UpTo(n: nat): (s: set<nat>)
    ensures forall i :: i in s <==> 1 <= i <= n
  {
    if n == 0 then {} else UpTo(n - 1) + {n}
  }

  ghost predicate Dense(keys: seq<Key>, max: nat) { forall i: nat :: 1 <= i <= max ==> KeyOf(i) in keys }

  lemma {:induction false} UpToSize(n: nat)
    ensures |UpTo(n)| == n
  {
    if n > 0 {
      UpToSize(n - 1);
    }
  }

  lemma {:induction false} PositionsSize(keys: seq<Key>)
    requires AllIndexes(keys) && Distinct(keys)
    ensures |Positions(keys)| == |keys|
  {
    if keys == [] {
      assert Positions(keys) == {};
    } else {
      var n := |keys| - 1;
      PositionsSize(keys[..n]);
      LastPosition(keys);
    }
  }

  /** The last of several keys has a position of its own. */
  lemma LastPosition(keys: seq<Key>)
    requires keys != [] && AllIndexes(keys) && Distinct(keys)
    ensures var n := |keys| - 1;
      AllIndexes(keys[..n]) && Positions(keys) == Positions(keys[..n]) + {Position(keys[n])}
      && Position(keys[n]) !in Positions(keys[..n])
  {
    var n := |keys| - 1;
    assert keys == keys[..n] + [keys[n]];
    forall i | 0 <= i < n ensures Position(keys[i]) != Position(keys[n]) {
      OnePosition(keys[i], keys[n]);
    }
  }

  lemma OnePosition(a: Key, b: Key)
    requires Index(a) && Index(b) && a != b
    ensures Position(a) != Position(b)
  {}

  lemma {:induction false} SubsetSize(a: set<nat>, b: set<nat>)
    requires a <= b
    ensures |a| <= |b| && (|a| == |b| <==> a == b)
  {
    assert b == a + (b - a);
    if b - a == {} {
      assert a == b;
    } else {
      assert |b - a| > 0;
    }
  }

  /** The length of an array is at least the number of its entries, and equal to it exactly when
      every index up to the length is present. */
  lemma Holes(keys: seq<Key>, max: nat)
    requires AllIndexes(keys) && Distinct(keys) && IsLargest(keys, max)
    ensures |keys| <= max
    ensures |keys| == max <==> Dense(keys, max)
  {
    UpToSize(max);
    PositionsSize(keys);
    assert Positions(keys) <= UpTo(max);
    SubsetSize(Positions(keys), UpTo(max));
    if Positions(keys) == UpTo(max) {
      forall i: nat | 1 <= i <= max ensures KeyOf(i) in keys {
        assert i in Positions(keys);
        var key :| key in keys && Position(key) == i;
        assert key == KeyOf(i);
      }
    }
    if Dense(keys, max) {
      forall i | i in UpTo(max) ensures i in Positions(keys) {
        assert Position(KeyOf(i)) == i;
      }
    }
  }

  /** An array without holes is never too sparse, whatever the limits are. */
  lemma DenseIsNotSparse(keys: seq<Key>, max: nat, ratio: nat, safe: nat)
    requires AllIndexes(keys) && Distinct(keys) && IsLargest(keys, max)
    requires Dense(keys, max)
    ensures !Sparse(max, |keys|, ratio, safe)
  {
    Holes(keys, max);
  }
}
