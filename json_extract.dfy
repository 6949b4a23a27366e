// JSON_EXTRACT: the recursive path matcher `extract` and the multi-path
// `Extract` that collects and wraps its matches.

module JsonExtract {
  import opened JsonValue
  import opened JsonPath

  /** The concatenation of a sequence of sequences, in order. */
  function Concat<T>(ss: seq<seq<T>>): (r: seq<T>)
    decreases |ss|
  {
    if ss == [] then [] else ss[0] + Concat(ss[1..])
  }

  lemma {:induction false} ConcatMember<T>(ss: seq<seq<T>>, x: T)
    ensures x in Concat(ss) <==> exists i :: 0 <= i < |ss| && x in ss[i]
    decreases |ss|
  {
    if ss != [] {
      ConcatMember(ss[1..], x);
      if x in Concat(ss[1..]) {
        var i :| 0 <= i < |ss[1..]| && x in ss[1..][i];
        assert x in ss[i + 1];
      }
      if exists i :: 0 <= i < |ss| && x in ss[i] {
        var i :| 0 <= i < |ss| && x in ss[i];
        if i > 0 {
          assert x in ss[1..][i - 1];
        }
      }
    }
  }

  /** Every element of a concatenation comes from one of its parts. */
  lemma ConcatFrom<T>(ss: seq<seq<T>>)
    ensures forall x :: x in Concat(ss) ==> exists i :: 0 <= i < |ss| && x in ss[i]
  {
    forall x | x in Concat(ss) {
      ConcatMember(ss, x);
    }
  }

  lemma {:induction false} ConcatSingletons<T>(ss: seq<seq<T>>)
    requires forall i :: 0 <= i < |ss| ==> |ss[i]| == 1
    ensures |Concat(ss)| == |ss|
    ensures forall i :: 0 <= i < |ss| ==> Concat(ss)[i] == ss[i][0]
    decreases |ss|
  {
    if ss != [] {
      ConcatSingletons(ss[1..]);
    }
  }

  /**
   * The values of j that the path selects, in document order: array
   * elements in index order, object members in ascending key order. A leg
   * that does not fit the value's kind, a missing key or an index past the
   * end selects nothing. `**` matches the rest of the path at j itself and
   * then matches the whole path, `**` included, at every child.
   */
  function ExtractPath(j: JSON, legs: Path): (r: seq<JSON>)
    ensures forall x :: x in r ==> IsDescendant(j, x)
    decreases j, |legs|, 1
  {
    if legs == [] then [j]
    else
      var sub := legs[1..];
      match legs[0]
      case IndexLeg(idx) =>
        if !j.Array? then []
        else if idx == AnyIndex then ExtractChildren(j, sub)
        else if idx.n < |j.arr| then ExtractPath(j.arr[idx.n], sub)
        else []
      case KeyLeg(k) =>
        if !j.Object? then []
        else if k == WildcardKey then ExtractChildren(j, sub)
        else if k in j.obj then ExtractPath(j.obj[k], sub)
        else []
      case DoubleAsteriskLeg =>
        ExtractPath(j, sub) + ExtractChildren(j, legs)
  }

  /**
   * The matches of the path at every child of j, concatenated: array
   * elements in index order, object members in ascending key order; a
   * scalar has no children.
   */
  function ExtractChildren(j: JSON, legs: Path): (r: seq<JSON>)
    ensures forall x :: x in r ==> IsDescendant(j, x)
    decreases j, |legs|, 0
  {
    if j.Array? then
      var ss := seq(|j.arr|, i requires 0 <= i < |j.arr| => ExtractPath(j.arr[i], legs));
      ConcatFrom(ss);
      Concat(ss)
    else if j.Object? then
      var keys := SortedKeys(j.obj);
      var ss := seq(|keys|, i requires 0 <= i < |keys| => ExtractPath(j.obj[keys[i]], legs));
      ConcatFrom(ss);
      Concat(ss)
    else []
  }

  lemma ExtractChildrenMember(j: JSON, legs: Path, x: JSON)
    ensures x in ExtractChildren(j, legs) <==>
      (j.Array? && exists i :: 0 <= i < |j.arr| && x in ExtractPath(j.arr[i], legs)) ||
      (j.Object? && exists k :: k in j.obj && x in ExtractPath(j.obj[k], legs))
  {
    if j.Array? {
      var a := j.arr;
      var ss := seq(|a|, i requires 0 <= i < |a| => ExtractPath(a[i], legs));
      ConcatMember(ss, x);
      assert forall i :: 0 <= i < |a| ==> ss[i] == ExtractPath(a[i], legs);
    } else if j.Object? {
      var m := j.obj;
      var keys := SortedKeys(m);
      var ss := seq(|keys|, i requires 0 <= i < |keys| => ExtractPath(m[keys[i]], legs));
      ConcatMember(ss, x);
      if exists k :: k in m && x in ExtractPath(m[k], legs) {
        var k :| k in m && x in ExtractPath(m[k], legs);
        assert k in keys;
        var i :| 0 <= i < |keys| && keys[i] == k;
        assert x in ss[i];
      }
    }
  }

  // ---------------------------------------------------------------------------
  // What a path selects, stated without traversal order.

  /**
   * x is one of the values the path selects in j: each leg moves to a child
   * that fits it, and `**` moves to any descendant of the current value,
   * itself included.
   */
  ghost predicate Selects(j: JSON, legs: Path, x: JSON)
    decreases |legs|
  {
    if legs == [] then x == j
    else
      var sub := legs[1..];
      match legs[0]
      case IndexLeg(idx) =>
        j.Array? &&
        (if idx == AnyIndex then exists i :: 0 <= i < |j.arr| && Selects(j.arr[i], sub, x)
         else idx.n < |j.arr| && Selects(j.arr[idx.n], sub, x))
      case KeyLeg(k) =>
        j.Object? &&
        (if k == WildcardKey then exists key :: key in j.obj && Selects(j.obj[key], sub, x)
         else k in j.obj && Selects(j.obj[k], sub, x))
      case DoubleAsteriskLeg =>
        exists d :: IsDescendant(j, d) && Selects(d, sub, x)
  }

  /** extract returns exactly the values the path selects. */
  lemma {:induction false} ExtractSelects(j: JSON, legs: Path, x: JSON)
    ensures x in ExtractPath(j, legs) <==> Selects(j, legs, x)
    decreases j, |legs|, 1
  {
    if legs != [] {
      var sub := legs[1..];
      match legs[0]
      case IndexLeg(idx) =>
        if j.Array? {
          if idx == AnyIndex {
            ChildrenSelect(j, sub, x);
          } else if idx.n < |j.arr| {
            ExtractSelects(j.arr[idx.n], sub, x);
          }
        }
      case KeyLeg(k) =>
        if j.Object? {
          if k == WildcardKey {
            ChildrenSelect(j, sub, x);
          } else if k in j.obj {
            ExtractSelects(j.obj[k], sub, x);
          }
        }
      case DoubleAsteriskLeg =>
        ExtractSelects(j, sub, x);
        ChildrenSelect(j, legs, x);
        if Selects(j, legs, x) && !Selects(j, sub, x) {
          var d :| IsDescendant(j, d) && Selects(d, sub, x);
          if j.Array? {
            var i :| 0 <= i < |j.arr| && IsDescendant(j.arr[i], d);
            assert Selects(j.arr[i], legs, x);
          } else {
            var k :| k in j.obj && IsDescendant(j.obj[k], d);
            assert Selects(j.obj[k], legs, x);
          }
        }
        if x in ExtractChildren(j, legs) {
          if j.Array? {
            var i :| 0 <= i < |j.arr| && Selects(j.arr[i], legs, x);
            var d :| IsDescendant(j.arr[i], d) && Selects(d, sub, x);
            assert IsDescendant(j, d);
          } else {
            var k :| k in j.obj && Selects(j.obj[k], legs, x);
            var d :| IsDescendant(j.obj[k], d) && Selects(d, sub, x);
            assert IsDescendant(j, d);
          }
        }
    }
  }

  /** The children's matches are the values the path selects in some child. */
  lemma {:induction false} ChildrenSelect(j: JSON, legs: Path, x: JSON)
    ensures x in ExtractChildren(j, legs) <==>
      (j.Array? && exists i :: 0 <= i < |j.arr| && Selects(j.arr[i], legs, x)) ||
      (j.Object? && exists k :: k in j.obj && Selects(j.obj[k], legs, x))
    decreases j, |legs|, 0
  {
    ExtractChildrenMember(j, legs, x);
    if j.Array? {
      forall i | 0 <= i < |j.arr|
        ensures x in ExtractPath(j.arr[i], legs) <==> Selects(j.arr[i], legs, x)
      {
        ExtractSelects(j.arr[i], legs, x);
      }
    } else if j.Object? {
      forall k | k in j.obj
        ensures x in ExtractPath(j.obj[k], legs) <==> Selects(j.obj[k], legs, x)
      {
        ExtractSelects(j.obj[k], legs, x);
      }
    }
  }

  // ---------------------------------------------------------------------------
  // Paths without wildcards.

  /**
   * A path without `*` or `**` matches at most one value: the one Lookup
   * finds, or nothing.
   */
  lemma {:induction false} ExtractWithoutAsterisk(j: JSON, legs: Path)
    requires !ContainsAnyAsterisk(legs)
    ensures ExtractPath(j, legs) == if Lookup(j, legs).Some? then [Lookup(j, legs).value] else []
    decreases |legs|
  {
    if legs != [] {
      NoAsteriskTail(legs);
      var sub := legs[1..];
      match legs[0]
      case IndexLeg(idx) =>
        if j.Array? && idx.n < |j.arr| {
          ExtractWithoutAsterisk(j.arr[idx.n], sub);
        }
      case KeyLeg(k) =>
        if j.Object? && k in j.obj {
          ExtractWithoutAsterisk(j.obj[k], sub);
        }
    }
  }

  // ---------------------------------------------------------------------------
  // Traversal order of the wildcards.

  /** `[*]` as the last leg lists the array's elements in index order. */
  lemma IndexWildcardInOrder(a: seq<JSON>)
    ensures ExtractPath(Array(a), [IndexLeg(AnyIndex)]) == a
  {
    var legs := [IndexLeg(AnyIndex)];
    assert legs[1..] == [];
    var ss := seq(|a|, i requires 0 <= i < |a| => ExtractPath(a[i], []));
    assert ExtractPath(Array(a), legs) == ExtractChildren(Array(a), []) == Concat(ss);
    ConcatSingletons(ss);
  }

  /** `.*` as the last leg lists the member values in ascending key order. */
  lemma KeyWildcardInKeyOrder(m: map<Key, JSON>)
    ensures var r := ExtractPath(Object(m), [KeyLeg(WildcardKey)]);
      var keys := SortedKeys(m);
      |r| == |m| && forall i :: 0 <= i < |keys| ==> r[i] == m[keys[i]]
  {
    var keys := SortedKeys(m);
    var legs := [KeyLeg(WildcardKey)];
    assert legs[1..] == [];
    var ss := seq(|keys|, i requires 0 <= i < |keys| => ExtractPath(m[keys[i]], []));
    assert ExtractPath(Object(m), legs) == ExtractChildren(Object(m), []) == Concat(ss);
    ConcatSingletons(ss);
  }

  /**
   * Every node of the document in pre-order: the node, then each child's
   * nodes, children in index order or ascending key order.
   */
  function PreOrder(j: JSON): (r: seq<JSON>)
    decreases j
  {
    [j] +
    if j.Array? then
      Concat(seq(|j.arr|, i requires 0 <= i < |j.arr| => PreOrder(j.arr[i])))
    else if j.Object? then
      var keys := SortedKeys(j.obj);
      Concat(seq(|keys|, i requires 0 <= i < |keys| => PreOrder(j.obj[keys[i]])))
    else []
  }

  /** The path `$**` lists every node of the document in pre-order. */
  lemma {:induction false} DescentIsPreOrder(j: JSON)
    ensures ExtractPath(j, [DoubleAsteriskLeg]) == PreOrder(j)
    decreases j
  {
    var legs := [DoubleAsteriskLeg];
    assert legs[1..] == [];
    assert ExtractPath(j, legs) == [j] + ExtractChildren(j, legs);
    if j.Array? {
      var a := j.arr;
      var found := seq(|a|, i requires 0 <= i < |a| => ExtractPath(a[i], legs));
      var nodes := seq(|a|, i requires 0 <= i < |a| => PreOrder(a[i]));
      forall i | 0 <= i < |a|
        ensures found[i] == nodes[i]
      {
        DescentIsPreOrder(a[i]);
      }
      assert found == nodes;
      assert ExtractChildren(j, legs) == Concat(found);
      assert PreOrder(j) == [j] + Concat(nodes);
    } else if j.Object? {
      var m := j.obj;
      var keys := SortedKeys(m);
      var found := seq(|keys|, i requires 0 <= i < |keys| => ExtractPath(m[keys[i]], legs));
      var nodes := seq(|keys|, i requires 0 <= i < |keys| => PreOrder(m[keys[i]]));
      forall i | 0 <= i < |keys|
        ensures found[i] == nodes[i]
      {
        DescentIsPreOrder(m[keys[i]]);
      }
      assert found == nodes;
      assert ExtractChildren(j, legs) == Concat(found);
      assert PreOrder(j) == [j] + Concat(nodes);
    }
  }

  // ---------------------------------------------------------------------------
  // JSON_EXTRACT over several paths.

  /** The matches of every path, in path order, then match order. */
  function Matches(j: JSON, paths: seq<Path>): (r: seq<JSON>)
    decreases |paths|
  {
    if paths == [] then []
    else Matches(j, paths[..|paths| - 1]) + ExtractPath(j, paths[|paths| - 1])
  }

  lemma {:induction false} MatchesAppend(j: JSON, ps: seq<Path>, qs: seq<Path>)
    ensures Matches(j, ps + qs) == Matches(j, ps) + Matches(j, qs)
    decreases |qs|
  {
    if qs == [] {
      assert ps + qs == ps;
    } else {
      var n := |qs| - 1;
      assert (ps + qs)[..|ps + qs| - 1] == ps + qs[..n];
      MatchesAppend(j, ps, qs[..n]);
    }
  }

  /** Some value is matched exactly when some path selects some value. */
  lemma {:induction false} MatchesFound(j: JSON, paths: seq<Path>)
    ensures Matches(j, paths) != [] <==>
      exists p, x :: p in paths && Selects(j, p, x)
    decreases |paths|
  {
    if paths != [] {
      var n := |paths| - 1;
      var init, last := paths[..n], paths[n];
      MatchesFound(j, init);
      var r := ExtractPath(j, last);
      if r != [] {
        ExtractSelects(j, last, r[0]);
      }
      if exists p, x :: p in paths && Selects(j, p, x) {
        var p, x :| p in paths && Selects(j, p, x);
        ExtractSelects(j, p, x);
        if p != last {
          var i :| 0 <= i < |paths| && paths[i] == p;
          assert p in init;
        }
      }
      if exists p, x :: p in init && Selects(j, p, x) {
        var p, x :| p in init && Selects(j, p, x);
        assert p in paths;
      }
    }
  }

  /**
   * JSON_EXTRACT: no match gives None (found = false); one path with one
   * match gives that match unwrapped; anything else gives the matches
   * wrapped in a new array.
   */
  method Extract(j: JSON, paths: seq<Path>) returns (ret: Option<JSON>)
    ensures ret.None? <==> Matches(j, paths) == []
    ensures |paths| == 1 && |Matches(j, paths)| == 1 ==> ret == Some(Matches(j, paths)[0])
    ensures Matches(j, paths) != [] && !(|paths| == 1 && |Matches(j, paths)| == 1) ==>
      ret == Some(Array(Matches(j, paths)))
  {
    var elems: seq<JSON> := [];
    var i := 0;
    while i < |paths|
      invariant 0 <= i <= |paths|
      invariant elems == Matches(j, paths[..i])
    {
      assert paths[..i + 1][..i] == paths[..i];
      elems := elems + ExtractPath(j, paths[i]);
      i := i + 1;
    }
    assert paths[..i] == paths;
    if |elems| == 0 {
      ret := None;
    } else if |paths| == 1 && |elems| == 1 {
      ret := Some(elems[0]);
    } else {
      ret := Some(Array(elems));
    }
  }

  /** One wildcard-free path that resolves: Extract returns the value itself. */
  lemma SinglePathUnwrapped(j: JSON, p: Path)
    requires !ContainsAnyAsterisk(p) && Lookup(j, p).Some?
    ensures Matches(j, [p]) == [Lookup(j, p).value]
  {
    ExtractWithoutAsterisk(j, p);
    assert [p][..0] == [];
  }

  // ---------------------------------------------------------------------------
  // Worked examples.

  /** `$.*` over {"b": 1, "a": 2} gives [2, 1]: the member of "a" first. */
  lemma KeyWildcardExample()
    ensures var j := Object(map[[0x62] := Int64(1), [0x61] := Int64(2)]);
      Matches(j, [[KeyLeg(WildcardKey)]]) == [Int64(2), Int64(1)]
  {
    var m := map[[0x62] := Int64(1), [0x61] := Int64(2)];
    var keys: seq<Key> := [[0x61], [0x62]];
    assert KeyLess(keys[0], keys[1]);
    SortedUnique(SortedKeys(m), keys);
    KeyWildcardInKeyOrder(m);
    var paths := [[KeyLeg(WildcardKey)]];
    assert paths[..0] == [];
  }

  /** A one-member object's children contribute that member's matches. */
  lemma OneMemberChildren(k: Key, c: JSON, legs: Path)
    ensures ExtractChildren(Object(map[k := c]), legs) == ExtractPath(c, legs)
  {
    var m := map[k := c];
    var keys := SortedKeys(m);
    assert keys == [k];
    var ss := seq(|keys|, i requires 0 <= i < |keys| => ExtractPath(m[keys[i]], legs));
    assert ExtractChildren(Object(m), legs) == Concat(ss);
    assert ss == [ExtractPath(c, legs)];
    assert Concat(ss) == ss[0] + Concat(ss[1..]) == ss[0] + [];
  }

  /** `**` then a key matches nothing in a scalar. */
  lemma ScalarDescent(x: JSON, k: Key)
    requires !x.Array? && !x.Object?
    ensures ExtractPath(x, [DoubleAsteriskLeg, KeyLeg(k)]) == []
  {
    var legs := [DoubleAsteriskLeg, KeyLeg(k)];
    assert legs[1..] == [KeyLeg(k)];
    assert ExtractPath(x, legs) == ExtractPath(x, [KeyLeg(k)]) + ExtractChildren(x, legs);
  }

  /** `$**.b` over {"b": n} gives [n]. */
  lemma OneMemberDescent(n: int64)
    ensures ExtractPath(Object(map[[0x62] := Int64(n)]), [DoubleAsteriskLeg, KeyLeg([0x62])]) == [Int64(n)]
  {
    var b: Key := [0x62];
    var legs := [DoubleAsteriskLeg, KeyLeg(b)];
    var inner := Object(map[b := Int64(n)]);
    assert legs[1..] == [KeyLeg(b)];
    assert ExtractPath(inner, [KeyLeg(b)]) == [Int64(n)] by {
      assert [KeyLeg(b)][1..] == [];
      assert ExtractPath(inner, [KeyLeg(b)]) == ExtractPath(Int64(n), []);
    }
    assert ExtractChildren(inner, legs) == [] by {
      ScalarDescent(Int64(n), b);
      OneMemberChildren(b, Int64(n), legs);
    }
    assert ExtractPath(inner, legs) == ExtractPath(inner, [KeyLeg(b)]) + ExtractChildren(inner, legs);
  }

  /** `$**.b` over {"a": {"b": 1}} gives [1]. */
  lemma DescentThroughObject()
    ensures ExtractPath(Object(map[[0x61] := Object(map[[0x62] := Int64(1)])]), [DoubleAsteriskLeg, KeyLeg([0x62])])
      == [Int64(1)]
  {
    var b: Key := [0x62];
    var legs := [DoubleAsteriskLeg, KeyLeg(b)];
    var outer := Object(map[[0x61] := Object(map[b := Int64(1)])]);
    assert legs[1..] == [KeyLeg(b)];
    OneMemberDescent(1);
    OneMemberChildren([0x61], Object(map[b := Int64(1)]), legs);
    assert ExtractPath(outer, [KeyLeg(b)]) == [];
    assert ExtractPath(outer, legs) == ExtractPath(outer, [KeyLeg(b)]) + ExtractChildren(outer, legs);
  }

  /** `$**.b` over [1, {"b": 2}] gives [2]. */
  lemma DescentThroughArray()
    ensures ExtractPath(Array([Int64(1), Object(map[[0x62] := Int64(2)])]), [DoubleAsteriskLeg, KeyLeg([0x62])])
      == [Int64(2)]
  {
    var b: Key := [0x62];
    var legs := [DoubleAsteriskLeg, KeyLeg(b)];
    var a := [Int64(1), Object(map[b := Int64(2)])];
    assert legs[1..] == [KeyLeg(b)];
    OneMemberDescent(2);
    ScalarDescent(Int64(1), b);
    var ss := seq(|a|, i requires 0 <= i < |a| => ExtractPath(a[i], legs));
    assert ss == [[], [Int64(2)]];
    assert ExtractChildren(Array(a), legs) == Concat(ss);
    assert ss[1..] == [[Int64(2)]] && ss[1..][1..] == [];
    assert Concat(ss[1..]) == [Int64(2)] + Concat(ss[1..][1..]) == [Int64(2)];
    assert Concat(ss) == ss[0] + Concat(ss[1..]);
    assert ExtractPath(Array(a), [KeyLeg(b)]) == [];
    assert ExtractPath(Array(a), legs) == ExtractPath(Array(a), [KeyLeg(b)]) + ExtractChildren(Array(a), legs);
  }
}
