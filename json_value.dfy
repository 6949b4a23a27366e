// The JSON value tree of TiDB's JSON_* SQL functions, its type names, and the
// sorted key order used when object members are traversed.

module JsonValue {

  /** A byte of a Go string. */
  newtype byte = b: int | 0 <= b < 256

  /** Go's int64, carried without arithmetic. */
  type int64 = x: int | -0x8000_0000_0000_0000 <= x < 0x8000_0000_0000_0000

  /** Object keys and string payloads are Go strings, i.e. byte sequences. */
  type Key = seq<byte>

  datatype Option<T> = None | Some(value: T)

  datatype Result<T, E> = Ok(value: T) | Err(error: E)

  /** Marker byte of the null literal; every other literal byte is a boolean. */
  const LiteralNil: byte := 0x00

  /**
   * One JSON value: exactly one variant is active. Null and the booleans share
   * the Literal variant and are told apart by its marker byte. A double is
   * carried as its IEEE-754 bit pattern and never computed with.
   */
  datatype JSON =
    | Object(obj: map<Key, JSON>)
    | Array(arr: seq<JSON>)
    | Literal(lit: byte)
    | Int64(i64: int64)
    | Float64(bits: bv64)
    | String(str: seq<byte>)

  /** The type name reported by JSON_TYPE. */
  function TypeName(j: JSON): (r: string)
    ensures r in {"OBJECT", "ARRAY", "NULL", "BOOLEAN", "INTEGER", "DOUBLE", "STRING"}
    ensures r == "NULL" <==> j == Literal(LiteralNil)
    ensures r == "BOOLEAN" <==> j.Literal? && j.lit != LiteralNil
    ensures (r == "OBJECT" <==> j.Object?) && (r == "ARRAY" <==> j.Array?)
    ensures (r == "INTEGER" <==> j.Int64?) && (r == "DOUBLE" <==> j.Float64?)
    ensures r == "STRING" <==> j.String?
  {
    match j
    case Object(_) => "OBJECT"
    case Array(_) => "ARRAY"
    case Literal(b) => if b == LiteralNil then "NULL" else "BOOLEAN"
    case Int64(_) => "INTEGER"
    case Float64(_) => "DOUBLE"
    case String(_) => "STRING"
  }

  // ---------------------------------------------------------------------------
  // Bytewise lexicographic order on keys (the order of Go's sort.Strings).

  /** a sorts strictly before b. */
  predicate KeyLess(a: Key, b: Key)
    decreases |a|
  {
    |b| > 0 && (|a| == 0 || a[0] < b[0] || (a[0] == b[0] && KeyLess(a[1..], b[1..])))
  }

  lemma {:induction false} KeyLessIrreflexive(a: Key)
    ensures !KeyLess(a, a)
    decreases |a|
  {
    if |a| > 0 {
      KeyLessIrreflexive(a[1..]);
    }
  }

  lemma {:induction false} KeyLessTransitive(a: Key, b: Key, c: Key)
    requires KeyLess(a, b) && KeyLess(b, c)
    ensures KeyLess(a, c)
    decreases |a|
  {
    if |a| > 0 && a[0] == b[0] && b[0] == c[0] {
      KeyLessTransitive(a[1..], b[1..], c[1..]);
    }
  }

  lemma {:induction false} KeyLessTotal(a: Key, b: Key)
    requires a != b
    ensures KeyLess(a, b) || KeyLess(b, a)
    decreases |a|
  {
    if |a| > 0 && |b| > 0 && a[0] == b[0] {
      assert a == [a[0]] + a[1..] && b == [b[0]] + b[1..];
      KeyLessTotal(a[1..], b[1..]);
    }
  }

  lemma {:induction false} KeyLessAsymmetric(a: Key, b: Key)
    requires KeyLess(a, b)
    ensures !KeyLess(b, a)
  {
    if KeyLess(b, a) {
      KeyLessTransitive(a, b, a);
      KeyLessIrreflexive(a);
    }
  }

  /** k is the least element of s. */
  predicate IsLeast(k: Key, s: set<Key>) {
    k in s && forall k' :: k' in s && k' != k ==> KeyLess(k, k')
  }

  lemma {:induction false} LeastExists(s: set<Key>)
    requires s != {}
    ensures exists k :: IsLeast(k, s)
    decreases |s|
  {
    var x :| x in s;
    if s == {x} {
      assert IsLeast(x, s);
    } else {
      LeastExists(s - {x});
      var m :| IsLeast(m, s - {x});
      if KeyLess(m, x) {
        assert IsLeast(m, s);
      } else {
        KeyLessTotal(m, x);
        forall k' | k' in s && k' != x
          ensures KeyLess(x, k')
        {
          if k' != m {
            KeyLessTransitive(x, m, k');
          }
        }
        assert IsLeast(x, s);
      }
    }
  }

  lemma LeastUnique(s: set<Key>)
    ensures forall a, b :: IsLeast(a, s) && IsLeast(b, s) ==> a == b
  {
    forall a, b | IsLeast(a, s) && IsLeast(b, s)
      ensures a == b
    {
      if a != b {
        KeyLessAsymmetric(a, b);
      }
    }
  }

  /** The sequence is in strictly ascending key order (hence duplicate-free). */
  predicate StrictlySorted(ks: seq<Key>) {
    forall i, j :: 0 <= i < j < |ks| ==> KeyLess(ks[i], ks[j])
  }

  /** The elements of s in ascending key order. */
  function SortSet(s: set<Key>): (ks: seq<Key>)
    ensures StrictlySorted(ks)
    ensures |ks| == |s|
    ensures forall k :: k in ks <==> k in s
    decreases |s|
  {
    if s == {} then []
    else
      LeastExists(s);
      LeastUnique(s);
      var k :| IsLeast(k, s);
      var rest := SortSet(s - {k});
      assert forall i :: 0 <= i < |rest| ==> rest[i] in rest && rest[i] in s - {k} && KeyLess(k, rest[i]);
      [k] + rest
  }

  /** The keys of an object in ascending key order: the traversal order of wildcards. */
  function SortedKeys(m: map<Key, JSON>): (ks: seq<Key>)
    ensures StrictlySorted(ks)
    ensures |ks| == |m|
    ensures forall k :: k in ks <==> k in m
  {
    SortSet(m.Keys)
  }

  /** The first element of a strictly sorted sequence is its least element. */
  lemma HeadIsLeast(xs: seq<Key>)
    requires StrictlySorted(xs) && xs != []
    ensures IsLeast(xs[0], set k | k in xs)
  {
    forall k' | k' in xs && k' != xs[0]
      ensures KeyLess(xs[0], k')
    {
      var i :| 0 <= i < |xs| && xs[i] == k';
    }
  }

  /** A strictly sorted sequence is determined by its elements. */
  lemma {:induction false} SortedUnique(xs: seq<Key>, ys: seq<Key>)
    requires StrictlySorted(xs) && StrictlySorted(ys)
    requires forall k :: k in xs <==> k in ys
    ensures xs == ys
    decreases |xs|
  {
    if xs != [] {
      assert xs[0] in ys;
    }
    if ys != [] {
      assert ys[0] in xs;
    }
    if xs != [] && ys != [] {
      var elems := set k | k in xs;
      assert elems == set k | k in ys;
      HeadIsLeast(xs);
      HeadIsLeast(ys);
      LeastUnique(elems);
      KeyLessIrreflexive(xs[0]);
      forall k
        ensures k in xs[1..] <==> k in ys[1..]
      {
        if k in xs[1..] {
          var i :| 0 <= i < |xs[1..]| && xs[1..][i] == k;
          assert KeyLess(xs[0], xs[i + 1]);
          assert k in ys && k != ys[0];
          var i' :| 0 <= i' < |ys| && ys[i'] == k;
          assert ys[1..][i' - 1] == k;
        }
        if k in ys[1..] {
          var i :| 0 <= i < |ys[1..]| && ys[1..][i] == k;
          assert KeyLess(ys[0], ys[i + 1]);
          assert k in xs && k != xs[0];
          var i' :| 0 <= i' < |xs| && xs[i'] == k;
          assert xs[1..][i' - 1] == k;
        }
      }
      SortedUnique(xs[1..], ys[1..]);
    }
  }

  // ---------------------------------------------------------------------------
  // The sub-value relation.

  /** d is j itself or lies somewhere below j. */
  ghost predicate IsDescendant(j: JSON, d: JSON)
    decreases j
  {
    d == j
    || (j.Array? && exists i :: 0 <= i < |j.arr| && IsDescendant(j.arr[i], d))
    || (j.Object? && exists k :: k in j.obj && IsDescendant(j.obj[k], d))
  }
}
