// JSON_MERGE: folding suffix values into a base value under four rules:
// (1) adjacent arrays are concatenated, (2) adjacent objects are united with
// the later member winning, (3) a scalar is wrapped as a one-element array,
// (4) an object next to a non-object is wrapped as a one-element array.

module JsonMerge {
  import opened JsonValue

  /** Rule (3) for the base: an array or object stays, anything else is wrapped. */
  function Autowrap(j: JSON): (r: JSON)
    ensures r.Array? || r.Object?
    ensures j.Array? || j.Object? ==> r == j
  {
    if j.Array? || j.Object? then j else Array([j])
  }

  /**
   * Merging one suffix into an array or object base. An object base meeting
   * a non-object is first wrapped as [base] and the same suffix is merged
   * into that array.
   */
  function MergeStep(base: JSON, suffix: JSON): (r: JSON)
    requires base.Array? || base.Object?
    ensures r.Array? || r.Object?
    ensures r.Object? <==> base.Object? && suffix.Object?
    decreases base.Object?
  {
    if base.Array? then
      if suffix.Array? then Array(base.arr + suffix.arr) else Array(base.arr + [suffix])
    else if suffix.Object? then Object(base.obj + suffix.obj)
    else MergeStep(Array([base]), suffix)
  }

  /** Merging the suffixes one after another, in order, into an array or object. */
  function MergeFold(acc: JSON, suffixes: seq<JSON>): (r: JSON)
    requires acc.Array? || acc.Object?
    ensures r.Array? || r.Object?
    decreases |suffixes|
  {
    if suffixes == [] then acc else MergeFold(MergeStep(acc, suffixes[0]), suffixes[1..])
  }

  /** The value Merge leaves in j. */
  function MergeAll(j: JSON, suffixes: seq<JSON>): JSON {
    MergeFold(Autowrap(j), suffixes)
  }

  /** Merge: rewrites j (here: returns the new j) by folding in the suffixes. */
  method Merge(j: JSON, suffixes: seq<JSON>) returns (r: JSON)
    ensures r == MergeAll(j, suffixes)
  {
    r := j;
    if !(r.Array? || r.Object?) {
      r := Array([r]);
    }
    var i := 0;
    while i < |suffixes|
      invariant 0 <= i <= |suffixes|
      invariant r.Array? || r.Object?
      invariant MergeFold(r, suffixes[i..]) == MergeAll(j, suffixes)
      decreases |suffixes| - i, if r.Object? then 1 else 0
    {
      var suffix := suffixes[i];
      assert suffixes[i..][1..] == suffixes[i + 1..];
      if r.Array? {
        if suffix.Array? {
          // rule (1)
          var elems := r.arr;
          var k := 0;
          while k < |suffix.arr|
            invariant 0 <= k <= |suffix.arr|
            invariant elems == r.arr + suffix.arr[..k]
          {
            elems := elems + [suffix.arr[k]];
            k := k + 1;
          }
          assert suffix.arr[..k] == suffix.arr;
          r := Array(elems);
        } else {
          // rules (3) and (4)
          r := Array(r.arr + [suffix]);
        }
        i := i + 1;
      } else if suffix.Object? {
        // rule (2)
        var members := r.obj;
        var todo := suffix.obj.Keys;
        while todo != {}
          invariant todo <= suffix.obj.Keys
          invariant members.Keys == r.obj.Keys + (suffix.obj.Keys - todo)
          invariant forall k :: k in members ==>
            members[k] == if k in suffix.obj && k !in todo then suffix.obj[k] else r.obj[k]
          decreases todo
        {
          var key :| key in todo;
          members := members[key := suffix.obj[key]];
          todo := todo - {key};
        }
        assert members == r.obj + suffix.obj;
        r := Object(members);
        i := i + 1;
      } else {
        // rule (4): wrap the object and merge the same suffix again
        r := Array([r]);
      }
    }
    assert suffixes[i..] == [];
  }

  // ---------------------------------------------------------------------------
  // What the fold produces.

  /** The elements each suffix adds to an array: its own elements, or itself. */
  function Spread(xs: seq<JSON>): seq<JSON>
    decreases |xs|
  {
    if xs == [] then [] else (if xs[0].Array? then xs[0].arr else [xs[0]]) + Spread(xs[1..])
  }

  /** The members of m overwritten, object by object in order, by the objects' members. */
  function UnionAll(m: map<Key, JSON>, xs: seq<JSON>): map<Key, JSON>
    requires forall i :: 0 <= i < |xs| ==> xs[i].Object?
    decreases |xs|
  {
    if xs == [] then m else UnionAll(m + xs[0].obj, xs[1..])
  }

  /** An array base collects, in order, every suffix's contribution. */
  lemma {:induction false} MergeIntoArray(a: seq<JSON>, xs: seq<JSON>)
    ensures MergeFold(Array(a), xs) == Array(a + Spread(xs))
    decreases |xs|
  {
    if xs == [] {
      assert a + [] == a;
    } else {
      var x := xs[0];
      var c := if x.Array? then x.arr else [x];
      assert MergeStep(Array(a), x) == Array(a + c);
      MergeIntoArray(a + c, xs[1..]);
      assert (a + c) + Spread(xs[1..]) == a + (c + Spread(xs[1..]));
    }
  }

  /** An object base merged with objects only is their member-wise union, later members winning. */
  lemma {:induction false} MergeObjects(m: map<Key, JSON>, xs: seq<JSON>)
    requires forall i :: 0 <= i < |xs| ==> xs[i].Object?
    ensures MergeFold(Object(m), xs) == Object(UnionAll(m, xs))
    decreases |xs|
  {
    if xs != [] {
      MergeObjects(m + xs[0].obj, xs[1..]);
    }
  }

  /**
   * An object base stays an object up to the first non-object suffix; there
   * the union so far is wrapped as the first element of an array and the
   * remaining suffixes, that one included, are collected into it.
   */
  lemma {:induction false} MergeObjectThenOther(m: map<Key, JSON>, xs: seq<JSON>, k: nat)
    requires k < |xs| && !xs[k].Object?
    requires forall i :: 0 <= i < k ==> xs[i].Object?
    ensures MergeFold(Object(m), xs) == Array([Object(UnionAll(m, xs[..k]))] + Spread(xs[k..]))
    decreases k
  {
    if k == 0 {
      var x := xs[0];
      var c := if x.Array? then x.arr else [x];
      assert MergeStep(Object(m), x) == Array([Object(m)] + c);
      MergeIntoArray([Object(m)] + c, xs[1..]);
      assert xs[0..] == xs && xs[..0] == [];
      assert ([Object(m)] + c) + Spread(xs[1..]) == [Object(m)] + (c + Spread(xs[1..]));
    } else {
      MergeObjectThenOther(m + xs[0].obj, xs[1..], k - 1);
      assert xs[1..][..k - 1] == xs[..k][1..];
      assert xs[1..][k - 1..] == xs[k..];
    }
  }

  /** Merging in two batches is merging in one: the fold is sequential. */
  lemma {:induction false} MergeSplit(j: JSON, xs: seq<JSON>, ys: seq<JSON>)
    ensures MergeAll(j, xs + ys) == MergeAll(MergeAll(j, xs), ys)
  {
    FoldSplit(Autowrap(j), xs, ys);
  }

  lemma {:induction false} FoldSplit(acc: JSON, xs: seq<JSON>, ys: seq<JSON>)
    requires acc.Array? || acc.Object?
    ensures MergeFold(acc, xs + ys) == MergeFold(MergeFold(acc, xs), ys)
    decreases |xs|
  {
    if xs == [] {
      assert xs + ys == ys;
    } else {
      assert (xs + ys)[1..] == xs[1..] + ys;
      FoldSplit(MergeStep(acc, xs[0]), xs[1..], ys);
    }
  }

  /** The four merge examples of the rules. */
  lemma MergeExamples()
    ensures MergeAll(Array([Int64(1), Int64(2)]), [Array([Int64(3)])]) == Array([Int64(1), Int64(2), Int64(3)])
    ensures MergeAll(Object(map[[0x61] := Int64(1)]), [Object(map[[0x61] := Int64(2), [0x62] := Int64(3)])])
      == Object(map[[0x61] := Int64(2), [0x62] := Int64(3)])
    ensures MergeAll(Object(map[[0x61] := Int64(1)]), [Int64(5)])
      == Array([Object(map[[0x61] := Int64(1)]), Int64(5)])
    ensures MergeAll(Int64(1), [Int64(2)]) == Array([Int64(1), Int64(2)])
  {
    assert map[[0x61] := Int64(1)] + map[[0x61] := Int64(2), [0x62] := Int64(3)]
        == map[[0x61] := Int64(2), [0x62] := Int64(3)];
  }
}
