// JSON_INSERT, JSON_REPLACE and JSON_SET: path-directed rewriting of a value
// under a modify policy.

module JsonModify {
  import opened JsonValue
  import opened JsonPath
  import JsonExtract

  /** The modify policy, a bit set: insert new members or elements, replace existing ones. */
  type ModifyType = bv8

  const ModifyInsert: ModifyType := 0x01
  const ModifyReplace: ModifyType := 0x02
  const ModifySet: ModifyType := 0x03

  predicate CanInsert(mt: ModifyType) { mt & ModifyInsert != 0 }
  predicate CanReplace(mt: ModifyType) { mt & ModifyReplace != 0 }

  datatype SetError =
    | IncorrectParameterCount  // as many values as paths are required
    | InvalidPathExpression    // a path contains `*`, `[*]` or `**`

  /**
   * set: the value j after writing v at the path. An existing index or key
   * is descended into only when replacing is allowed. Otherwise, at the last
   * leg and when inserting is allowed, an array gets v appended at its end
   * whatever the index, and an object gets the key written, existing or not.
   * Anything else leaves j as it is.
   */
  function Set(j: JSON, legs: Path, v: JSON, mt: ModifyType): (r: JSON)
    requires !ContainsAnyAsterisk(legs)
    ensures legs != [] ==> (r.Array? <==> j.Array?) && (r.Object? <==> j.Object?)
    ensures legs != [] && !(j.Array? || j.Object?) ==> r == j
    ensures legs != [] && j.Array? ==> |r.arr| == |j.arr| || r.arr == j.arr + [v]
    ensures legs != [] && j.Object? ==> j.obj.Keys <= r.obj.Keys && |r.obj.Keys - j.obj.Keys| <= 1
    decreases |legs|
  {
    if legs == [] then v
    else
      NoAsteriskTail(legs);
      var sub := legs[1..];
      match legs[0]
      case IndexLeg(idx) =>
        if !j.Array? then j
        else if idx.n < |j.arr| && CanReplace(mt) then
          Array(j.arr[idx.n := Set(j.arr[idx.n], sub, v, mt)])
        else if sub == [] && CanInsert(mt) then Array(j.arr + [v])
        else j
      case KeyLeg(k) =>
        if !j.Object? then j
        else if k in j.obj && CanReplace(mt) then
          Object(j.obj[k := Set(j.obj[k], sub, v, mt)])
        else if sub == [] && CanInsert(mt) then Object(j.obj[k := v])
        else j
      case DoubleAsteriskLeg => j
  }

  /** No path of the list contains a wildcard. */
  predicate NoAsterisks(paths: seq<Path>) {
    forall i :: 0 <= i < |paths| ==> !ContainsAnyAsterisk(paths[i])
  }

  /** The path-value pairs applied in order, each to the previous result. */
  function SetAll(j: JSON, paths: seq<Path>, values: seq<JSON>, mt: ModifyType): JSON
    requires |paths| == |values| && NoAsterisks(paths)
    decreases |paths|
  {
    if paths == [] then j else SetAll(Set(j, paths[0], values[0], mt), paths[1..], values[1..], mt)
  }

  /** The position of the first path with a wildcard, or the number of paths. */
  function FirstAsterisk(paths: seq<Path>): (k: nat)
    ensures k <= |paths|
    ensures NoAsterisks(paths[..k])
    ensures k < |paths| ==> ContainsAnyAsterisk(paths[k])
    decreases |paths|
  {
    if paths == [] || ContainsAnyAsterisk(paths[0]) then 0 else 1 + FirstAsterisk(paths[1..])
  }

  lemma {:induction false} SetAllSnoc(j: JSON, paths: seq<Path>, values: seq<JSON>, mt: ModifyType, p: Path, v: JSON)
    requires |paths| == |values| && NoAsterisks(paths)
    requires !ContainsAnyAsterisk(p)
    ensures SetAll(j, paths + [p], values + [v], mt) == Set(SetAll(j, paths, values, mt), p, v, mt)
    decreases |paths|
  {
    if paths == [] {
      assert paths + [p] == [p] && values + [v] == [v];
    } else {
      assert (paths + [p])[1..] == paths[1..] + [p];
      assert (values + [v])[1..] == values[1..] + [v];
      SetAllSnoc(Set(j, paths[0], values[0], mt), paths[1..], values[1..], mt, p, v);
    }
  }

  /**
   * SetInsertReplace: rewrites j (here: returns the new j). Unequal counts
   * fail before any change; a wildcard path fails after the pairs before it
   * have been applied.
   */
  method SetInsertReplace(j: JSON, paths: seq<Path>, values: seq<JSON>, mt: ModifyType)
    returns (r: JSON, err: Option<SetError>)
    ensures |paths| != |values| ==> r == j && err == Some(IncorrectParameterCount)
    ensures |paths| == |values| ==>
      var k := FirstAsterisk(paths);
      && r == SetAll(j, paths[..k], values[..k], mt)
      && (err == None <==> k == |paths|)
      && (err != None ==> err == Some(InvalidPathExpression))
  {
    r := j;
    if |paths| != |values| {
      return r, Some(IncorrectParameterCount);
    }
    var i := 0;
    while i < |paths|
      invariant 0 <= i <= |paths|
      invariant NoAsterisks(paths[..i])
      invariant r == SetAll(j, paths[..i], values[..i], mt)
    {
      if ContainsAnyAsterisk(paths[i]) {
        FirstAsteriskAt(paths, i);
        return r, Some(InvalidPathExpression);
      }
      SetAllPrefix(j, paths, values, mt, i);
      r := Set(r, paths[i], values[i], mt);
      i := i + 1;
    }
    FirstAsteriskAt(paths, i);
    err := None;
  }

  lemma SetAllPrefix(j: JSON, paths: seq<Path>, values: seq<JSON>, mt: ModifyType, i: nat)
    requires i < |paths| == |values|
    requires NoAsterisks(paths[..i]) && !ContainsAnyAsterisk(paths[i])
    ensures NoAsterisks(paths[..i + 1])
    ensures SetAll(j, paths[..i + 1], values[..i + 1], mt)
      == Set(SetAll(j, paths[..i], values[..i], mt), paths[i], values[i], mt)
  {
    var done, given := paths[..i], values[..i];
    assert paths[..i + 1] == done + [paths[i]];
    assert values[..i + 1] == given + [values[i]];
    SetAllSnoc(j, done, given, mt, paths[i], values[i]);
  }

  lemma {:induction false} FirstAsteriskAt(paths: seq<Path>, i: nat)
    requires i <= |paths|
    requires NoAsterisks(paths[..i])
    requires i < |paths| ==> ContainsAnyAsterisk(paths[i])
    ensures FirstAsterisk(paths) == i
    decreases i
  {
    if i > 0 {
      assert paths[0] == paths[..i][0];
      assert paths[1..][..i - 1] == paths[..i][1..];
      FirstAsteriskAt(paths[1..], i - 1);
    }
  }

  // ---------------------------------------------------------------------------
  // What a rewrite does, stated through Lookup.

  lemma NoAsteriskSnoc(prefix: Path, leg: Leg)
    requires !ContainsAnyAsterisk(prefix) && !IsAsterisk(leg)
    ensures !ContainsAnyAsterisk(prefix + [leg])
  {
    assert forall i :: 0 <= i < |prefix| ==> (prefix + [leg])[i] == prefix[i];
    assert (prefix + [leg])[|prefix|] == leg;
  }

  /** With replacing allowed, an existing target ends up holding the new value. */
  lemma {:induction false} SetReplacesExisting(j: JSON, legs: Path, v: JSON, mt: ModifyType)
    requires !ContainsAnyAsterisk(legs) && CanReplace(mt) && Lookup(j, legs).Some?
    ensures Lookup(Set(j, legs, v, mt), legs) == Some(v)
    decreases |legs|
  {
    if legs != [] {
      NoAsteriskTail(legs);
      match legs[0]
      case IndexLeg(idx) =>
        SetReplacesExisting(j.arr[idx.n], legs[1..], v, mt);
      case KeyLeg(k) =>
        SetReplacesExisting(j.obj[k], legs[1..], v, mt);
    }
  }

  /** Without inserting allowed, a missing target leaves the value unchanged. */
  lemma {:induction false} SetSkipsMissing(j: JSON, legs: Path, v: JSON, mt: ModifyType)
    requires !ContainsAnyAsterisk(legs) && !CanInsert(mt) && Lookup(j, legs).None?
    ensures Set(j, legs, v, mt) == j
    decreases |legs|
  {
    if legs != [] {
      NoAsteriskTail(legs);
      var sub := legs[1..];
      match legs[0]
      case IndexLeg(idx) =>
        if j.Array? && idx.n < |j.arr| && CanReplace(mt) {
          SetSkipsMissing(j.arr[idx.n], sub, v, mt);
          assert j.arr[idx.n := j.arr[idx.n]] == j.arr;
        }
      case KeyLeg(k) =>
        if j.Object? && k in j.obj && CanReplace(mt) {
          SetSkipsMissing(j.obj[k], sub, v, mt);
          assert j.obj[k := j.obj[k]] == j.obj;
        }
    }
  }

  /**
   * Without replacing allowed nothing is descended into, so a path of two or
   * more legs leaves the value unchanged.
   */
  lemma SetWithoutReplaceIsShallow(j: JSON, legs: Path, v: JSON, mt: ModifyType)
    requires !ContainsAnyAsterisk(legs) && !CanReplace(mt) && |legs| >= 2
    ensures Set(j, legs, v, mt) == j
  {
    NoAsteriskTail(legs);
  }

  /**
   * Inserting at an index of an array appends the value at the end, unless
   * the index exists and replacing is allowed. Reaching the array through a
   * non-empty prefix needs replacing allowed.
   */
  lemma {:induction false} SetInsertAppends(j: JSON, prefix: Path, n: nat, v: JSON, mt: ModifyType)
    requires !ContainsAnyAsterisk(prefix) && CanInsert(mt) && (prefix == [] || CanReplace(mt))
    requires Lookup(j, prefix).Some? && Lookup(j, prefix).value.Array?
    requires var a := Lookup(j, prefix).value.arr; !(n < |a| && CanReplace(mt))
    ensures !ContainsAnyAsterisk(prefix + [IndexLeg(At(n))])
    ensures Lookup(Set(j, prefix + [IndexLeg(At(n))], v, mt), prefix)
      == Some(Array(Lookup(j, prefix).value.arr + [v]))
    decreases |prefix|
  {
    var leg := IndexLeg(At(n));
    NoAsteriskSnoc(prefix, leg);
    var legs := prefix + [leg];
    if prefix == [] {
      assert legs == [leg] && legs[1..] == [];
    } else {
      NoAsteriskTail(prefix);
      NoAsteriskTail(legs);
      assert legs[0] == prefix[0] && legs[1..] == prefix[1..] + [leg];
      match prefix[0]
      case IndexLeg(idx) =>
        SetInsertAppends(j.arr[idx.n], prefix[1..], n, v, mt);
      case KeyLeg(k) =>
        SetInsertAppends(j.obj[k], prefix[1..], n, v, mt);
    }
  }

  /**
   * Inserting a key into an object writes it, whether or not it exists,
   * unless it exists and replacing is allowed (then the member is replaced).
   */
  lemma {:induction false} SetInsertWritesKey(j: JSON, prefix: Path, k: Key, v: JSON, mt: ModifyType)
    requires !ContainsAnyAsterisk(prefix) && k != WildcardKey
    requires CanInsert(mt) && (prefix == [] || CanReplace(mt))
    requires Lookup(j, prefix).Some? && Lookup(j, prefix).value.Object?
    requires var m := Lookup(j, prefix).value.obj; !(k in m && CanReplace(mt))
    ensures !ContainsAnyAsterisk(prefix + [KeyLeg(k)])
    ensures Lookup(Set(j, prefix + [KeyLeg(k)], v, mt), prefix)
      == Some(Object(Lookup(j, prefix).value.obj[k := v]))
    decreases |prefix|
  {
    var leg := KeyLeg(k);
    NoAsteriskSnoc(prefix, leg);
    var legs := prefix + [leg];
    if prefix == [] {
      assert legs == [leg] && legs[1..] == [];
    } else {
      NoAsteriskTail(prefix);
      NoAsteriskTail(legs);
      assert legs[0] == prefix[0] && legs[1..] == prefix[1..] + [leg];
      match prefix[0]
      case IndexLeg(idx) =>
        SetInsertWritesKey(j.arr[idx.n], prefix[1..], k, v, mt);
      case KeyLeg(key) =>
        SetInsertWritesKey(j.obj[key], prefix[1..], k, v, mt);
    }
  }

  /** Neither path is a prefix of the other: they part at some leg. */
  predicate Diverge(p: Path, q: Path)
    decreases |p|
  {
    |p| > 0 && |q| > 0 && (p[0] != q[0] || Diverge(p[1..], q[1..]))
  }

  /** A rewrite at one path leaves every existing value at a diverging path as it was. */
  lemma {:induction false} SetFrame(j: JSON, p: Path, v: JSON, mt: ModifyType, q: Path)
    requires !ContainsAnyAsterisk(p) && Diverge(p, q) && Lookup(j, q).Some?
    ensures Lookup(Set(j, p, v, mt), q) == Lookup(j, q)
    decreases |p|
  {
    NoAsteriskTail(p);
    var r := Set(j, p, v, mt);
    if p[0] == q[0] {
      match p[0]
      case IndexLeg(idx) =>
        if idx.n < |j.arr| && CanReplace(mt) {
          SetFrame(j.arr[idx.n], p[1..], v, mt, q[1..]);
        }
      case KeyLeg(k) =>
        if k in j.obj && CanReplace(mt) {
          SetFrame(j.obj[k], p[1..], v, mt, q[1..]);
        }
    } else {
      match q[0]
      case IndexLeg(idx) =>
        assert r.arr[idx.n] == j.arr[idx.n];
      case KeyLeg(k) =>
        assert r.obj[k] == j.obj[k];
    }
  }

  /** The value x has the kind the leg steps into: an array for an index, an object for a key. */
  predicate FitsLeg(x: JSON, leg: Leg) {
    match leg
    case IndexLeg(_) => x.Array?
    case KeyLeg(_) => x.Object?
    case DoubleAsteriskLeg => false
  }

  /**
   * When the last leg's parent is missing, or is not the kind of value that
   * leg steps into, the rewrite leaves the value unchanged, whatever the policy.
   */
  lemma {:induction false} SetUnreachableParent(j: JSON, legs: Path, v: JSON, mt: ModifyType)
    requires !ContainsAnyAsterisk(legs) && legs != []
    requires var parent := Lookup(j, legs[..|legs| - 1]);
      parent.None? || !FitsLeg(parent.value, legs[|legs| - 1])
    ensures Set(j, legs, v, mt) == j
    decreases |legs|
  {
    NoAsteriskTail(legs);
    var sub := legs[1..];
    if sub == [] {
      assert legs[..|legs| - 1] == [];
    } else {
      assert legs[..|legs| - 1][1..] == sub[..|sub| - 1];
      assert legs[|legs| - 1] == sub[|sub| - 1];
      match legs[0]
      case IndexLeg(idx) =>
        if j.Array? && idx.n < |j.arr| && CanReplace(mt) {
          SetUnreachableParent(j.arr[idx.n], sub, v, mt);
          assert j.arr[idx.n := j.arr[idx.n]] == j.arr;
        }
      case KeyLeg(k) =>
        if j.Object? && k in j.obj && CanReplace(mt) {
          SetUnreachableParent(j.obj[k], sub, v, mt);
          assert j.obj[k := j.obj[k]] == j.obj;
        }
    }
  }

  /** A leg of the wrong kind, or a path through a missing key, changes nothing. */
  lemma UnreachableExamples(m: map<Key, JSON>, v: JSON)
    requires [0x61] !in m
    ensures Set(Object(m), [IndexLeg(At(0))], v, ModifySet) == Object(m)
    ensures Set(Object(m), [KeyLeg([0x61]), KeyLeg([0x62])], v, ModifySet) == Object(m)
  {
    var one := [IndexLeg(At(0))];
    var two := [KeyLeg([0x61]), KeyLeg([0x62])];
    assert !ContainsAnyAsterisk(one) by {
      assert forall i :: 0 <= i < |one| ==> one[i] == IndexLeg(At(0));
    }
    assert !ContainsAnyAsterisk(two) by {
      assert forall i :: 0 <= i < |two| ==> two[i] == KeyLeg([0x61]) || two[i] == KeyLeg([0x62]);
      assert [0x61] != WildcardKey && [0x62] != WildcardKey;
    }
    assert one[..0] == [];
    SetUnreachableParent(Object(m), one, v, ModifySet);
    assert two[..1] == [KeyLeg([0x61])] && two[..1][1..] == [];
    SetUnreachableParent(Object(m), two, v, ModifySet);
  }

  /** a and b are the same kind of value, with the same length or the same key set. */
  predicate SameShape(a: JSON, b: JSON) {
    && (a.Array? <==> b.Array?)
    && (a.Object? <==> b.Object?)
    && (a.Array? && b.Array? ==> |a.arr| == |b.arr|)
    && (a.Object? && b.Object? ==> a.obj.Keys == b.obj.Keys)
  }

  /** Rewriting through an existing first step keeps the root's shape. */
  lemma SetKeepsRootShape(j: JSON, p: Path, v: JSON, mt: ModifyType)
    requires !ContainsAnyAsterisk(p) && CanReplace(mt) && p != [] && Lookup(j, p[..1]).Some?
    ensures SameShape(j, Set(j, p, v, mt))
  {
    NoAsteriskTail(p);
    assert p[..1][0] == p[0] && p[..1][1..] == [];
  }

  /**
   * With replacing allowed, the rewrite writes only the one slot it reaches:
   * every value on the way to an existing step of the path keeps its kind,
   * its length and its key set, so no ancestor gains or loses a member.
   */
  lemma {:induction false} SetKeepsAncestors(j: JSON, p: Path, v: JSON, mt: ModifyType, n: nat)
    requires !ContainsAnyAsterisk(p) && CanReplace(mt) && n < |p| && Lookup(j, p[..n + 1]).Some?
    ensures Lookup(j, p[..n]).Some? && Lookup(Set(j, p, v, mt), p[..n]).Some?
    ensures SameShape(Lookup(j, p[..n]).value, Lookup(Set(j, p, v, mt), p[..n]).value)
    decreases n
  {
    if n == 0 {
      assert p[..0] == [];
      assert p[..1] == p[..n + 1];
      SetKeepsRootShape(j, p, v, mt);
    } else {
      NoAsteriskTail(p);
      var sub := p[1..];
      var r := Set(j, p, v, mt);
      assert p[..n + 1][0] == p[0] && p[..n][0] == p[0];
      assert p[..n + 1][1..] == sub[..n];
      assert p[..n][1..] == sub[..n - 1];
      match p[0]
      case IndexLeg(idx) =>
        var c := j.arr[idx.n];
        assert Lookup(j, p[..n + 1]) == Lookup(c, sub[..n]);
        assert Lookup(j, p[..n]) == Lookup(c, sub[..n - 1]);
        assert r == Array(j.arr[idx.n := Set(c, sub, v, mt)]);
        assert Lookup(r, p[..n]) == Lookup(Set(c, sub, v, mt), sub[..n - 1]);
        SetKeepsAncestors(c, sub, v, mt, n - 1);
      case KeyLeg(k) =>
        var c := j.obj[k];
        assert Lookup(j, p[..n + 1]) == Lookup(c, sub[..n]);
        assert Lookup(j, p[..n]) == Lookup(c, sub[..n - 1]);
        assert r == Object(j.obj[k := Set(c, sub, v, mt)]);
        assert Lookup(r, p[..n]) == Lookup(Set(c, sub, v, mt), sub[..n - 1]);
        SetKeepsAncestors(c, sub, v, mt, n - 1);
    }
  }

  /**
   * Replacing an existing nested member $.a.b rewrites that one member and
   * nothing else: "a" gains no sibling of "b", the root no sibling of "a".
   */
  lemma ReplaceNestedMember(m: map<Key, JSON>, a: Key, b: Key, v: JSON, mt: ModifyType)
    requires a != WildcardKey && b != WildcardKey && CanReplace(mt)
    requires a in m && m[a].Object? && b in m[a].obj
    ensures var p := [KeyLeg(a), KeyLeg(b)];
      && !ContainsAnyAsterisk(p)
      && Set(Object(m), p, v, mt) == Object(m[a := Object(m[a].obj[b := v])])
  {
    var last := [KeyLeg(b)];
    var p := [KeyLeg(a), KeyLeg(b)];
    assert !ContainsAnyAsterisk(last) by {
      assert forall i :: 0 <= i < |last| ==> last[i] == KeyLeg(b);
    }
    assert !ContainsAnyAsterisk(p) by {
      assert forall i :: 0 <= i < |p| ==> p[i] == KeyLeg(a) || p[i] == KeyLeg(b);
    }
    var inner := m[a].obj;
    assert Set(Object(inner), last, v, mt) == Object(inner[b := v]) by {
      assert last[1..] == [];
    }
    assert p[0] == KeyLeg(a) && p[1..] == last;
  }

  /**
   * Replace-only with every target missing changes nothing and, with no
   * wildcard, reports no error.
   */
  lemma {:induction false} ReplaceOnlyMissingTargets(j: JSON, paths: seq<Path>, values: seq<JSON>, mt: ModifyType)
    requires |paths| == |values| && NoAsterisks(paths) && !CanInsert(mt)
    requires forall i :: 0 <= i < |paths| ==> Lookup(j, paths[i]).None?
    ensures SetAll(j, paths, values, mt) == j
    decreases |paths|
  {
    if paths != [] {
      SetSkipsMissing(j, paths[0], values[0], mt);
      ReplaceOnlyMissingTargets(j, paths[1..], values[1..], mt);
    }
  }

  /** After replacing an existing target, extracting its path gives exactly the new value. */
  lemma ReplaceThenExtract(j: JSON, legs: Path, v: JSON, mt: ModifyType)
    requires !ContainsAnyAsterisk(legs) && CanReplace(mt) && Lookup(j, legs).Some?
    ensures JsonExtract.ExtractPath(Set(j, legs, v, mt), legs) == [v]
  {
    SetReplacesExisting(j, legs, v, mt);
    JsonExtract.ExtractWithoutAsterisk(Set(j, legs, v, mt), legs);
  }
}
