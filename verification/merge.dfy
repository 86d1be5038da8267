// deepMerge of internal/config/editor_patch.go, over arbitrary JSON trees.

module DeepMerging {
  import opened GoText

  // A JSON value: an object, or anything else (scalars, arrays and null are replaced whole).
  datatype Json = Object(fields: map<string, Json>) | Leaf(text: string)

  function Merge(dst: Json, src: Json): (r: Json)
    requires dst.Object? && src.Object?
    ensures r.Object?
    decreases src
  {
    Object(map k | k in dst.fields.Keys + src.fields.Keys ::
      if k !in src.fields then dst.fields[k]
      else if k in dst.fields && dst.fields[k].Object? && src.fields[k].Object? then Merge(dst.fields[k], src.fields[k])
      else src.fields[k])
  }

  // The two loops of deepMerge, over maps in any order.
  method DeepMerge(dst: Json, src: Json) returns (merged: Json)
    requires dst.Object? && src.Object?
    ensures merged == Merge(dst, src)
    decreases src
  {
    var result: map<string, Json> := map[];
    var left := dst.fields.Keys;
    while left != {}
      invariant left <= dst.fields.Keys
      invariant result == map k | k in dst.fields && k !in left :: dst.fields[k]
      decreases left
    {
      var k :| k in left;
      result := result[k := dst.fields[k]];
      left := left - {k};
    }
    assert result == dst.fields;
    left := src.fields.Keys;
    while left != {}
      invariant left <= src.fields.Keys
      invariant result.Keys == dst.fields.Keys + (src.fields.Keys - left)
      invariant forall k :: k in dst.fields && (k in left || k !in src.fields) ==> result[k] == dst.fields[k]
      invariant forall k :: k in src.fields && k !in left ==> result[k] == Merge(dst, src).fields[k]
      decreases left
    {
      var k :| k in left;
      left := left - {k};
      var v := src.fields[k];
      if v.Object? {
        if k in result && result[k].Object? {
          var sub := DeepMerge(result[k], v);
          result := result[k := sub];
          continue;
        }
      }
      result := result[k := v];
    }
    merged := Object(result);
    assert result == Merge(dst, src).fields;
  }

  // ---------------------------------------------------------------- reading a path

  // The value at a path of keys; nothing if a key is missing or the path runs into a leaf.
  function At(v: Json, path: seq<string>): Option<Json>
    decreases |path|
  {
    if path == [] then Some(v)
    else if v.Leaf? || path[0] !in v.fields then None
    else At(v.fields[path[0]], path[1..])
  }

  // What the patch says about a path: it has a leaf at its end or on the way to it (then what is read is
  // the leaf, or nothing below it), it has an object at its end, or it has no key on the way.
  datatype Says = Sets(value: Option<Json>) | AnObject | Nothing

  function PatchSays(src: Json, path: seq<string>): Says
    decreases |path|
  {
    if src.Leaf? then Sets(At(src, path))
    else if path == [] then AnObject
    else if path[0] !in src.fields then Nothing
    else PatchSays(src.fields[path[0]], path[1..])
  }

  // Where the patch is silent the old value stays; where it sets a leaf on the path the patch is read;
  // where it has an object, the two objects are merged, or the patch's taken if there was no object.
  lemma {:induction false} PathsOfMerge(dst: Json, src: Json, path: seq<string>)
    requires dst.Object? && src.Object?
    ensures match PatchSays(src, path)
            case Sets(v) => At(Merge(dst, src), path) == v
            case AnObject =>
              && At(src, path).Some? && At(src, path).value.Object?
              && At(Merge(dst, src), path) == Some(
                   match At(dst, path)
                   case Some(was) => if was.Object? then Merge(was, At(src, path).value) else At(src, path).value
                   case None => At(src, path).value)
            case Nothing => At(Merge(dst, src), path) == At(dst, path)
    decreases |path|
  {
    if path != [] {
      var k, rest := path[0], path[1..];
      var merged := Merge(dst, src);
      if k !in src.fields {
        assert PatchSays(src, path) == Nothing;
        assert k in dst.fields ==> k in merged.fields && merged.fields[k] == dst.fields[k];
        assert At(merged, path) == At(dst, path);
      } else if src.fields[k].Object? && k in dst.fields && dst.fields[k].Object? {
        assert merged.fields[k] == Merge(dst.fields[k], src.fields[k]);
        PathsOfMerge(dst.fields[k], src.fields[k], rest);
      } else {
        assert merged.fields[k] == src.fields[k];
        assert At(merged, path) == At(src.fields[k], rest) && PatchSays(src, path) == PatchSays(src.fields[k], rest);
        assert At(src, path) == At(src.fields[k], rest);
        ObjectIsRead(src.fields[k], rest);
        if k in dst.fields {
          assert At(dst, path) == At(dst.fields[k], rest);
          assert dst.fields[k].Leaf? ==> At(dst.fields[k], rest) == if rest == [] then Some(dst.fields[k]) else None;
        } else {
          assert At(dst, path) == None;
        }
      }
    }
  }

  lemma {:induction false} ObjectIsRead(src: Json, path: seq<string>)
    ensures PatchSays(src, path).AnObject? ==> At(src, path).Some? && At(src, path).value.Object?
    ensures PatchSays(src, path).Nothing? ==> At(src, path) == None
    ensures PatchSays(src, path).Sets? ==> At(src, path) == PatchSays(src, path).value
    decreases |path|
  {
    if path != [] && src.Object? && path[0] in src.fields {
      ObjectIsRead(src.fields[path[0]], path[1..]);
    }
  }

  // ---------------------------------------------------------------- laws

  const EMPTY := Object(map[])

  lemma EmptyIsIdentity(a: Json)
    requires a.Object?
    ensures Merge(a, EMPTY) == a && Merge(EMPTY, a) == a
  {
  }

  // Merging the same patch twice is merging it once.
  lemma {:induction false} MergeIsIdempotent(a: Json, b: Json)
    requires a.Object? && b.Object?
    ensures Merge(Merge(a, b), b) == Merge(a, b)
    decreases b
  {
    var once := Merge(a, b);
    forall k | k in once.fields ensures Merge(once, b).fields[k] == once.fields[k] {
      if k in b.fields && b.fields[k].Object? {
        if k in a.fields && a.fields[k].Object? {
          MergeIsIdempotent(a.fields[k], b.fields[k]);
        } else {
          MergeSelf(b.fields[k]);
        }
      }
    }
    assert Merge(once, b).fields == once.fields;
  }

  lemma {:induction false} MergeSelf(b: Json)
    requires b.Object?
    ensures Merge(b, b) == b
    decreases b
  {
    forall k | k in b.fields ensures Merge(b, b).fields[k] == b.fields[k] {
      if b.fields[k].Object? {
        MergeSelf(b.fields[k]);
      }
    }
    assert Merge(b, b).fields == b.fields;
  }

  // Every key of a is set again by c, object under object.
  predicate Covered(a: Json, c: Json)
    requires a.Object? && c.Object?
    decreases c
  {
    forall k :: k in a.fields ==>
      k in c.fields && (a.fields[k].Object? && c.fields[k].Object? ==> Covered(a.fields[k], c.fields[k]))
  }

  // Those are exactly the objects of which nothing is left after merging c.
  lemma {:induction false} CoveredIsOverwritten(a: Json, c: Json)
    requires a.Object? && c.Object?
    ensures Covered(a, c) <==> Merge(a, c) == c
    decreases c
  {
    forall k | k in a.fields && k in c.fields && a.fields[k].Object? && c.fields[k].Object?
      ensures Covered(a.fields[k], c.fields[k]) <==> Merge(a.fields[k], c.fields[k]) == c.fields[k]
    {
      CoveredIsOverwritten(a.fields[k], c.fields[k]);
    }
    var m := Merge(a, c).fields;
    if Covered(a, c) {
      assert m.Keys == c.fields.Keys;
      assert m == c.fields;
    } else {
      var k :| k in a.fields && !(k in c.fields && (a.fields[k].Object? && c.fields[k].Object? ==> Covered(a.fields[k], c.fields[k])));
      assert k in m && (k !in c.fields || m[k] != c.fields[k]);
    }
  }

  // The last patch makes an object again what the middle patch had replaced, and something of the first
  // object shows through.
  ghost predicate Resurrects(a: Json, b: Json, c: Json)
    requires a.Object? && b.Object? && c.Object?
    decreases c, 1
  {
    exists k :: ResurrectsAt(a, b, c, k)
  }

  ghost predicate ResurrectsAt(a: Json, b: Json, c: Json, k: string)
    requires a.Object? && b.Object? && c.Object?
    decreases c, 0
  {
    && k in a.fields && k in b.fields && k in c.fields && a.fields[k].Object? && c.fields[k].Object?
    && if b.fields[k].Object? then Resurrects(a.fields[k], b.fields[k], c.fields[k])
       else !Covered(a.fields[k], c.fields[k])
  }

  lemma {:induction false} AssociativeAt(a: Json, b: Json, c: Json, k: string)
    requires a.Object? && b.Object? && c.Object?
    requires k in a.fields || k in b.fields || k in c.fields
    ensures Merge(Merge(a, b), c).fields[k] == Merge(a, Merge(b, c)).fields[k] <==> !ResurrectsAt(a, b, c, k)
    decreases c, 0
  {
    if k in a.fields && k in b.fields && k in c.fields && a.fields[k].Object? && c.fields[k].Object? {
      if b.fields[k].Object? {
        AssociativeUnlessResurrecting(a.fields[k], b.fields[k], c.fields[k]);
      } else {
        CoveredIsOverwritten(a.fields[k], c.fields[k]);
      }
    }
  }

  // Merging is associative exactly when that happens nowhere.
  lemma {:induction false} AssociativeUnlessResurrecting(a: Json, b: Json, c: Json)
    requires a.Object? && b.Object? && c.Object?
    ensures Merge(Merge(a, b), c) == Merge(a, Merge(b, c)) <==> !Resurrects(a, b, c)
    decreases c, 1
  {
    var left, right := Merge(Merge(a, b), c).fields, Merge(a, Merge(b, c)).fields;
    assert left.Keys == a.fields.Keys + b.fields.Keys + c.fields.Keys == right.Keys;
    forall k | k in left ensures left[k] == right[k] <==> !ResurrectsAt(a, b, c, k) {
      AssociativeAt(a, b, c, k);
    }
    if k :| ResurrectsAt(a, b, c, k) {
      assert k in left;
    } else {
      assert left == right;
    }
  }

  // The smallest case: an object, replaced by null, made an empty object again.
  lemma AssociativityCanFail()
    ensures var a := Object(map["k" := Object(map["x" := Leaf("1")])]);
            var b := Object(map["k" := Leaf("null")]);
            var c := Object(map["k" := Object(map[])]);
            && At(Merge(Merge(a, b), c), ["k", "x"]) == None
            && At(Merge(a, Merge(b, c)), ["k", "x"]) == Some(Leaf("1"))
  {
  }

  // In particular it is associative when no leaf of the middle patch stands where the last patch has an object.
  predicate NoLeafUnderObject(b: Json, c: Json)
    requires b.Object? && c.Object?
    decreases c
  {
    forall k :: k in b.fields && k in c.fields && c.fields[k].Object? ==>
      b.fields[k].Object? && NoLeafUnderObject(b.fields[k], c.fields[k])
  }

  lemma {:induction false} PlainPatchesAssociate(a: Json, b: Json, c: Json)
    requires a.Object? && b.Object? && c.Object? && NoLeafUnderObject(b, c)
    ensures !Resurrects(a, b, c)
    decreases c
  {
    forall k | k in a.fields && k in b.fields && k in c.fields && a.fields[k].Object? && c.fields[k].Object?
      ensures !ResurrectsAt(a, b, c, k)
    {
      PlainPatchesAssociate(a.fields[k], b.fields[k], c.fields[k]);
    }
  }
}
