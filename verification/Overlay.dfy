/** What deep_merge means for YAML parameter trees: the merge as a function of two values, and its laws. */
module Overlay {
  import opened Wrappers

  /** A YAML value. Everything that is neither null nor a mapping is a leaf. */
  datatype Value = Null | Leaf(text: string) | Dict(entries: map<string, Value>)

  predicate BothDicts(base: Value, over: Value, k: string) {
    base.Dict? && over.Dict? && k in base.entries && k in over.entries && base.entries[k].Dict? && over.entries[k].Dict?
  }

  function Merge(base: Value, over: Value): (m: Value)
    requires base.Dict? && over.Dict?
    ensures m.Dict?
    decreases over
  {
    Dict(map k | k in base.entries.Keys + over.entries.Keys && !(k in over.entries && over.entries[k].Null?) ::
           if k !in over.entries then base.entries[k]
           else if BothDicts(base, over, k) then Merge(base.entries[k], over.entries[k])
           else over.entries[k])
  }

  /** What a merge does with one key. */
  lemma MergedEntry(base: Value, over: Value, k: string)
    requires base.Dict? && over.Dict?
    ensures var m := Merge(base, over).entries;
      && (k in m <==> if k in over.entries then !over.entries[k].Null? else k in base.entries)
      && (k in m ==> m[k] == if k !in over.entries then base.entries[k]
                             else if BothDicts(base, over, k) then Merge(base.entries[k], over.entries[k])
                             else over.entries[k])
  {
  }

  // ---- What is found under every path of the result ----

  function Lookup(v: Value, path: seq<string>): Option<Value> {
    if path == [] then Some(v)
    else if v.Dict? && path[0] in v.entries then Lookup(v.entries[path[0]], path[1..])
    else None
  }

  /** What an overlay says about a path: nothing, something above it that is no mapping, or a value. */
  datatype View = Untouched | Cut | Named(value: Value)

  function ViewAt(over: Value, path: seq<string>): View {
    if path == [] then Named(over)
    else if !over.Dict? then Cut
    else if path[0] !in over.entries then Untouched
    else ViewAt(over.entries[path[0]], path[1..])
  }

  /** Every step of the path but the last leads into a mapping, so the recursion reaches its level. */
  predicate Reaches(v: Value, path: seq<string>) {
    v.Dict? && (|path| > 1 ==> path[0] in v.entries && Reaches(v.entries[path[0]], path[1..]))
  }

  /** The value under a path of the merged tree, from the base and the overlay alone. An untouched path
      keeps the base; an overlay leaf replaces what was there; a null removes the entry where the
      recursion reaches and is copied otherwise. */
  function MergedAt(base: Value, over: Value, path: seq<string>): Option<Value> {
    match ViewAt(over, path)
    case Untouched => Lookup(base, path)
    case Cut => None
    case Named(Null) => if Reaches(base, path) then None else Some(Null)
    case Named(Leaf(t)) => Some(Leaf(t))
    case Named(Dict(es)) =>
      var b := Lookup(base, path);
      Some(if b.Some? && b.value.Dict? then Merge(b.value, Dict(es)) else Dict(es))
  }

  lemma {:induction false} MergePathLaw(base: Value, over: Value, path: seq<string>)
    requires base.Dict? && over.Dict? && path != []
    ensures Lookup(Merge(base, over), path) == MergedAt(base, over, path)
    decreases path
  {
    var k, rest := path[0], path[1..];
    if k in over.entries && rest == [] {
      assert ViewAt(over, path) == Named(over.entries[k]);
      assert k in base.entries ==> Lookup(base, path) == Some(base.entries[k]);
    } else if k in over.entries {
      if BothDicts(base, over, k) {
        MergePathLaw(base.entries[k], over.entries[k], rest);
      } else if over.entries[k].Dict? {
        CopiedPath(over.entries[k], rest);
        assert |path| > 1 && path[1..] == rest;
        assert k in base.entries ==> !base.entries[k].Dict?;
        assert Lookup(base, path) == None && !Reaches(base, path);
      } else {
        assert |path| > 1 && path[1..] == rest;
        assert ViewAt(over.entries[k], rest) == Cut && Lookup(over.entries[k], rest) == None;
      }
    }
  }

  /** A copied mapping shows exactly what the overlay holds. */
  lemma {:induction false} CopiedPath(over: Value, path: seq<string>)
    ensures Lookup(over, path) ==
      match ViewAt(over, path)
      case Named(v) => Some(v)
      case _ => None
  {
    if path != [] && over.Dict? && path[0] in over.entries {
      CopiedPath(over.entries[path[0]], path[1..]);
    }
  }

  // ---- Applying an overlay twice ----

  ghost predicate HasNull(v: Value) {
    v.Dict? && exists k :: k in v.entries && (v.entries[k].Null? || HasNull(v.entries[k]))
  }

  /** Some mapping that holds a null is copied into the base as it stands. */
  ghost predicate CopiesNull(base: Value, over: Value) {
    base.Dict? && over.Dict? &&
    exists k :: k in over.entries &&
      if BothDicts(base, over, k) then CopiesNull(base.entries[k], over.entries[k]) else HasNull(over.entries[k])
  }

  lemma {:induction false} MergeWithItself(v: Value)
    requires v.Dict?
    ensures Merge(v, v) == v <==> !HasNull(v)
  {
    var m := Merge(v, v);
    forall k | k in v.entries && v.entries[k].Dict?
      ensures k in m.entries && (m.entries[k] == v.entries[k] <==> !HasNull(v.entries[k]))
    {
      MergeWithItself(v.entries[k]);
      assert BothDicts(v, v, k);
    }
    if !HasNull(v) {
      assert m.entries == v.entries;
    }
  }

  /** An overlay may be applied again without effect exactly when no null was copied. */
  lemma {:induction false} IdempotentExactly(base: Value, over: Value)
    requires base.Dict? && over.Dict?
    ensures Merge(Merge(base, over), over) == Merge(base, over) <==> !CopiesNull(base, over)
    decreases over
  {
    var m := Merge(base, over);
    var mm := Merge(m, over);
    assert m.entries.Keys == mm.entries.Keys;
    forall k | k in m.entries
      ensures m.entries[k] == mm.entries[k] <==>
        !(k in over.entries && if BothDicts(base, over, k) then CopiesNull(base.entries[k], over.entries[k])
                               else HasNull(over.entries[k]))
    {
      if BothDicts(base, over, k) {
        IdempotentExactly(base.entries[k], over.entries[k]);
        assert BothDicts(m, over, k);
      } else if k in over.entries && over.entries[k].Dict? {
        MergeWithItself(over.entries[k]);
        assert BothDicts(m, over, k);
      }
    }
    if !CopiesNull(base, over) {
      assert m.entries == mm.entries;
    } else {
      var k :| k in over.entries && if BothDicts(base, over, k) then CopiesNull(base.entries[k], over.entries[k])
                                    else HasNull(over.entries[k]);
      assert k in m.entries;
    }
  }

  /** A null that was copied is taken out again by a second application. */
  lemma CopiedNullIsTakenOut()
    ensures var b, o := Dict(map[]), Dict(map["a" := Dict(map["b" := Null])]);
      Merge(Merge(b, o), o) != Merge(b, o)
  {
    var b, o := Dict(map[]), Dict(map["a" := Dict(map["b" := Null])]);
    assert HasNull(o.entries["a"]) by {
      assert "b" in o.entries["a"].entries;
    }
    assert "a" in o.entries && !BothDicts(b, o, "a");
    assert CopiesNull(b, o);
    IdempotentExactly(b, o);
  }

  // ---- Regrouping overlays ----

  /** Nothing of base would survive in over, and over holds no null where the recursion comes by. */
  ghost predicate Absorbed(base: Value, over: Value)
    requires base.Dict? && over.Dict?
    decreases over
  {
    (forall k :: k in over.entries ==> !over.entries[k].Null?) &&
    forall k :: k in base.entries ==>
      k in over.entries && (BothDicts(base, over, k) ==> Absorbed(base.entries[k], over.entries[k]))
  }

  lemma {:induction false} AbsorbedExactly(base: Value, over: Value)
    requires base.Dict? && over.Dict?
    ensures Merge(base, over) == over <==> Absorbed(base, over)
    decreases over
  {
    var m := Merge(base, over);
    forall k: string ensures SameAt(m, over, k) <==>
      && (k in over.entries ==> !over.entries[k].Null?)
      && (k in base.entries ==> k in over.entries)
      && (BothDicts(base, over, k) ==> Absorbed(base.entries[k], over.entries[k]))
    {
      MergedEntry(base, over, k);
      if BothDicts(base, over, k) {
        AbsorbedExactly(base.entries[k], over.entries[k]);
      }
    }
    SameEverywhere(m, over);
  }

  /** Both mappings have the same entry, or none, under the key. */
  predicate SameAt(v: Value, w: Value, k: string)
    requires v.Dict? && w.Dict?
  {
    (k in v.entries <==> k in w.entries) && (k in v.entries ==> v.entries[k] == w.entries[k])
  }

  lemma SameEverywhere(v: Value, w: Value)
    requires v.Dict? && w.Dict?
    ensures v == w <==> forall k: string :: SameAt(v, w, k)
  {
    if forall k: string :: SameAt(v, w, k) {
      forall k: string ensures k in v.entries <==> k in w.entries {
        assert SameAt(v, w, k);
      }
      forall k | k in v.entries ensures v.entries[k] == w.entries[k] {
        assert SameAt(v, w, k);
      }
      assert v.entries == w.entries;
    }
  }

  /** The second overlay removes nothing that base names, and the first one puts no leaf and no null
      between two mappings, unless the second one replaces the lower mapping completely anyway. */
  ghost predicate Regroups(base: Value, o1: Value, o2: Value)
    requires base.Dict? && o1.Dict? && o2.Dict?
    decreases o2
  {
    forall k :: k in base.entries && k in o2.entries ==>
      && !o2.entries[k].Null?
      && (BothDicts(base, o2, k) && k in o1.entries ==>
            if o1.entries[k].Dict? then Regroups(base.entries[k], o1.entries[k], o2.entries[k])
            else Absorbed(base.entries[k], o2.entries[k]))
  }

  /** For all overlays, nulls included: merging one after the other is merging the merged overlays
      exactly when they regroup. */
  lemma {:induction false} RegroupExactly(base: Value, o1: Value, o2: Value)
    requires base.Dict? && o1.Dict? && o2.Dict?
    ensures Merge(Merge(base, o1), o2) == Merge(base, Merge(o1, o2)) <==> Regroups(base, o1, o2)
    decreases o2
  {
    var l, r := Merge(Merge(base, o1), o2), Merge(base, Merge(o1, o2));
    forall k: string ensures SameAt(l, r, k) <==>
      (k in base.entries && k in o2.entries ==>
        && !o2.entries[k].Null?
        && (BothDicts(base, o2, k) && k in o1.entries ==>
              if o1.entries[k].Dict? then Regroups(base.entries[k], o1.entries[k], o2.entries[k])
              else Absorbed(base.entries[k], o2.entries[k])))
    {
      RegroupKey(base, o1, o2, k);
      if BothDicts(base, o2, k) && k in o1.entries {
        if o1.entries[k].Dict? {
          RegroupExactly(base.entries[k], o1.entries[k], o2.entries[k]);
        } else {
          AbsorbedExactly(base.entries[k], o2.entries[k]);
        }
      }
    }
    SameEverywhere(l, r);
  }

  /** One key of the two groupings, side by side. */
  lemma RegroupKey(base: Value, o1: Value, o2: Value, k: string)
    requires base.Dict? && o1.Dict? && o2.Dict?
    ensures var same := SameAt(Merge(Merge(base, o1), o2), Merge(base, Merge(o1, o2)), k);
      if k !in base.entries || k !in o2.entries then same
      else if o2.entries[k].Null? then !same
      else if !BothDicts(base, o2, k) || k !in o1.entries then same
      else if o1.entries[k].Dict?
      then same == (Merge(Merge(base.entries[k], o1.entries[k]), o2.entries[k])
                      == Merge(base.entries[k], Merge(o1.entries[k], o2.entries[k])))
      else same == (Merge(base.entries[k], o2.entries[k]) == o2.entries[k])
  {
    MergedEntry(base, o1, k);
    MergedEntry(o1, o2, k);
    MergedEntry(Merge(base, o1), o2, k);
    MergedEntry(base, Merge(o1, o2), k);
  }

  /** No path is a mapping in the base and in the second overlay and something else in the first. */
  predicate SameShapes(base: Value, o1: Value, o2: Value)
    requires base.Dict? && o1.Dict? && o2.Dict?
    decreases o2
  {
    forall k :: BothDicts(base, o2, k) && k in o1.entries ==>
      o1.entries[k].Dict? && SameShapes(base.entries[k], o1.entries[k], o2.entries[k])
  }

  /** Overlays of the same shape regroup when the second one holds no null. */
  lemma {:induction false} NullFreeRegroups(base: Value, o1: Value, o2: Value)
    requires base.Dict? && o1.Dict? && o2.Dict? && !HasNull(o2) && SameShapes(base, o1, o2)
    ensures Merge(Merge(base, o1), o2) == Merge(base, Merge(o1, o2))
    decreases o2
  {
    forall k | BothDicts(base, o2, k) && k in o1.entries
      ensures Regroups(base.entries[k], o1.entries[k], o2.entries[k])
    {
      NullFreeRegroups(base.entries[k], o1.entries[k], o2.entries[k]);
      RegroupExactly(base.entries[k], o1.entries[k], o2.entries[k]);
    }
    RegroupExactly(base, o1, o2);
  }

  /** With a null in the first overlay regrouping can fail: the deletion is lost in the merged overlay. */
  lemma NullDoesNotRegroup(t: Value)
    requires !t.Null?
    ensures var b, o1, o2 := Dict(map["k" := Dict(map["x" := t])]), Dict(map["k" := Null]), Dict(map["k" := Dict(map[])]);
      Merge(Merge(b, o1), o2) != Merge(b, Merge(o1, o2))
  {
    var inner := Dict(map["x" := t]);
    var b, o1, o2 := Dict(map["k" := inner]), Dict(map["k" := Null]), Dict(map["k" := Dict(map[])]);
    assert Merge(Merge(b, o1), o2).entries["k"] == Dict(map[]);
    assert Merge(b, Merge(o1, o2)).entries["k"] == Merge(inner, Dict(map[]));
    assert "x" in Merge(inner, Dict(map[])).entries;
  }

  // ---- The launch file's chain of overlays ----

  function MergeAll(base: Value, overlays: seq<Value>): (m: Value)
    requires base.Dict? && forall o :: o in overlays ==> o.Dict?
    ensures m.Dict?
  {
    if overlays == [] then base else Merge(MergeAll(base, overlays[..|overlays| - 1]), overlays[|overlays| - 1])
  }

  /** The last overlay that names a path with a leaf decides it, whatever comes before. */
  lemma {:induction false} LastLeafWins(base: Value, overlays: seq<Value>, i: nat, path: seq<string>)
    requires base.Dict? && (forall o :: o in overlays ==> o.Dict?)
    requires i < |overlays| && path != [] && ViewAt(overlays[i], path).Named? && ViewAt(overlays[i], path).value.Leaf?
    requires forall j :: i < j < |overlays| ==> ViewAt(overlays[j], path) == Untouched
    ensures Lookup(MergeAll(base, overlays), path) == Some(ViewAt(overlays[i], path).value)
    decreases |overlays|
  {
    var n := |overlays| - 1;
    MergePathLaw(MergeAll(base, overlays[..n]), overlays[n], path);
    if i < n {
      LastLeafWins(base, overlays[..n], i, path);
    }
  }

  /** A path that no overlay touches keeps the baseline's value. */
  lemma {:induction false} UntouchedKeepsBaseline(base: Value, overlays: seq<Value>, path: seq<string>)
    requires base.Dict? && (forall o :: o in overlays ==> o.Dict?) && path != []
    requires forall j :: 0 <= j < |overlays| ==> ViewAt(overlays[j], path) == Untouched
    ensures Lookup(MergeAll(base, overlays), path) == Lookup(base, path)
    decreases |overlays|
  {
    if overlays != [] {
      var n := |overlays| - 1;
      MergePathLaw(MergeAll(base, overlays[..n]), overlays[n], path);
      UntouchedKeepsBaseline(base, overlays[..n], path);
    }
  }
}
