/** deep_merge in place: mappings are objects, the base is changed, and nested mappings that are in both
    are merged where they stand. */
module DeepMerge {
  import opened Overlay

  datatype Node = NullNode | LeafNode(text: string) | MapNode(m: Mapping)

  /** A mutable mapping that owns its nested mappings: no two entries share one. */
  class Mapping {
    var entries: map<string, Node>
    ghost var Repr: set<object>

    ghost predicate Valid()
      reads this, Repr
      ensures Valid() ==> this in Repr
      decreases Repr
    {
      this in Repr &&
      (forall k :: k in entries && entries[k].MapNode? ==>
        entries[k].m in Repr && entries[k].m.Repr <= Repr && this !in entries[k].m.Repr && entries[k].m.Valid()) &&
      (forall j, k :: j in entries && k in entries && j != k && entries[j].MapNode? && entries[k].MapNode? ==>
        entries[j].m.Repr !! entries[k].m.Repr)
    }

    ghost function Contents(): (v: Value)
      requires Valid()
      reads this, Repr
      ensures v.Dict? && v.entries.Keys == entries.Keys
      decreases Repr
    {
      Dict(map k | k in entries ::
             match entries[k]
             case NullNode => Null
             case LeafNode(t) => Leaf(t)
             case MapNode(m) => m.Contents())
    }

    constructor ()
      ensures Valid() && fresh(Repr) && Contents() == Dict(map[])
    {
      entries := map[];
      Repr := {this};
    }

    /** base[key] = node, for a node that is not yet part of this tree. */
    method SetEntry(key: string, node: Node)
      requires Valid() && ValidNode(node) && NodeRepr(node) !! Repr
      modifies this
      ensures Valid() && Repr == old(Repr) + NodeRepr(node)
      ensures Contents() == Dict(old(Contents()).entries[key := NodeValue(node)])
    {
      entries := entries[key := node];
      Repr := Repr + NodeRepr(node);
    }

    /** base.pop(key, None) */
    method Pop(key: string)
      requires Valid()
      modifies this
      ensures Valid() && Repr == old(Repr)
      ensures Contents() == Dict(old(Contents()).entries - {key})
    {
      entries := entries - {key};
    }

    /** base[key] = copy.deepcopy(value) */
    method CopyEntry(key: string, value: Value)
      requires Valid()
      modifies this
      ensures Valid() && fresh(Repr - old(Repr))
      ensures Contents() == Dict(old(Contents()).entries[key := value])
      decreases value, 1
    {
      hide Contents;
      var node := DeepCopy(value);
      SetEntry(key, node);
    }

    /** deep_merge(base[key], value) for a nested mapping. */
    method MergeChild(key: string, value: Value)
      requires Valid() && value.Dict? && key in entries && entries[key].MapNode?
      modifies Repr
      ensures Valid() && fresh(Repr - old(Repr))
      ensures Contents() == Dict(old(Contents()).entries[key := Overlay.Merge(old(Contents()).entries[key], value)])
      decreases value, 1
    {
      hide Overlay.Merge;
      var child := entries[key].m;
      child.MergeIn(value);
      Repr := Repr + child.Repr;
    }

    /** The loop body of deep_merge. */
    method MergeKey(key: string, value: Value)
      requires Valid()
      modifies Repr
      ensures Valid() && fresh(Repr - old(Repr))
      ensures Contents() == OneKey(old(Contents()), key, value)
      decreases value, 2
    {
      if value.Null? {
        Pop(key);
      } else if value.Dict? && key in entries && entries[key].MapNode? {
        MergeChild(key, value);
      } else {
        CopyEntry(key, value);
      }
    }

    method MergeIn(override: Value)
      requires Valid() && override.Dict?
      modifies Repr
      ensures Valid() && fresh(Repr - old(Repr))
      ensures Contents() == Overlay.Merge(old(Contents()), override)
      decreases override, 0
    {
      hide Valid, Contents, OneKey, Overlay.Merge;
      ghost var before := Contents();
      var todo := override.entries.Keys;
      ghost var done: set<string> := {};
      MergeNothing(before, override);
      while todo != {}
        invariant todo !! done && todo + done == override.entries.Keys
        invariant Valid() && fresh(Repr - old(Repr))
        invariant Contents() == Overlay.Merge(before, Restrict(override, done))
      {
        var key :| key in todo;
        MergeOneMore(before, override, done, key);
        todo, done := todo - {key}, done + {key};
        MergeKey(key, override.entries[key]);
      }
      RestrictAll(override, done);
    }
  }

  /** A mapping after one key of an overlay. */
  ghost function OneKey(m: Value, key: string, value: Value): Value
    requires m.Dict?
  {
    Dict(if value.Null? then m.entries - {key}
         else if value.Dict? && key in m.entries && m.entries[key].Dict?
           then m.entries[key := Overlay.Merge(m.entries[key], value)]
         else m.entries[key := value])
  }

  ghost predicate ValidNode(n: Node)
    reads if n.MapNode? then {n.m} + n.m.Repr else {}
  {
    n.MapNode? ==> n.m.Valid()
  }

  ghost function NodeRepr(n: Node): set<object>
    reads if n.MapNode? then {n.m} else {}
  {
    if n.MapNode? then n.m.Repr else {}
  }

  ghost function NodeValue(n: Node): Value
    requires ValidNode(n)
    reads if n.MapNode? then {n.m} + n.m.Repr else {}
  {
    match n
    case NullNode => Null
    case LeafNode(t) => Leaf(t)
    case MapNode(m) => m.Contents()
  }

  /** copy.deepcopy */
  method DeepCopy(value: Value) returns (node: Node)
    ensures ValidNode(node) && fresh(NodeRepr(node)) && NodeValue(node) == value
    decreases value, 0
  {
    match value {
      case Null =>
        node := NullNode;
      case Leaf(t) =>
        node := LeafNode(t);
      case Dict(es) =>
        var m := new Mapping();
        var todo := es.Keys;
        ghost var done: set<string> := {};
        assert Restrict(value, {}).entries == map[];
        hide Mapping.Valid, Mapping.Contents, Restrict;
        while todo != {}
          invariant todo !! done && todo + done == es.Keys
          invariant m.Valid() && fresh(m.Repr)
          invariant m.Contents() == Restrict(value, done)
        {
          var key :| key in todo;
          RestrictOneMore(value, done, key);
          todo, done := todo - {key}, done + {key};
          m.CopyEntry(key, es[key]);
        }
        RestrictAll(value, done);
        node := MapNode(m);
    }
  }

  /** The overlays of launch_navigation, one after the other. */
  method MergeOverlays(merged: Mapping, overlays: seq<Value>)
    requires merged.Valid() && forall o :: o in overlays ==> o.Dict?
    modifies merged.Repr
    ensures merged.Valid() && fresh(merged.Repr - old(merged.Repr))
    ensures merged.Contents() == MergeAll(old(merged.Contents()), overlays)
  {
    hide Mapping.Valid, Mapping.Contents, Overlay.Merge;
    for i := 0 to |overlays|
      invariant merged.Valid() && fresh(merged.Repr - old(merged.Repr))
      invariant merged.Contents() == MergeAll(old(merged.Contents()), overlays[..i])
    {
      merged.MergeIn(overlays[i]);
      assert overlays[..i + 1][..i] == overlays[..i];
    }
    assert overlays[..|overlays|] == overlays;
  }

  // ---- Merging key by key, in any order ----

  ghost function Restrict(v: Value, keys: set<string>): (r: Value)
    requires v.Dict?
    ensures r.Dict?
  {
    Dict(map k | k in v.entries && k in keys :: v.entries[k])
  }

  lemma MergeNothing(base: Value, over: Value)
    requires base.Dict? && over.Dict?
    ensures Overlay.Merge(base, Restrict(over, {})) == base
  {
    assert Overlay.Merge(base, Restrict(over, {})).entries == base.entries;
  }

  /** What one more key of the overlay does to a partly merged base. */
  lemma MergeOneMore(base: Value, over: Value, keys: set<string>, key: string)
    requires base.Dict? && over.Dict? && key in over.entries && key !in keys
    ensures Overlay.Merge(base, Restrict(over, keys + {key}))
         == OneKey(Overlay.Merge(base, Restrict(over, keys)), key, over.entries[key])
  {
    hide Overlay.Merge;
    var r, s := Restrict(over, keys), Restrict(over, keys + {key});
    var m, n := Overlay.Merge(base, r), Overlay.Merge(base, s);
    var o := OneKey(m, key, over.entries[key]);
    forall k: string ensures (k in n.entries <==> k in o.entries) && (k in n.entries ==> n.entries[k] == o.entries[k]) {
      MergedEntry(base, r, k);
      MergedEntry(base, s, k);
      assert k != key ==> (k in r.entries <==> k in s.entries);
    }
    assert n.entries == o.entries;
  }

  lemma RestrictAll(v: Value, keys: set<string>)
    requires v.Dict? && keys == v.entries.Keys
    ensures Restrict(v, keys) == v
  {
    assert Restrict(v, keys).entries == v.entries;
  }

  lemma RestrictOneMore(v: Value, keys: set<string>, key: string)
    requires v.Dict? && key in v.entries
    ensures Restrict(v, keys + {key}) == Dict(Restrict(v, keys).entries[key := v.entries[key]])
  {
    assert Restrict(v, keys + {key}).entries == Restrict(v, keys).entries[key := v.entries[key]];
  }
}
