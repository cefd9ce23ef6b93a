/** The nested dictionaries of a translation file as mutable objects, and writing into
    them in place.

    `NestedDict.SetNested` and `FillInPlace` are tied to `SetPath` and `Fill` through the
    tree that a dictionary stands for, so what is proved of those holds of the objects; a
    write that raises leaves the dictionary as it was. */
module TranslationStore {
  import opened Options
  import opened TranslationTrees
  import opened TranslationKeys
  import opened TranslationFill

  datatype Entry = Value(scalar: Scalar) | Sub(dict: NestedDict)

  class NestedDict {
    var entries: map<string, Entry>
    ghost var repr: set<NestedDict>

    /** The dictionaries below this one form a tree. */
    ghost predicate Valid()
      reads this, repr
      decreases repr
    {
      && this in repr
      && (forall k <- entries | entries[k].Sub? ::
            var d := entries[k].dict;
            d in repr && d.repr <= repr && this !in d.repr && d.Valid())
      && (forall j <- entries, k <- entries | j != k && entries[j].Sub? && entries[k].Sub? ::
            entries[j].dict.repr !! entries[k].dict.repr)
    }

    ghost function Tree(): (t: TranslationTrees.Tree)
      requires Valid()
      reads this, repr
      ensures t.Node? && t.kids.Keys == entries.Keys
      decreases repr, 1
    {
      Node(map k | k in entries :: Kid(k))
    }

    ghost function Kid(k: string): TranslationTrees.Tree
      requires Valid() && k in entries
      reads this, repr
      decreases repr, 0
    {
      match entries[k]
      case Value(v) => Leaf(v)
      case Sub(d) => d.Tree()
    }

    constructor ()
      ensures Valid() && fresh(repr) && Tree() == Node(map[])
    {
      entries := map[];
      repr := {this};
    }

    method PutValue(k: string, value: Scalar)
      requires Valid()
      modifies this`entries
      ensures Valid() && Tree() == Node(old(Tree()).kids[k := Leaf(value)])
    {
      entries := entries[k := Value(value)];
      assert Tree().kids == old(Tree()).kids[k := Leaf(value)];
    }

    method PutNew(k: string, sub: NestedDict)
      requires Valid() && k !in entries && sub.Valid() && sub.repr !! repr
      modifies this
      ensures Valid() && repr == old(repr) + sub.repr && entries == old(entries)[k := Sub(sub)]
      ensures forall j <- old(entries) :: Kid(j) == old(Kid(j))
    {
      entries := entries[k := Sub(sub)];
      repr := repr + sub.repr;
    }

    method PutEmpty(k: string)
      requires Valid() && k !in entries
      modifies this
      ensures Valid() && fresh(repr - old(repr)) && old(repr) <= repr
      ensures k in entries && entries[k].Sub? && Kid(k) == Node(map[])
      ensures Tree() == Node(old(Tree()).kids[k := Node(map[])])
    {
      var empty := new NestedDict();
      ghost var t := Tree();
      PutNew(k, empty);
      assert Tree().kids == t.kids[k := Node(map[])];
    }

    /** The rest of the walk, from the dictionary under `k`: the others stay as they are. */
    method SetBelow(k: string, rest: seq<string>, value: Scalar) returns (raised: bool)
      requires Valid() && k in entries && entries[k].Sub? && rest != []
      modifies repr
      ensures Valid() && fresh(repr - old(repr)) && old(repr) <= repr
      ensures entries == old(entries) && forall j <- entries | j != k :: Kid(j) == old(Kid(j))
      ensures raised <==> SetPath(old(Kid(k)), rest, Leaf(value)).None?
      ensures Kid(k) == if raised then old(Kid(k)) else SetPath(old(Kid(k)), rest, Leaf(value)).value
      decreases |rest|, 1
    {
      var sub := entries[k].dict;
      raised := sub.SetNested(rest, value);
      repr := repr + sub.repr;
    }

    method SetUnder(k: string, rest: seq<string>, value: Scalar) returns (raised: bool)
      requires Valid() && k in entries && entries[k].Sub? && rest != []
      modifies repr
      ensures Valid() && fresh(repr - old(repr)) && old(repr) <= repr
      ensures raised <==> SetPath(old(Tree()).kids[k], rest, Leaf(value)).None?
      ensures Tree() == if raised then old(Tree())
        else Node(old(Tree()).kids[k := SetPath(old(Tree()).kids[k], rest, Leaf(value)).value])
      decreases |rest|, 2
    {
      ghost var t := Tree();
      raised := SetBelow(k, rest, value);
      assert Tree().kids == t.kids[k := Kid(k)];
    }

    /** The walk of `set_nested_value`, one part of the key at a time. */
    method SetNested(parts: seq<string>, value: Scalar) returns (raised: bool)
      requires Valid() && parts != []
      modifies repr
      ensures Valid() && fresh(repr - old(repr)) && old(repr) <= repr
      ensures raised <==> SetPath(old(Tree()), parts, Leaf(value)).None?
      ensures Tree() == if raised then old(Tree()) else SetPath(old(Tree()), parts, Leaf(value)).value
      decreases |parts|, 0
    {
      var part := parts[0];
      if |parts| == 1 {
        PutValue(part, value);
        return false;
      }
      if part !in entries {
        PutEmpty(part);
        SetPathCreates(parts[1..], Leaf(value));
      } else if entries[part].Value? {
        return true;
      }
      raised := SetUnder(part, parts[1..], value);
      assert !raised ==> Tree().kids == old(Tree()).kids[part := Kid(part)];
    }
  }

  lemma FillOneMore(target: TranslationTrees.Tree, source: TranslationTrees.Tree, pick: Pick, keys: seq<string>, n: nat,
      t: TranslationTrees.Tree)
    requires target.Node? && n < |keys| && Fill(target, source, pick, keys[..n]) == Some(t)
    ensures t.Node?
    ensures Fill(target, source, pick, keys[..n + 1])
         == SetPath(t, Split(keys[n]), pick(keys[n], GetPath(source, Split(keys[n]))))
  {
    assert keys[..n + 1][..n] == keys[..n];
  }

  /** One round of the fill loop. */
  method WriteKey(target: NestedDict, source: TranslationTrees.Tree, pick: Pick, keys: seq<string>, n: nat,
      ghost start: TranslationTrees.Tree) returns (raised: bool)
    requires target.Valid() && start.Node? && n < |keys| && PicksLeaves(source, pick, keys)
    requires Fill(start, source, pick, keys[..n]) == Some(target.Tree())
    modifies target.repr
    ensures target.Valid() && fresh(target.repr - old(target.repr))
    ensures !raised ==> Fill(start, source, pick, keys[..n + 1]) == Some(target.Tree())
    ensures raised ==> target.Tree() == old(target.Tree()) && Fill(start, source, pick, keys).None?
  {
    var found := GetNestedValue(source, keys[n]);
    FillOneMore(start, source, pick, keys, n, target.Tree());
    raised := target.SetNested(Split(keys[n]), pick(keys[n], found).value);
    if raised { FillStops(start, source, pick, keys, n + 1); }
  }

  /** The fill loop on a mutable target, for picks that are not dictionaries: it stops at
      the first key whose write raises, with the keys before it written. */
  method FillInPlace(target: NestedDict, source: TranslationTrees.Tree, pick: Pick, keys: seq<string>)
    returns (written: nat)
    requires target.Valid() && PicksLeaves(source, pick, keys)
    modifies target.repr
    ensures target.Valid() && written <= |keys|
    ensures Fill(old(target.Tree()), source, pick, keys[..written]) == Some(target.Tree())
    ensures written == |keys| <==> Fill(old(target.Tree()), source, pick, keys).Some?
  {
    written := 0;
    ghost var start := target.Tree();
    while written < |keys|
      invariant written <= |keys| && target.Valid() && fresh(target.repr - old(target.repr))
      invariant Fill(start, source, pick, keys[..written]) == Some(target.Tree())
      decreases |keys| - written
    {
      var raised := WriteKey(target, source, pick, keys, written, start);
      if raised {
        return;
      }
      written := written + 1;
    }
    assert keys[..written] == keys;
  }
}
