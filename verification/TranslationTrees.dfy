/** Translation files: nested dictionaries with values that are not dictionaries at the
    leaves. `Merge` is `deep_merge`. `MergeLookup` says what the merged tree holds at
    every path, for all trees; `MergeAssociates` says exactly when merging is associative. */
module TranslationTrees {
  import opened Options

  type Path = seq<string>

  /** A JSON value that is not an object: a string, or anything else as JSON text. */
  datatype Scalar = Text(text: string) | Other(json: string)

  datatype Tree = Leaf(value: Scalar) | Node(kids: map<string, Tree>)

  /** The leaf value at a path, if there is one. */
  function LeafAt(t: Tree, p: Path): Option<Scalar>
    decreases |p|
  {
    match t
    case Leaf(v) => if p == [] then Some(v) else None
    case Node(kids) => if p != [] && p[0] in kids then LeafAt(kids[p[0]], p[1..]) else None
  }

  // ---------- deep_merge ----------

  function Merge(base: Tree, update: Tree): (merged: Tree)
    requires base.Node? && update.Node?
    ensures merged.Node?
    decreases update
  {
    Node(map k | k in base.kids.Keys + update.kids.Keys ::
      if k !in update.kids then base.kids[k]
      else if k in base.kids && base.kids[k].Node? && update.kids[k].Node? then Merge(base.kids[k], update.kids[k])
      else update.kids[k])
  }

  /** The loop: a copy of `base` updated key by key, in whatever order they come. */
  method DeepMerge(base: Tree, update: Tree) returns (result: Tree)
    requires base.Node? && update.Node?
    ensures result == Merge(base, update)
    decreases update
  {
    result := base;
    var rest := update.kids.Keys;
    while rest != {}
      invariant rest <= update.kids.Keys && result.Node?
      invariant result.kids.Keys == base.kids.Keys + (update.kids.Keys - rest)
      invariant forall k <- result.kids ::
        result.kids[k] == if k in update.kids && k !in rest then Merge(base, update).kids[k] else base.kids[k]
    {
      var key :| key in rest;
      var value := update.kids[key];
      if key in result.kids && result.kids[key].Node? && value.Node? {
        var merged := DeepMerge(result.kids[key], value);
        result := Node(result.kids[key := merged]);
      } else {
        result := Node(result.kids[key := value]);
      }
      rest := rest - {key};
    }
    assert result.kids == Merge(base, update).kids;
  }

  lemma {:induction false} MergeSelf(a: Tree)
    requires a.Node?
    ensures Merge(a, a) == a
    decreases a
  {
    forall k <- a.kids | a.kids[k].Node? ensures Merge(a.kids[k], a.kids[k]) == a.kids[k] {
      MergeSelf(a.kids[k]);
    }
    assert Merge(a, a).kids == a.kids;
  }

  /** The tree has a dictionary at the path, or a leaf above it: a leaf of another tree
      at this path does not survive being updated by it. */
  predicate Blocks(t: Tree, p: Path)
    decreases |p|
  {
    match t
    case Leaf(_) => p != []
    case Node(kids) => p == [] || (p[0] in kids && Blocks(kids[p[0]], p[1..]))
  }

  /** What the merged tree holds at every path: the update's leaf if it has one, else the
      base's leaf unless the update blocks it. */
  lemma {:induction false} MergeLookup(a: Tree, b: Tree, p: Path)
    requires a.Node? && b.Node?
    ensures LeafAt(Merge(a, b), p) ==
      if LeafAt(b, p).Some? then LeafAt(b, p)
      else if p != [] && Blocks(b, p) then None
      else LeafAt(a, p)
    decreases |p|
  {
    if p != [] && p[0] in a.kids && p[0] in b.kids && a.kids[p[0]].Node? && b.kids[p[0]].Node? {
      MergeLookup(a.kids[p[0]], b.kids[p[0]], p[1..]);
      if p[1..] == [] { assert LeafAt(Merge(a.kids[p[0]], b.kids[p[0]]), []) == None; }
    }
  }

  /** The path leads to a dictionary. */
  predicate DictAt(t: Tree, p: Path)
    decreases |p|
  {
    t.Node? && (p == [] || (p[0] in t.kids && DictAt(t.kids[p[0]], p[1..])))
  }

  /** The path leads to a leaf, or through one. */
  predicate MeetsLeaf(t: Tree, p: Path)
    decreases |p|
  {
    t.Leaf? || (p != [] && p[0] in t.kids && MeetsLeaf(t.kids[p[0]], p[1..]))
  }

  /** Where the merged tree has dictionaries, empty ones too: where the update has one, and
      where the base has one on whose way the update has no leaf. */
  lemma {:induction false} MergeDicts(a: Tree, b: Tree, p: Path)
    requires a.Node? && b.Node?
    ensures DictAt(Merge(a, b), p) <==> DictAt(b, p) || (DictAt(a, p) && !MeetsLeaf(b, p))
    decreases |p|
  {
    if p != [] && p[0] in a.kids && p[0] in b.kids && a.kids[p[0]].Node? && b.kids[p[0]].Node? {
      MergeDicts(a.kids[p[0]], b.kids[p[0]], p[1..]);
    }
  }

  lemma KidAt(t: Tree, k: string)
    requires t.Node?
    ensures k in t.kids <==> LeafAt(t, [k]).Some? || DictAt(t, [k])
  {
    assert [k][1..] == [];
  }

  /** Leaves and dictionaries determine a tree. */
  lemma {:induction false} TreesAreTheirPaths(s: Tree, t: Tree)
    requires forall p :: LeafAt(s, p) == LeafAt(t, p) && (DictAt(s, p) <==> DictAt(t, p))
    ensures s == t
    decreases s
  {
    assert LeafAt(s, []) == LeafAt(t, []) && (DictAt(s, []) <==> DictAt(t, []));
    if s.Node? {
      forall k ensures k in s.kids <==> k in t.kids {
        KidAt(s, k);
        KidAt(t, k);
      }
      forall k <- s.kids ensures s.kids[k] == t.kids[k] {
        forall p
          ensures LeafAt(s.kids[k], p) == LeafAt(t.kids[k], p) && (DictAt(s.kids[k], p) <==> DictAt(t.kids[k], p))
        {
          var q := [k] + p;
          assert q[1..] == p && LeafAt(s, q) == LeafAt(t, q) && (DictAt(s, q) <==> DictAt(t, q));
        }
        TreesAreTheirPaths(s.kids[k], t.kids[k]);
      }
      assert s.kids == t.kids;
    }
  }

  /** The update has no leaf where the base has a dictionary, nor the other way round. */
  predicate ClashFree(a: Tree, b: Tree)
    decreases a
  {
    a.Node? && b.Node? ==> forall k <- a.kids | k in b.kids ::
      (a.kids[k].Node? <==> b.kids[k].Node?) && ClashFree(a.kids[k], b.kids[k])
  }

  lemma {:induction false} ClashFreeKeeps(a: Tree, b: Tree, p: Path)
    requires ClashFree(a, b) && (a.Node? <==> b.Node?) && LeafAt(a, p).Some? && LeafAt(b, p).None?
    ensures !Blocks(b, p)
    decreases |p|
  {
    if a.Node? && p[0] in b.kids {
      ClashFreeKeeps(a.kids[p[0]], b.kids[p[0]], p[1..]);
    }
  }

  /** Without clashes nothing is lost: a leaf of the merged tree is the update's if it has
      one there, and else the base's. */
  lemma {:induction false} MergeWithoutClash(a: Tree, b: Tree, p: Path)
    requires a.Node? && b.Node? && ClashFree(a, b)
    ensures LeafAt(Merge(a, b), p) == if LeafAt(b, p).Some? then LeafAt(b, p) else LeafAt(a, p)
  {
    MergeLookup(a, b, p);
    if LeafAt(a, p).Some? && LeafAt(b, p).None? { ClashFreeKeeps(a, b, p); }
  }

  // ---------- Associativity ----------

  /** Merging `a` under `c` adds nothing to `c`. */
  predicate Absorbs(c: Tree, a: Tree)
    requires c.Node? && a.Node?
    decreases a
  {
    forall k <- a.kids :: k in c.kids && (a.kids[k].Node? && c.kids[k].Node? ==> Absorbs(c.kids[k], a.kids[k]))
  }

  /** Wherever a leaf of `b` stands between dictionaries of `a` and `c`, the dictionary of
      `c` already absorbs that of `a`. */
  predicate Smooth(a: Tree, b: Tree, c: Tree)
    requires a.Node? && b.Node? && c.Node?
    decreases a
  {
    forall k <- a.kids | k in b.kids && k in c.kids && a.kids[k].Node? && c.kids[k].Node? ::
      if b.kids[k].Node? then Smooth(a.kids[k], b.kids[k], c.kids[k])
      else Absorbs(c.kids[k], a.kids[k])
  }

  lemma {:induction false} AbsorbsMeaning(c: Tree, a: Tree)
    requires c.Node? && a.Node?
    ensures Absorbs(c, a) <==> Merge(a, c) == c
    decreases a
  {
    var m := Merge(a, c);
    forall k <- a.kids | k in c.kids && a.kids[k].Node? && c.kids[k].Node?
      ensures Absorbs(c.kids[k], a.kids[k]) <==> m.kids[k] == c.kids[k]
    {
      AbsorbsMeaning(c.kids[k], a.kids[k]);
    }
    if Absorbs(c, a) {
      assert m.kids == c.kids;
    }
    if m == c {
      forall k <- a.kids ensures k in c.kids { assert k in m.kids; }
    }
  }

  function MergeKids(u: Option<Tree>, v: Option<Tree>): Option<Tree> {
    if v.None? then u
    else if u.Some? && u.value.Node? && v.value.Node? then Some(Merge(u.value, v.value))
    else v
  }

  lemma KidsOfMerge(a: Tree, b: Tree, k: string)
    requires a.Node? && b.Node?
    ensures Find(Merge(a, b).kids, k) == MergeKids(Find(a.kids, k), Find(b.kids, k))
  {
  }

  lemma SameKids(s: Tree, t: Tree)
    requires s.Node? && t.Node? && forall k :: Find(s.kids, k) == Find(t.kids, k)
    ensures s == t
  {
    forall k ensures k in s.kids <==> k in t.kids { assert Find(s.kids, k) == Find(t.kids, k); }
    forall k <- s.kids ensures s.kids[k] == t.kids[k] { assert Find(s.kids, k) == Find(t.kids, k); }
    assert s.kids == t.kids;
  }

  /** Associativity under one key. */
  predicate SmoothAt(a: Tree, b: Tree, c: Tree, k: string)
    requires a.Node? && b.Node? && c.Node?
  {
    k in a.kids && k in b.kids && k in c.kids && a.kids[k].Node? && c.kids[k].Node? ==>
      if b.kids[k].Node? then Smooth(a.kids[k], b.kids[k], c.kids[k]) else Absorbs(c.kids[k], a.kids[k])
  }

  lemma {:induction false} AssociatesAt(a: Tree, b: Tree, c: Tree, k: string)
    requires a.Node? && b.Node? && c.Node?
    ensures Find(Merge(Merge(a, b), c).kids, k) == Find(Merge(a, Merge(b, c)).kids, k) <==> SmoothAt(a, b, c, k)
    decreases a, 0
  {
    KidsOfMerge(Merge(a, b), c, k);
    KidsOfMerge(a, b, k);
    KidsOfMerge(a, Merge(b, c), k);
    KidsOfMerge(b, c, k);
    if k in a.kids && k in b.kids && k in c.kids && a.kids[k].Node? && c.kids[k].Node? {
      if b.kids[k].Node? {
        MergeAssociates(a.kids[k], b.kids[k], c.kids[k]);
      } else {
        AbsorbsMeaning(c.kids[k], a.kids[k]);
      }
    }
  }

  /** `deep_merge` is associative on three trees exactly when no leaf of the middle one
      stands between two dictionaries of which the last lacks something of the first. */
  lemma {:induction false} MergeAssociates(a: Tree, b: Tree, c: Tree)
    requires a.Node? && b.Node? && c.Node?
    ensures Merge(Merge(a, b), c) == Merge(a, Merge(b, c)) <==> Smooth(a, b, c)
    decreases a, 1
  {
    var left, right := Merge(Merge(a, b), c), Merge(a, Merge(b, c));
    forall k ensures Find(left.kids, k) == Find(right.kids, k) <==> SmoothAt(a, b, c, k) {
      AssociatesAt(a, b, c, k);
    }
    if Smooth(a, b, c) {
      SameKids(left, right);
    }
    if left == right {
      forall k <- a.kids ensures SmoothAt(a, b, c, k) {}
    }
  }

  /** In particular on trees that do not clash pairwise. */
  lemma {:induction false} ClashFreeIsSmooth(a: Tree, b: Tree, c: Tree)
    requires a.Node? && b.Node? && c.Node?
    requires ClashFree(a, b) && ClashFree(b, c) && ClashFree(a, c)
    ensures Smooth(a, b, c)
    decreases a
  {
    forall k <- a.kids | k in b.kids && k in c.kids && a.kids[k].Node? && c.kids[k].Node?
      ensures b.kids[k].Node? && Smooth(a.kids[k], b.kids[k], c.kids[k])
    {
      ClashFreeIsSmooth(a.kids[k], b.kids[k], c.kids[k]);
    }
  }

  lemma {:induction false} MergeAssociatesWithoutClash(a: Tree, b: Tree, c: Tree)
    requires a.Node? && b.Node? && c.Node?
    requires ClashFree(a, b) && ClashFree(b, c) && ClashFree(a, c)
    ensures Merge(Merge(a, b), c) == Merge(a, Merge(b, c))
  {
    ClashFreeIsSmooth(a, b, c);
    MergeAssociates(a, b, c);
  }
}
