/** Dotted translation keys: flattening a tree to the set of its keys, splitting a key
    back into its path, and reading and writing a tree by key.

    On trees whose names contain no dot, and without leaves below an empty name at the
    root, the keys are exactly the leaf paths (`KeysAreLeaves`). `SetPathLeaves` gives
    every leaf after a write and says when the write raises. */
module TranslationKeys {
  import opened Options
  import opened TranslationTrees

  // ---------- Flattening ----------

  function FullKey(prefix: string, name: string): string {
    if prefix == "" then name else prefix + "." + name
  }

  /** `get_all_keys`. */
  function AllKeys(data: Tree, prefix: string): set<string>
    requires data.Node?
    decreases data
  {
    set k, s | k in data.kids && s in KeysBelow(data, k, prefix) :: s
  }

  function KeysBelow(data: Tree, k: string, prefix: string): set<string>
    requires data.Node? && k in data.kids
    decreases data, 0
  {
    if data.kids[k].Node? then AllKeys(data.kids[k], FullKey(prefix, k)) else {FullKey(prefix, k)}
  }

  /** The keys found below some of the entries. */
  function KeysOf(data: Tree, names: set<string>, prefix: string): set<string>
    requires data.Node? && names <= data.kids.Keys
  {
    set k, s | k in names && s in KeysBelow(data, k, prefix) :: s
  }

  lemma KeysOfOneMore(data: Tree, names: set<string>, k: string, prefix: string)
    requires data.Node? && names <= data.kids.Keys && k in data.kids
    ensures KeysOf(data, names + {k}, prefix) == KeysOf(data, names, prefix) + KeysBelow(data, k, prefix)
  {
    forall s <- KeysBelow(data, k, prefix) ensures s in KeysOf(data, names + {k}, prefix) {
      assert k in names + {k};
    }
    forall s <- KeysOf(data, names, prefix) ensures s in KeysOf(data, names + {k}, prefix) {
      var j :| j in names && s in KeysBelow(data, j, prefix);
      assert j in names + {k};
    }
  }

  /** The loop over the entries of one dictionary. */
  method CollectKeys(data: Tree, prefix: string) returns (keys: set<string>)
    requires data.Node?
    ensures keys == AllKeys(data, prefix)
    decreases data
  {
    keys := {};
    var rest := data.kids.Keys;
    while rest != {}
      invariant rest <= data.kids.Keys
      invariant keys == KeysOf(data, data.kids.Keys - rest, prefix)
    {
      var key :| key in rest;
      KeysOfOneMore(data, data.kids.Keys - rest, key, prefix);
      assert data.kids.Keys - (rest - {key}) == data.kids.Keys - rest + {key};
      if data.kids[key].Node? {
        var below := CollectKeys(data.kids[key], FullKey(prefix, key));
        keys := keys + below;
      } else {
        keys := keys + {FullKey(prefix, key)};
      }
      rest := rest - {key};
    }
  }

  function Dotted(prefix: string, p: Path): string
    decreases |p|
  {
    if p == [] then prefix else Dotted(FullKey(prefix, p[0]), p[1..])
  }

  predicate KeyOfLeaf(data: Tree, prefix: string, p: Path, s: string) {
    LeafAt(data, p).Some? && s == Dotted(prefix, p)
  }

  lemma {:induction false} KeysArePaths(data: Tree, prefix: string, s: string)
    requires data.Node?
    ensures s in AllKeys(data, prefix) <==> exists p :: KeyOfLeaf(data, prefix, p, s)
    decreases data
  {
    if s in AllKeys(data, prefix) {
      var k :| k in data.kids && s in KeysBelow(data, k, prefix);
      var p := [];
      if data.kids[k].Node? {
        KeysArePaths(data.kids[k], FullKey(prefix, k), s);
        p :| KeyOfLeaf(data.kids[k], FullKey(prefix, k), p, s);
      }
      assert KeyOfLeaf(data.kids[k], FullKey(prefix, k), p, s);
      assert ([k] + p)[0] == k && ([k] + p)[1..] == p;
      assert Dotted(prefix, [k] + p) == Dotted(FullKey(prefix, k), p);
      assert KeyOfLeaf(data, prefix, [k] + p, s);
    }
    if p :| KeyOfLeaf(data, prefix, p, s) {
      var k := p[0];
      var kid := data.kids[k];
      assert KeyOfLeaf(kid, FullKey(prefix, k), p[1..], s);
      if kid.Node? {
        KeysArePaths(kid, FullKey(prefix, k), s);
      } else {
        assert p[1..] == [];
      }
      assert s in KeysBelow(data, k, prefix);
    }
  }

  // ---------- Splitting ----------

  /** `str.split('.')`. */
  function Split(s: string): (parts: seq<string>)
    ensures parts != []
  {
    if s == "" then [""]
    else
      var rest := Split(s[1..]);
      if s[0] == '.' then [""] + rest else [[s[0]] + rest[0]] + rest[1..]
  }

  function Tail(p: Path): string {
    if p == [] then "" else "." + p[0] + Tail(p[1..])
  }

  predicate Plain(name: string) {
    '.' !in name
  }

  /** The falsy prefix drops the dot after an empty first name, so a key says nothing of
      the empty names a path begins with. */
  function Norm(p: Path): Path {
    if |p| > 1 && p[0] == "" then Norm(p[1..]) else p
  }

  predicate Normal(p: Path) {
    |p| > 1 ==> p[0] != ""
  }

  lemma {:induction false} SplitName(name: string)
    requires '.' !in name
    ensures Split(name) == [name]
  {
    if name != "" {
      SplitName(name[1..]);
      assert name == [name[0]] + name[1..];
    }
  }

  lemma {:induction false} SplitCons(name: string, rest: string)
    requires '.' !in name
    ensures Split(name + "." + rest) == [name] + Split(rest)
  {
    var s := name + "." + rest;
    if name == "" {
      assert s[1..] == rest;
    } else {
      SplitCons(name[1..], rest);
      assert s[1..] == name[1..] + "." + rest;
      assert name == [name[0]] + name[1..];
    }
  }

  lemma {:induction false} SplitTail(name: string, p: Path)
    requires '.' !in name && forall n <- p :: '.' !in n
    ensures Split(name + Tail(p)) == [name] + p
    decreases |p|
  {
    if p == [] {
      SplitName(name);
      assert name + Tail(p) == name;
    } else {
      SplitTail(p[0], p[1..]);
      assert name + Tail(p) == name + "." + (p[0] + Tail(p[1..]));
      SplitCons(name, p[0] + Tail(p[1..]));
      assert p == [p[0]] + p[1..];
    }
  }

  lemma {:induction false} DottedTail(prefix: string, p: Path)
    requires prefix != ""
    ensures Dotted(prefix, p) == prefix + Tail(p)
    decreases |p|
  {
    if p == [] {
      assert prefix + Tail(p) == prefix;
    } else {
      DottedTail(prefix + "." + p[0], p[1..]);
      assert prefix + "." + p[0] + Tail(p[1..]) == prefix + ("." + p[0] + Tail(p[1..]));
    }
  }

  /** Splitting a dotted key gives the path back, less the empty names it begins with. */
  lemma {:induction false} SplitDotted(p: Path)
    requires p != [] && forall n <- p :: Plain(n)
    ensures Split(Dotted("", p)) == Norm(p)
    decreases |p|
  {
    assert p[0] in p && forall n <- p[1..] :: n in p;
    if |p| > 1 && p[0] == "" {
      SplitDotted(p[1..]);
    } else if |p| == 1 {
      SplitName(p[0]);
      assert p == [p[0]] && p[1..] == [];
    } else {
      DottedTail(p[0], p[1..]);
      SplitTail(p[0], p[1..]);
      assert p == [p[0]] + p[1..];
    }
  }

  lemma {:induction false} JoinSplit(s: string)
    ensures Split(s)[0] + Tail(Split(s)[1..]) == s
  {
    if s != "" {
      JoinSplit(s[1..]);
      var rest := Split(s[1..]);
      if s[0] == '.' {
        assert Split(s)[1..] == rest;
        assert Tail(rest) == "." + rest[0] + Tail(rest[1..]);
      }
      assert s == [s[0]] + s[1..];
    }
  }

  lemma {:induction false} DottedIsNotLonger(p: Path)
    requires p != []
    ensures |Dotted("", p)| <= |p[0] + Tail(p[1..])|
    decreases |p|
  {
    if |p| > 1 && p[0] == "" {
      DottedIsNotLonger(p[1..]);
      assert Tail(p[1..]) == "." + p[1] + Tail(p[1..][1..]);
    } else if p[0] != "" {
      DottedTail(p[0], p[1..]);
    } else {
      assert p[1..] == [];
    }
  }

  /** And dotting a split key gives the key back exactly if it does not begin with a
      dot. */
  lemma DottedSplit(s: string)
    ensures Dotted("", Split(s)) == s <==> Normal(Split(s))
  {
    var p := Split(s);
    JoinSplit(s);
    if p[0] != "" {
      DottedTail(p[0], p[1..]);
    } else if |p| > 1 {
      DottedIsNotLonger(p[1..]);
      assert Tail(p[1..]) == "." + p[1] + Tail(p[1..][1..]);
    } else {
      assert p[1..] == [];
    }
  }

  // ---------- Keys and leaves ----------

  /** No name in the tree contains a dot. */
  predicate Clean(t: Tree)
    decreases t
  {
    t.Node? ==> forall k <- t.kids :: Plain(k) && Clean(t.kids[k])
  }

  lemma {:induction false} LeafPathsArePlain(t: Tree, p: Path)
    requires Clean(t) && LeafAt(t, p).Some?
    ensures forall n <- p :: Plain(n)
    decreases |p|
  {
    if t.Node? { LeafPathsArePlain(t.kids[p[0]], p[1..]); }
  }

  /** No leaf stands below an empty name at the root. */
  ghost predicate RootOk(t: Tree) {
    forall p :: LeafAt(t, p).Some? ==> Normal(p)
  }

  /** Clean, and every leaf can be told by its key. */
  ghost predicate Regular(t: Tree) {
    t.Node? && Clean(t) && RootOk(t)
  }

  lemma {:induction false} NormKeepsNames(p: Path)
    ensures Normal(Norm(p)) && (forall n <- Norm(p) :: n in p) && (Normal(p) ==> Norm(p) == p)
    ensures Dotted("", Norm(p)) == Dotted("", p)
    decreases |p|
  {
    if |p| > 1 && p[0] == "" { NormKeepsNames(p[1..]); }
  }

  /** On clean trees the keys are the leaf paths less the empty names they begin with. */
  lemma KeysAreNormalLeaves(t: Tree, s: string)
    requires t.Node? && Clean(t)
    ensures s in AllKeys(t, "") <==> exists p :: LeafAt(t, p).Some? && Norm(p) == Split(s) && Normal(Split(s))
  {
    KeysArePaths(t, "", s);
    if s in AllKeys(t, "") {
      var p :| KeyOfLeaf(t, "", p, s);
      LeafPathsArePlain(t, p);
      SplitDotted(p);
      NormKeepsNames(p);
    }
    if p :| LeafAt(t, p).Some? && Norm(p) == Split(s) && Normal(Split(s)) {
      NormKeepsNames(p);
      DottedSplit(s);
      assert KeyOfLeaf(t, "", p, s);
    }
  }

  /** On regular trees the dotted keys are exactly the leaf paths. */
  lemma KeysAreLeaves(t: Tree, s: string)
    requires Regular(t)
    ensures s in AllKeys(t, "") <==> LeafAt(t, Split(s)).Some?
  {
    KeysAreNormalLeaves(t, s);
    if p :| LeafAt(t, p).Some? && Norm(p) == Split(s) { NormKeepsNames(p); }
    if LeafAt(t, Split(s)).Some? { NormKeepsNames(Split(s)); }
  }

  // ---------- Reading and writing by path ----------

  /** `get_nested_value` on the parts of a key. */
  function GetPath(t: Tree, p: Path): Option<Tree>
    decreases |p|
  {
    if p == [] then Some(t)
    else if t.Node? && p[0] in t.kids then GetPath(t.kids[p[0]], p[1..])
    else None
  }

  method GetNestedValue(data: Tree, keyPath: string) returns (r: Option<Tree>)
    ensures r == GetPath(data, Split(keyPath))
  {
    var parts, value := Split(keyPath), data;
    for i := 0 to |parts|
      invariant GetPath(data, parts) == GetPath(value, parts[i..])
    {
      assert parts[i..][1..] == parts[i + 1..];
      if value.Node? && parts[i] in value.kids {
        value := value.kids[parts[i]];
      } else {
        return None;
      }
    }
    return Some(value);
  }

  lemma {:induction false} GetLeaf(t: Tree, p: Path)
    ensures LeafAt(t, p) == match GetPath(t, p) case Some(Leaf(v)) => Some(v) case _ => None
    decreases |p|
  {
    if t.Node? && p != [] && p[0] in t.kids { GetLeaf(t.kids[p[0]], p[1..]); }
  }

  /** What is found at a path is the part of the tree below it. */
  lemma {:induction false} GetBelow(t: Tree, p: Path, q: Path)
    ensures GetPath(t, p).Some? <==> LeafAt(t, p).Some? || DictAt(t, p)
    ensures GetPath(t, p).Some? ==>
      && LeafAt(GetPath(t, p).value, q) == LeafAt(t, p + q)
      && (DictAt(GetPath(t, p).value, q) <==> DictAt(t, p + q))
    decreases |p|
  {
    if p == [] {
      assert p + q == q;
    } else if t.Node? && p[0] in t.kids {
      GetBelow(t.kids[p[0]], p[1..], q);
      assert (p + q)[1..] == p[1..] + q;
    }
  }

  /** `set_nested_value` on the parts of a key: missing dictionaries are created on the
      way; None is the TypeError raised on meeting a leaf there. */
  function SetPath(t: Tree, p: Path, v: Tree): (r: Option<Tree>)
    requires p != []
    ensures r.Some? ==> r.value.Node?
    decreases |p|
  {
    if t.Leaf? then None
    else if |p| == 1 then Some(Node(t.kids[p[0] := v]))
    else
      match SetPath(if p[0] in t.kids then t.kids[p[0]] else Node(map[]), p[1..], v)
      case None => None
      case Some(kid) => Some(Node(t.kids[p[0] := kid]))
  }

  predicate ProperPrefix(p: Path, q: Path) {
    p < q
  }

  /** A write raises exactly when some leaf lies strictly above the path. */
  lemma {:induction false} SetPathRaises(t: Tree, p: Path, v: Tree)
    requires p != []
    ensures SetPath(t, p, v).None? <==> exists q :: LeafAt(t, q).Some? && ProperPrefix(q, p)
    decreases |p|
  {
    if t.Leaf? {
      assert LeafAt(t, []).Some? && ProperPrefix([], p);
    } else {
      if |p| > 1 && p[0] in t.kids {
        var kid := t.kids[p[0]];
        SetPathRaises(kid, p[1..], v);
        if q :| LeafAt(kid, q).Some? && ProperPrefix(q, p[1..]) {
          assert ([p[0]] + q)[1..] == q;
          assert LeafAt(t, [p[0]] + q).Some? && ProperPrefix([p[0]] + q, p);
        }
        if q :| LeafAt(t, q).Some? && ProperPrefix(q, p) {
          assert LeafAt(kid, q[1..]).Some? && ProperPrefix(q[1..], p[1..]);
        }
      } else if |p| > 1 {
        SetPathCreates(p[1..], v);
      }
    }
  }

  lemma {:induction false} SetPathCreates(p: Path, v: Tree)
    requires p != []
    ensures SetPath(Node(map[]), p, v).Some?
    decreases |p|
  {
    if |p| > 1 { SetPathCreates(p[1..], v); }
  }

  /** What a write leaves at every path: below the written path what was written, and
      elsewhere what was there. */
  lemma {:induction false} SetPathLeaves(t: Tree, p: Path, v: Tree, q: Path)
    requires p != [] && SetPath(t, p, v).Some?
    ensures LeafAt(SetPath(t, p, v).value, q) == if p <= q then LeafAt(v, q[|p|..]) else LeafAt(t, q)
    decreases |p|
  {
    if |p| == 1 {
      if p <= q { assert q[0] == p[0]; }
    } else {
      var kid := if p[0] in t.kids then t.kids[p[0]] else Node(map[]);
      if q != [] && q[0] == p[0] {
        SetPathLeaves(kid, p[1..], v, q[1..]);
        assert p <= q <==> p[1..] <= q[1..];
        if p <= q { assert q[1..][|p[1..]|..] == q[|p|..]; }
      }
    }
  }

  /** And where it leaves dictionaries: on the way to the path, below it those written, and
      elsewhere those that were there. */
  lemma {:induction false} SetPathDicts(t: Tree, p: Path, v: Tree, q: Path)
    requires p != [] && SetPath(t, p, v).Some?
    ensures DictAt(SetPath(t, p, v).value, q) <==>
      if p <= q then DictAt(v, q[|p|..]) else q <= p || DictAt(t, q)
    decreases |p|
  {
    if |p| == 1 {
      if p <= q { assert q[0] == p[0]; }
    } else {
      var kid := if p[0] in t.kids then t.kids[p[0]] else Node(map[]);
      if q != [] && q[0] == p[0] {
        SetPathDicts(kid, p[1..], v, q[1..]);
        assert p <= q <==> p[1..] <= q[1..];
        assert q <= p <==> q[1..] <= p[1..];
        if p <= q { assert q[1..][|p[1..]|..] == q[|p|..]; }
      }
    }
  }

  /** Two leaves of one tree are never above one another. */
  lemma {:induction false} LeavesAreIncomparable(t: Tree, p: Path, q: Path)
    requires LeafAt(t, p).Some? && LeafAt(t, q).Some?
    ensures !ProperPrefix(p, q)
    decreases |p|
  {
    if t.Node? && p[0] == q[0] {
      LeavesAreIncomparable(t.kids[p[0]], p[1..], q[1..]);
      assert p == [p[0]] + p[1..] && q == [q[0]] + q[1..];
    }
  }
}
