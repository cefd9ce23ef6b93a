/** Filling the missing keys of two locales from each other, in whatever order the sets of
    missing keys come.

    For files whose names have no dots, and without leaves below an empty name at the root,
    `FillSynchronises` says exactly when the two fills succeed (no key of one file lies
    above a key of the other) and that they then leave both files with the union of the
    keys and lose nothing. `FixKeys` says what the one-way repair leaves. The last two
    lemmas show what other names do; `TranslationFits` has the condition for all files. */
module TranslationFill {
  import opened Options
  import opened TranslationTrees
  import opened TranslationKeys

  type Pick = (string, Option<Tree>) -> Tree

  /** What the merge script writes: the other locale's value, or the key itself. */
  function Fallback(key: string, found: Option<Tree>): Tree {
    match found
    case Some(t) => t
    case None => Leaf(Text(key))
  }

  /** What the sync check writes: a note to translate the reference value. `show` is the
      text a formatted value gets. */
  function Todo(show: Tree -> string): Pick {
    (key: string, found: Option<Tree>) =>
      match found
      case Some(Leaf(Text(text))) => Leaf(Text("[TODO: " + text + "]"))
      case Some(Node(kids)) => Node(map k | k in kids :: Leaf(Text("[TODO: " + show(kids[k]) + "]")))
      case _ => Leaf(Text("[TODO: " + key + "]"))
  }

  /** The keys written one after another; None is the TypeError. */
  function Fill(target: Tree, source: Tree, pick: Pick, keys: seq<string>): (r: Option<Tree>)
    requires target.Node?
    ensures r.Some? ==> r.value.Node?
    decreases |keys|
  {
    if keys == [] then Some(target)
    else
      var k := keys[|keys| - 1];
      match Fill(target, source, pick, keys[..|keys| - 1])
      case None => None
      case Some(t) => SetPath(t, Split(k), pick(k, GetPath(source, Split(k))))
  }

  /** What one write of the merge script leaves below its key: all that the source has there;
      or, if that is nothing, the key as its own text. */
  lemma FallbackWrites(t: Tree, source: Tree, key: string, q: Path)
    requires SetPath(t, Split(key), Fallback(key, GetPath(source, Split(key)))).Some?
    ensures var p := Split(key);
      var r := SetPath(t, p, Fallback(key, GetPath(source, p))).value;
      if LeafAt(source, p).Some? || DictAt(source, p) then
        LeafAt(r, p + q) == LeafAt(source, p + q) && (DictAt(r, p + q) <==> DictAt(source, p + q))
      else LeafAt(r, p) == Some(Text(key))
  {
    var p := Split(key);
    var v := Fallback(key, GetPath(source, p));
    GetBelow(source, p, q);
    SetPathLeaves(t, p, v, p);
    SetPathLeaves(t, p, v, p + q);
    SetPathDicts(t, p, v, p + q);
    assert p[|p|..] == [] && (p + q)[|p|..] == q;
  }

  /** What one write of the repair leaves: a note of the text that the source has there, one
      for each entry of a dictionary, or else one of the key. */
  lemma TodoWrites(t: Tree, source: Tree, show: Tree -> string, key: string, name: string)
    requires SetPath(t, Split(key), Todo(show)(key, GetPath(source, Split(key)))).Some?
    ensures var p, found := Split(key), GetPath(source, Split(key));
      var r := SetPath(t, p, Todo(show)(key, found)).value;
      if DictAt(source, p) then
        && found.Some? && found.value.Node?
        && LeafAt(r, p + [name]) == (if name !in found.value.kids then None
             else Some(Text("[TODO: " + show(found.value.kids[name]) + "]")))
      else if LeafAt(source, p).Some? && LeafAt(source, p).value.Text? then
        LeafAt(r, p) == Some(Text("[TODO: " + LeafAt(source, p).value.text + "]"))
      else LeafAt(r, p) == Some(Text("[TODO: " + key + "]"))
  {
    var p := Split(key);
    var v := Todo(show)(key, GetPath(source, p));
    GetLeaf(source, p);
    GetBelow(source, p, []);
    assert p + [] == p;
    SetPathLeaves(t, p, v, p);
    SetPathLeaves(t, p, v, p + [name]);
    assert p[|p|..] == [] && (p + [name])[|p|..] == [name] && [name][1..] == [];
  }

  lemma {:induction false} FillStops(target: Tree, source: Tree, pick: Pick, keys: seq<string>, n: nat)
    requires target.Node? && n <= |keys| && Fill(target, source, pick, keys[..n]).None?
    ensures Fill(target, source, pick, keys).None?
    decreases |keys|
  {
    if n < |keys| {
      assert keys[..|keys| - 1][..n] == keys[..n];
      FillStops(target, source, pick, keys[..|keys| - 1], n);
    } else {
      assert keys[..n] == keys;
    }
  }

  // ---------- One pass ----------

  /** The keys to write are leaves of one tree, so none lies above another. */
  predicate LeavesOf(origin: Tree, keys: seq<string>) {
    forall k <- keys :: LeafAt(origin, Split(k)).Some?
  }

  predicate PicksLeaves(source: Tree, pick: Pick, keys: seq<string>) {
    forall k <- keys :: pick(k, GetPath(source, Split(k))).Leaf?
  }

  predicate Written(keys: seq<string>, p: Path) {
    exists k <- keys :: Split(k) == p
  }

  predicate WrittenAbove(keys: seq<string>, p: Path) {
    exists k <- keys :: ProperPrefix(Split(k), p)
  }

  ghost predicate LeafAbove(t: Tree, p: Path) {
    exists q :: LeafAt(t, q).Some? && ProperPrefix(q, p)
  }

  /** Every leaf after a pass: what was picked for it, nothing below a written key, and
      what was there elsewhere. */
  lemma {:induction false} PassLeaf(target: Tree, origin: Tree, source: Tree, pick: Pick, keys: seq<string>, p: Path)
    requires target.Node? && LeavesOf(origin, keys) && PicksLeaves(source, pick, keys)
    requires Fill(target, source, pick, keys).Some?
    ensures forall k <- keys | Split(k) == p ::
      LeafAt(Fill(target, source, pick, keys).value, p) == Some(pick(k, GetPath(source, p)).value)
    ensures !Written(keys, p) ==>
      LeafAt(Fill(target, source, pick, keys).value, p) == if WrittenAbove(keys, p) then None else LeafAt(target, p)
    decreases |keys|
  {
    if keys != [] {
      var before, k := keys[..|keys| - 1], keys[|keys| - 1];
      var v := pick(k, GetPath(source, Split(k)));
      var t := Fill(target, source, pick, before).value;
      assert keys == before + [k];
      PassLeaf(target, origin, source, pick, before, p);
      SetPathLeaves(t, Split(k), v, p);
      if Split(k) == p {
        forall j <- keys | Split(j) == p ensures j == k { JoinSplit(j); JoinSplit(k); }
        assert p[|p|..] == [];
      } else if Split(k) <= p {
        assert ProperPrefix(Split(k), p) && p[|Split(k)|..] != [];
        forall j <- keys | Split(j) == p ensures false {
          LeavesAreIncomparable(origin, Split(k), Split(j));
        }
      }
    }
  }

  lemma {:induction false} PassSucceeds(target: Tree, origin: Tree, source: Tree, pick: Pick, keys: seq<string>)
    requires target.Node? && LeavesOf(origin, keys) && PicksLeaves(source, pick, keys)
    requires forall k <- keys :: !LeafAbove(target, Split(k))
    ensures Fill(target, source, pick, keys).Some?
    decreases |keys|
  {
    if keys != [] {
      var before, k := keys[..|keys| - 1], keys[|keys| - 1];
      assert keys == before + [k] && !LeafAbove(target, Split(k));
      PassSucceeds(target, origin, source, pick, before);
      var t := Fill(target, source, pick, before).value;
      SetPathRaises(t, Split(k), pick(k, GetPath(source, Split(k))));
      if q :| LeafAt(t, q).Some? && ProperPrefix(q, Split(k)) {
        PassLeaf(target, origin, source, pick, before, q);
        if j :| j in before && Split(j) == q { LeavesAreIncomparable(origin, Split(j), Split(k)); }
      }
    }
  }

  /** A leaf above a key is never written over before that key comes. */
  lemma {:induction false} PassKeepsAbove(target: Tree, origin: Tree, source: Tree, pick: Pick, keys: seq<string>,
        q: Path, p: Path)
    requires target.Node? && LeavesOf(origin, keys) && LeafAt(origin, p).Some?
    requires LeafAt(target, q).Some? && ProperPrefix(q, p) && Fill(target, source, pick, keys).Some?
    ensures LeafAt(Fill(target, source, pick, keys).value, q) == LeafAt(target, q)
    decreases |keys|
  {
    if keys != [] {
      var before, k := keys[..|keys| - 1], keys[|keys| - 1];
      assert keys == before + [k];
      PassKeepsAbove(target, origin, source, pick, before, q, p);
      if Split(k) <= q {
        LeavesAreIncomparable(origin, Split(k), p);
        assert false;
      }
      SetPathLeaves(Fill(target, source, pick, before).value, Split(k), pick(k, GetPath(source, Split(k))), q);
    }
  }

  lemma {:induction false} PassRaises(target: Tree, origin: Tree, source: Tree, pick: Pick, keys: seq<string>,
        k: string)
    requires target.Node? && LeavesOf(origin, keys) && k in keys && LeafAbove(target, Split(k))
    ensures Fill(target, source, pick, keys).None?
  {
    var i :| 0 <= i < |keys| && keys[i] == k;
    var before := keys[..i];
    assert keys[..i + 1][..i] == before;
    if Fill(target, source, pick, before).Some? {
      var q :| LeafAt(target, q).Some? && ProperPrefix(q, Split(k));
      PassKeepsAbove(target, origin, source, pick, before, q, Split(k));
      SetPathRaises(Fill(target, source, pick, before).value, Split(k), pick(k, GetPath(source, Split(k))));
    }
    FillStops(target, source, pick, keys, i + 1);
  }

  lemma {:induction false} SetPathClean(t: Tree, p: Path, v: Tree)
    requires Clean(t) && Clean(v) && p != [] && (forall n <- p :: Plain(n)) && SetPath(t, p, v).Some?
    ensures Clean(SetPath(t, p, v).value)
    decreases |p|
  {
    assert p[0] in p;
    if |p| > 1 {
      SetPathClean(if p[0] in t.kids then t.kids[p[0]] else Node(map[]), p[1..], v);
    }
  }

  lemma {:induction false} PassClean(target: Tree, origin: Tree, source: Tree, pick: Pick, keys: seq<string>)
    requires target.Node? && Clean(target) && Clean(origin) && LeavesOf(origin, keys) && PicksLeaves(source, pick, keys)
    requires Fill(target, source, pick, keys).Some?
    ensures Clean(Fill(target, source, pick, keys).value)
    decreases |keys|
  {
    if keys != [] {
      var before, k := keys[..|keys| - 1], keys[|keys| - 1];
      assert keys == before + [k];
      PassClean(target, origin, source, pick, before);
      LeafPathsArePlain(origin, Split(k));
      SetPathClean(Fill(target, source, pick, before).value, Split(k), pick(k, GetPath(source, Split(k))));
    }
  }

  lemma PassRegular(target: Tree, origin: Tree, source: Tree, pick: Pick, keys: seq<string>)
    requires Regular(target) && Regular(origin) && LeavesOf(origin, keys) && PicksLeaves(source, pick, keys)
    requires Fill(target, source, pick, keys).Some?
    ensures Regular(Fill(target, source, pick, keys).value)
  {
    PassClean(target, origin, source, pick, keys);
    forall p | LeafAt(Fill(target, source, pick, keys).value, p).Some? ensures Normal(p) {
      PassLeaf(target, origin, source, pick, keys, p);
      if Written(keys, p) { assert LeafAt(origin, p).Some?; }
    }
  }

  // ---------- Keys missing from one locale ----------

  /** `keys` lists, in any order, the keys of `source` that `target` lacks. */
  ghost predicate ListsMissing(keys: seq<string>, target: Tree, source: Tree)
    requires target.Node? && source.Node?
  {
    forall k :: k in keys <==> k in AllKeys(source, "") && k !in AllKeys(target, "")
  }

  lemma MissingAreLeaves(keys: seq<string>, target: Tree, source: Tree)
    requires Regular(target) && Regular(source) && ListsMissing(keys, target, source)
    ensures LeavesOf(source, keys)
    ensures forall p :: Written(keys, p) <==> LeafAt(source, p).Some? && LeafAt(target, p).None?
  {
    forall k <- keys ensures LeafAt(source, Split(k)).Some? && LeafAt(target, Split(k)).None? {
      KeysAreLeaves(source, k);
      KeysAreLeaves(target, k);
    }
    forall p | LeafAt(source, p).Some? && LeafAt(target, p).None? ensures Written(keys, p) {
      LeafPathsArePlain(source, p);
      var k := Dotted("", p);
      SplitDotted(p);
      NormKeepsNames(p);
      KeysAreLeaves(source, k);
      KeysAreLeaves(target, k);
      assert k in keys && Split(k) == p;
    }
  }

  /** The pick turns a leaf, or nothing, into a leaf. */
  ghost predicate LeafPick(pick: Pick) {
    forall k, found: Option<Tree> :: (found.Some? ==> found.value.Leaf?) ==> pick(k, found).Leaf?
  }


  lemma LeafPickPicksLeaves(source: Tree, pick: Pick, keys: seq<string>)
    requires LeafPick(pick) && LeavesOf(source, keys)
    ensures PicksLeaves(source, pick, keys)
  {
    forall k <- keys ensures pick(k, GetPath(source, Split(k))).Leaf? {
      GetLeaf(source, Split(k));
    }
  }

  /** Some leaf of `t` lies strictly above a leaf of `u`. */
  ghost predicate Overhangs(t: Tree, u: Tree) {
    exists q, p :: LeafAt(t, q).Some? && LeafAt(u, p).Some? && ProperPrefix(q, p)
  }

  /** One pass fails exactly when the target overhangs the source. */
  lemma PassRaisesExactly(target: Tree, source: Tree, pick: Pick, keys: seq<string>)
    requires Regular(target) && Regular(source)
    requires ListsMissing(keys, target, source) && LeafPick(pick)
    ensures Fill(target, source, pick, keys).None? <==> Overhangs(target, source)
  {
    MissingAreLeaves(keys, target, source);
    LeafPickPicksLeaves(source, pick, keys);
    if Overhangs(target, source) {
      var q, p :| LeafAt(target, q).Some? && LeafAt(source, p).Some? && ProperPrefix(q, p);
      if LeafAt(target, p).Some? { LeavesAreIncomparable(target, q, p); }
      assert Written(keys, p);
      var k :| k in keys && Split(k) == p;
      assert LeafAbove(target, Split(k));
      PassRaises(target, source, source, pick, keys, k);
    } else {
      forall k <- keys ensures !LeafAbove(target, Split(k)) {}
      PassSucceeds(target, source, source, pick, keys);
    }
  }

  function PickedAt(source: Tree, pick: Pick, p: Path): Option<Scalar> {
    match pick(Dotted("", p), GetPath(source, p))
    case Leaf(v) => Some(v)
    case Node(_) => None
  }

  /** What a pass that does not fail leaves at every path. */
  lemma PassLeaves(target: Tree, source: Tree, pick: Pick, keys: seq<string>, p: Path)
    requires Regular(target) && Regular(source)
    requires ListsMissing(keys, target, source) && LeafPick(pick)
    requires Fill(target, source, pick, keys).Some?
    ensures LeafAt(Fill(target, source, pick, keys).value, p) ==
      if LeafAt(source, p).Some? && LeafAt(target, p).None? then PickedAt(source, pick, p)
      else if LeafAbove(source, p) then None
      else LeafAt(target, p)
  {
    MissingAreLeaves(keys, target, source);
    LeafPickPicksLeaves(source, pick, keys);
    PassLeaf(target, source, source, pick, keys, p);
    if Written(keys, p) {
      var k :| k in keys && Split(k) == p;
      LeafPathsArePlain(source, p);
      DottedSplit(k);
    } else if LeafAbove(source, p) && LeafAt(target, p).Some? {
      var q :| LeafAt(source, q).Some? && ProperPrefix(q, p);
      if LeafAt(target, q).Some? { LeavesAreIncomparable(target, q, p); }
      assert Written(keys, q);
      var k :| k in keys && Split(k) == q;
      assert WrittenAbove(keys, p);
    } else if WrittenAbove(keys, p) {
      var k :| k in keys && ProperPrefix(Split(k), p);
      assert LeafAt(source, Split(k)).Some?;
    }
  }

  // ---------- The merge script: both directions ----------

  /** `en` is filled from `zh`, then `zh` from the filled `en`; the missing keys of both
      were listed before. */
  function FillBoth(en: Tree, zh: Tree, enLacks: seq<string>, zhLacks: seq<string>): Option<(Tree, Tree)>
    requires en.Node? && zh.Node?
  {
    match Fill(en, zh, Fallback, enLacks)
    case None => None
    case Some(en') =>
      match Fill(zh, en', Fallback, zhLacks)
      case None => None
      case Some(zh') => Some((en', zh'))
  }

  function OrElse<T>(first: Option<T>, second: Option<T>): Option<T> {
    if first.Some? then first else second
  }

  /** After the first pass the leaves of `en` are its own and the missing ones of `zh`. */
  lemma FirstPassLeaves(en: Tree, zh: Tree, enLacks: seq<string>, p: Path)
    requires Regular(en) && Regular(zh) && ListsMissing(enLacks, en, zh)
    requires Fill(en, zh, Fallback, enLacks).Some? && !Overhangs(zh, en)
    ensures LeafAt(Fill(en, zh, Fallback, enLacks).value, p) == OrElse(LeafAt(en, p), LeafAt(zh, p))
  {
    PassLeaves(en, zh, Fallback, enLacks, p);
    GetLeaf(zh, p);
    if LeafAbove(zh, p) {
      var q :| LeafAt(zh, q).Some? && ProperPrefix(q, p);
      if LeafAt(zh, p).Some? { LeavesAreIncomparable(zh, q, p); }
    }
  }

  /** The second pass, given the first, fails exactly when `zh` overhangs `en`. */
  lemma SecondPassRaises(en: Tree, zh: Tree, enLacks: seq<string>, zhLacks: seq<string>)
    requires Regular(en) && Regular(zh)
    requires ListsMissing(enLacks, en, zh) && ListsMissing(zhLacks, zh, en)
    requires Fill(en, zh, Fallback, enLacks).Some?
    ensures Fill(zh, Fill(en, zh, Fallback, enLacks).value, Fallback, zhLacks).None? <==> Overhangs(zh, en)
    ensures !Overhangs(zh, en) ==> PicksLeaves(Fill(en, zh, Fallback, enLacks).value, Fallback, zhLacks)
  {
    var filled := Fill(en, zh, Fallback, enLacks).value;
    MissingAreLeaves(zhLacks, zh, en);
    if Overhangs(zh, en) {
      var q, p :| LeafAt(zh, q).Some? && LeafAt(en, p).Some? && ProperPrefix(q, p);
      if LeafAt(zh, p).Some? { LeavesAreIncomparable(zh, q, p); }
      assert Written(zhLacks, p);
      var k :| k in zhLacks && Split(k) == p;
      assert LeafAbove(zh, Split(k));
      PassRaises(zh, en, filled, Fallback, zhLacks, k);
    } else {
      forall k <- zhLacks ensures Fallback(k, GetPath(filled, Split(k))).Leaf? {
        FirstPassLeaves(en, zh, enLacks, Split(k));
        GetLeaf(filled, Split(k));
      }
      forall k <- zhLacks ensures !LeafAbove(zh, Split(k)) {}
      PassSucceeds(zh, en, filled, Fallback, zhLacks);
    }
  }

  /** The two fills succeed exactly when no leaf of one file lies above a leaf of the
      other, whatever the order of the keys. */
  lemma FillBothRaisesExactly(en: Tree, zh: Tree, enLacks: seq<string>, zhLacks: seq<string>)
    requires Regular(en) && Regular(zh)
    requires ListsMissing(enLacks, en, zh) && ListsMissing(zhLacks, zh, en)
    ensures FillBoth(en, zh, enLacks, zhLacks).Some? <==> !Overhangs(en, zh) && !Overhangs(zh, en)
  {
    assert LeafPick(Fallback);
    PassRaisesExactly(en, zh, Fallback, enLacks);
    if Fill(en, zh, Fallback, enLacks).Some? {
      SecondPassRaises(en, zh, enLacks, zhLacks);
    }
  }

  /** Then every leaf of either file is in both, and each file's own value wins. */
  lemma FillBothLeaves(en: Tree, zh: Tree, enLacks: seq<string>, zhLacks: seq<string>, p: Path)
    requires Regular(en) && Regular(zh)
    requires ListsMissing(enLacks, en, zh) && ListsMissing(zhLacks, zh, en)
    requires FillBoth(en, zh, enLacks, zhLacks).Some?
    ensures LeafAt(FillBoth(en, zh, enLacks, zhLacks).value.0, p) == OrElse(LeafAt(en, p), LeafAt(zh, p))
    ensures LeafAt(FillBoth(en, zh, enLacks, zhLacks).value.1, p) == OrElse(LeafAt(zh, p), LeafAt(en, p))
  {
    var filled := Fill(en, zh, Fallback, enLacks).value;
    FillBothRaisesExactly(en, zh, enLacks, zhLacks);
    FirstPassLeaves(en, zh, enLacks, p);
    SecondPassRaises(en, zh, enLacks, zhLacks);
    MissingAreLeaves(zhLacks, zh, en);
    PassLeaf(zh, en, filled, Fallback, zhLacks, p);
    GetLeaf(filled, p);
    if Written(zhLacks, p) {
      var k :| k in zhLacks && Split(k) == p;
    } else if WrittenAbove(zhLacks, p) {
      var k :| k in zhLacks && ProperPrefix(Split(k), p);
      assert LeafAt(en, Split(k)).Some?;
      if LeafAt(en, p).Some? { LeavesAreIncomparable(en, Split(k), p); }
    }
  }

  lemma FillBothRegular(en: Tree, zh: Tree, enLacks: seq<string>, zhLacks: seq<string>)
    requires Regular(en) && Regular(zh)
    requires ListsMissing(enLacks, en, zh) && ListsMissing(zhLacks, zh, en)
    requires FillBoth(en, zh, enLacks, zhLacks).Some?
    ensures var both := FillBoth(en, zh, enLacks, zhLacks).value;
      Regular(both.0) && Regular(both.1)
  {
    var filled := Fill(en, zh, Fallback, enLacks).value;
    FillBothRaisesExactly(en, zh, enLacks, zhLacks);
    SecondPassRaises(en, zh, enLacks, zhLacks);
    MissingAreLeaves(enLacks, en, zh);
    MissingAreLeaves(zhLacks, zh, en);
    assert LeafPick(Fallback);
    LeafPickPicksLeaves(zh, Fallback, enLacks);
    PassRegular(en, zh, zh, Fallback, enLacks);
    PassRegular(zh, en, filled, Fallback, zhLacks);
  }

  /** The property the script is for. */
  lemma FillSynchronises(en: Tree, zh: Tree, enLacks: seq<string>, zhLacks: seq<string>)
    requires Regular(en) && Regular(zh)
    requires ListsMissing(enLacks, en, zh) && ListsMissing(zhLacks, zh, en)
    ensures var r := FillBoth(en, zh, enLacks, zhLacks);
      && (r.Some? <==> !Overhangs(en, zh) && !Overhangs(zh, en))
      && (r.Some? ==>
        && r.value.0.Node? && r.value.1.Node?
        && AllKeys(r.value.0, "") == AllKeys(en, "") + AllKeys(zh, "")
        && AllKeys(r.value.1, "") == AllKeys(en, "") + AllKeys(zh, "")
        && (forall p | LeafAt(en, p).Some? :: LeafAt(r.value.0, p) == LeafAt(en, p))
        && (forall p | LeafAt(zh, p).Some? :: LeafAt(r.value.1, p) == LeafAt(zh, p)))
  {
    FillBothRaisesExactly(en, zh, enLacks, zhLacks);
    var r := FillBoth(en, zh, enLacks, zhLacks);
    if r.Some? {
      FillBothRegular(en, zh, enLacks, zhLacks);
      forall p
        ensures LeafAt(r.value.0, p) == OrElse(LeafAt(en, p), LeafAt(zh, p))
        ensures LeafAt(r.value.1, p) == OrElse(LeafAt(zh, p), LeafAt(en, p))
      {
        FillBothLeaves(en, zh, enLacks, zhLacks, p);
      }
      forall k
        ensures k in AllKeys(r.value.0, "") <==> k in AllKeys(en, "") + AllKeys(zh, "")
        ensures k in AllKeys(r.value.1, "") <==> k in AllKeys(en, "") + AllKeys(zh, "")
      {
        KeysAreLeaves(en, k);
        KeysAreLeaves(zh, k);
        KeysAreLeaves(r.value.0, k);
        KeysAreLeaves(r.value.1, k);
      }
    }
  }

  /** Files without a clash in the sense of `deep_merge` always synchronise. */
  lemma {:induction false} ClashFreeDoesNotOverhang(t: Tree, u: Tree, q: Path, p: Path)
    requires ClashFree(t, u) && (t.Node? <==> u.Node?) && LeafAt(t, q).Some? && LeafAt(u, p).Some?
    ensures !ProperPrefix(q, p)
    decreases |q|
  {
    if t.Node? && p[0] == q[0] {
      ClashFreeDoesNotOverhang(t.kids[q[0]], u.kids[p[0]], q[1..], p[1..]);
      assert q == [q[0]] + q[1..] && p == [p[0]] + p[1..];
    }
  }

  // ---------- The sync check's repair: one direction ----------

  /** The repair raises exactly when the locale overhangs the reference. Otherwise it
      leaves the reference's keys and those keys of the locale that no reference key lies
      above: these last are lost without a word. */
  lemma FixKeys(locale: Tree, reference: Tree, show: Tree -> string, missing: seq<string>)
    requires Regular(locale) && Regular(reference)
    requires ListsMissing(missing, locale, reference)
    ensures var r := Fill(locale, reference, Todo(show), missing);
      && (r.None? <==> Overhangs(locale, reference))
      && (r.Some? ==> forall k :: k in AllKeys(r.value, "") <==>
            k in AllKeys(reference, "") || (k in AllKeys(locale, "") && !LeafAbove(reference, Split(k))))
  {
    var pick := Todo(show);
    assert LeafPick(pick);
    PassRaisesExactly(locale, reference, pick, missing);
    var r := Fill(locale, reference, pick, missing);
    if r.Some? {
      MissingAreLeaves(missing, locale, reference);
      LeafPickPicksLeaves(reference, pick, missing);
      PassRegular(locale, reference, reference, pick, missing);
      forall k
        ensures k in AllKeys(r.value, "") <==>
          k in AllKeys(reference, "") || (k in AllKeys(locale, "") && !LeafAbove(reference, Split(k)))
      {
        var p := Split(k);
        KeysAreLeaves(locale, k);
        KeysAreLeaves(reference, k);
        KeysAreLeaves(r.value, k);
        PassLeaves(locale, reference, pick, missing, p);
        GetLeaf(reference, p);
        if LeafAt(reference, p).Some? && LeafAbove(reference, p) {
          var q :| LeafAt(reference, q).Some? && ProperPrefix(q, p);
          LeavesAreIncomparable(reference, q, p);
        }
      }
    }
  }

  // ---------- Why names may not be empty or contain dots ----------

  const UNDER_EMPTY: Tree := Node(map["" := Node(map["a" := Leaf(Text("x"))]),
        "a" := Node(map["b" := Leaf(Text("y"))])])

  lemma UnderEmptyKeys(outer: Tree)
    requires outer == Node(map["b" := Leaf(Text("y"))])
    ensures AllKeys(UNDER_EMPTY, "") == {"a", "a.b"} && KeysBelow(Node(map["a" := outer]), "a", "") == {"a.b"}
  {
    var t, inner := UNDER_EMPTY, Node(map["a" := Leaf(Text("x"))]);
    assert t.kids[""] == inner && t.kids["a"] == outer && "a" + "." + "b" == "a.b";
    assert AllKeys(inner, "") == {"a"} by { assert KeysBelow(inner, "a", "") == {"a"}; }
    assert AllKeys(outer, "a") == {"a.b"} by { assert KeysBelow(outer, "b", "a") == {"a.b"}; }
    assert KeysBelow(t, "", "") == {"a"} && KeysBelow(t, "a", "") == {"a.b"};
  }

  /** With an empty name two different paths print alike, and the filled file ends up
      without one of the keys. */
  lemma EmptyNamesLoseKeys()
    ensures AllKeys(UNDER_EMPTY, "") == {"a", "a.b"}
    ensures var r := Fill(Node(map[]), UNDER_EMPTY, Fallback, ["a", "a.b"]);
      r.Some? && "a" !in AllKeys(r.value, "")
  {
    var t, ab, outer := UNDER_EMPTY, ["a", "b"], Node(map["b" := Leaf(Text("y"))]);
    UnderEmptyKeys(outer);
    assert t.kids["a"] == outer;
    SplitName("a");
    SplitName("b");
    SplitCons("a", "b");
    assert "a" + "." + "b" == "a.b" && Split("a.b") == ab;
    var keys := ["a", "a.b"];
    assert keys[..1] == ["a"] && keys[..1][..0] == [];
    assert GetPath(t, ["a"]) == Some(outer) by { assert ["a"][1..] == []; }
    assert Fill(Node(map[]), t, Fallback, keys[..1]) == Some(Node(map["a" := outer]));
    assert ab[1..] == ["b"] && ["b"][1..] == [];
    assert GetPath(t, ab) == GetPath(outer, ["b"]) == Some(Leaf(Text("y")));
    var r := Fill(Node(map[]), t, Fallback, keys);
    assert outer.kids["b" := Leaf(Text("y"))] == outer.kids;
    assert SetPath(outer, ["b"], Leaf(Text("y"))) == Some(outer);
    var half := map["a" := outer];
    assert half["a" := outer] == half;
    assert r == Some(Node(map["a" := outer]));
    assert KeysBelow(r.value, "a", "") == {"a.b"};
  }

  const DOTTED_NAME: Tree := Node(map["a" := Leaf(Text("x")), "a.b" := Leaf(Text("y"))])

  /** With a dot in a name the order of the keys decides between an error and the loss of
      a key. */
  lemma DotsMakeTheOrderMatter()
    ensures AllKeys(DOTTED_NAME, "") == {"a", "a.b"}
    ensures Fill(Node(map[]), DOTTED_NAME, Fallback, ["a", "a.b"]).None?
    ensures var r := Fill(Node(map[]), DOTTED_NAME, Fallback, ["a.b", "a"]);
      r.Some? && "a.b" !in AllKeys(r.value, "")
  {
    var t, ab, empty := DOTTED_NAME, ["a", "b"], Node(map[]);
    assert KeysBelow(t, "a", "") == {"a"} && KeysBelow(t, "a.b", "") == {"a.b"};
    SplitName("a");
    SplitName("b");
    SplitCons("a", "b");
    assert "a" + "." + "b" == "a.b" && Split("a.b") == ab;
    assert ab[1..] == ["b"] && ["a"][1..] == [];
    assert GetPath(t, ["a"]) == Some(Leaf(Text("x"))) && GetPath(t, ab) == None;
    var up, down := ["a", "a.b"], ["a.b", "a"];
    assert up[..1] == ["a"] && down[..1] == ["a.b"] && up[..1][..0] == down[..1][..0] == [];
    assert Fill(empty, t, Fallback, up[..1]) == Some(Node(map["a" := Leaf(Text("x"))]));
    var b := Node(map["b" := Leaf(Text("a.b"))]);
    assert SetPath(empty, ["b"], Leaf(Text("a.b"))) == Some(b);
    assert Fill(empty, t, Fallback, down[..1]) == Some(Node(map["a" := b]));
    var r := Fill(empty, t, Fallback, down);
    var half := map["a" := b];
    assert half["a" := Leaf(Text("x"))] == map["a" := Leaf(Text("x"))];
    assert r == Some(Node(map["a" := Leaf(Text("x"))]));
    assert KeysBelow(r.value, "a", "") == {"a"};
  }
}
