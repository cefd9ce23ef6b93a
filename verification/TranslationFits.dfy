/** Exactly when filling the missing keys synchronises two locales, for all trees: names
    may be empty or contain dots, files may clash, and keys may print alike.

    `SynchronisesExactly` gives the condition, over the paths that are written: whatever
    the order of the keys, both files end up with their own leaves and the leaves they
    lacked of the other if and only if the files fit. `FitMeansNoOverhang` shows what that
    comes to for regular files, `SynchronisedKeys` what it says of the keys. */
module TranslationFits {
  import opened Options
  import opened TranslationTrees
  import opened TranslationKeys
  import opened TranslationFill

  // ---------- Paths ----------

  lemma {:induction false} GetBelow(t: Tree, q: Path, p: Path)
    requires q <= p && GetPath(t, q).Some?
    ensures LeafAt(t, p) == LeafAt(GetPath(t, q).value, p[|q|..])
    ensures GetPath(t, p) == GetPath(GetPath(t, q).value, p[|q|..])
    decreases |q|
  {
    if q == [] {
      assert p[0..] == p;
    } else {
      assert q[0] == p[0] && q[1..] <= p[1..];
      GetBelow(t.kids[q[0]], q[1..], p[1..]);
      assert p[1..][|q[1..]|..] == p[|q|..];
    }
  }

  /** What has a path has everything above it, and no leaf there. */
  lemma {:induction false} HasAbove(t: Tree, q: Path, p: Path)
    requires q <= p && GetPath(t, p).Some?
    ensures GetPath(t, q).Some? && (q != p ==> LeafAt(t, q).None?)
    decreases |q|
  {
    if q != [] {
      assert q[0] == p[0] && q[1..] <= p[1..];
      if q[1..] == p[1..] { assert q == [q[0]] + q[1..] && p == [p[0]] + p[1..]; }
      HasAbove(t.kids[q[0]], q[1..], p[1..]);
    }
  }

  lemma LeafIsHad(t: Tree, p: Path)
    requires LeafAt(t, p).Some?
    ensures GetPath(t, p).Some?
  {
    GetLeaf(t, p);
  }

  /** What a write leaves there to be found. */
  lemma {:induction false} SetPathHas(t: Tree, q: Path, v: Tree, p: Path)
    requires q != [] && SetPath(t, q, v).Some?
    ensures GetPath(SetPath(t, q, v).value, p).Some? <==>
      if q <= p then GetPath(v, p[|q|..]).Some? else p <= q || GetPath(t, p).Some?
    decreases |q|
  {
    if p != [] && p[0] == q[0] && |q| > 1 {
      var kid := if q[0] in t.kids then t.kids[q[0]] else Node(map[]);
      SetPathHas(kid, q[1..], v, p[1..]);
      assert (q <= p <==> q[1..] <= p[1..]) && (p <= q <==> p[1..] <= q[1..]);
      if q <= p { assert p[1..][|q[1..]|..] == p[|q|..]; }
      if q[0] !in t.kids && p[1..] != [] { assert GetPath(kid, p[1..]) == None; }
    } else if q <= p {
      assert p[0] == q[0] && p[1..] == p[|q|..];
    }
  }

  // ---------- One pass ----------

  /** All that a pass sees of its source. */
  datatype View = View(has: Path -> bool, leaf: Path -> Option<Scalar>)

  ghost predicate Shows(view: View, t: Tree) {
    forall p :: (view.has(p) <==> GetPath(t, p).Some?) && view.leaf(p) == LeafAt(t, p)
  }

  function Of(t: Tree): View {
    View(p => GetPath(t, p).Some?, p => LeafAt(t, p))
  }

  /** The write of this key copies what the source has at or above the path. */
  predicate Copies(view: View, k: string, p: Path) {
    view.has(Split(k)) && Split(k) <= p
  }

  ghost predicate CanWrite(target: Tree, keys: set<string>) {
    forall k <- keys :: !LeafAbove(target, Split(k))
  }

  /** Every key leads to something in the source; or to the leaf that would be written for
      want of it, and is there already. */
  predicate CanCopy(target: Tree, view: View, keys: set<string>) {
    forall k <- keys :: view.has(Split(k)) || LeafAt(target, Split(k)) == Some(Text(k))
  }

  /** Where a leaf of the target is written over, the source has the same leaf. */
  ghost predicate KeepsOwn(target: Tree, view: View, keys: set<string>) {
    forall p | LeafAt(target, p).Some? ::
      forall k <- keys | Copies(view, k, p) :: view.leaf(p) == LeafAt(target, p)
  }

  /** Every leaf the target lacks is at or below a written path. */
  ghost predicate GetsAll(target: Tree, view: View, keys: set<string>) {
    forall p | view.leaf(p).Some? && LeafAt(target, p).None? :: exists k <- keys :: Split(k) <= p
  }

  ghost predicate Fits(target: Tree, view: View, keys: set<string>) {
    && CanWrite(target, keys) && CanCopy(target, view, keys)
    && KeepsOwn(target, view, keys) && GetsAll(target, view, keys)
  }

  ghost predicate ListsOnce(ks: seq<string>, keys: set<string>) {
    && (forall k :: k in ks <==> k in keys)
    && forall i, j | 0 <= i < j < |ks| :: ks[i] != ks[j]
  }

  /** The target has its own leaves and those it lacked of the source. */
  ghost predicate Joined(r: Option<Tree>, target: Tree, view: View) {
    r.Some? && forall p :: LeafAt(r.value, p) == OrElse(LeafAt(target, p), view.leaf(p))
  }

  function Pass(target: Tree, source: Tree, ks: seq<string>): Option<Tree>
    requires target.Node?
  {
    Fill(target, source, Fallback, ks)
  }

  /** One write after others. */
  lemma WriteLast(target: Tree, source: Tree, view: View, ks: seq<string>, k: string, p: Path)
    requires target.Node? && Shows(view, source) && Pass(target, source, ks).Some?
    ensures var t, q := Pass(target, source, ks).value, Split(k);
      && Pass(target, source, ks + [k]) == SetPath(t, q, Fallback(k, GetPath(source, q)))
      && (Pass(target, source, ks + [k]).Some? ==>
        LeafAt(Pass(target, source, ks + [k]).value, p) ==
          if !(q <= p) then LeafAt(t, p)
          else if view.has(q) then view.leaf(p)
          else if p == q then Some(Text(k)) else None)
  {
    var t, q := Pass(target, source, ks).value, Split(k);
    assert (ks + [k])[..|ks|] == ks;
    if SetPath(t, q, Fallback(k, GetPath(source, q))).Some? {
      SetPathLeaves(t, q, Fallback(k, GetPath(source, q)), p);
      if q <= p && view.has(q) { GetBelow(source, q, p); }
      if q <= p { assert p[|q|..] == [] <==> p == q; }
    }
  }

  /** A key with nothing to copy has no copying key above or below it, where own leaves are
      kept. */
  lemma NothingCopied(target: Tree, source: Tree, view: View, keys: set<string>, k: string, j: string, p: Path)
    requires Shows(view, source) && KeepsOwn(target, view, keys) && j in keys
    requires !view.has(Split(k)) && LeafAt(target, Split(k)).Some?
    requires Split(k) <= p || p <= Split(k)
    ensures !Copies(view, j, p)
  {
    if Copies(view, j, p) {
      var q, r := Split(k), Split(j);
      if r <= q {
        assert view.leaf(q) == LeafAt(target, q);
        LeafIsHad(source, q);
      } else {
        assert q <= r;
        HasAbove(source, q, r);
      }
    }
  }

  /** Every leaf after some of the writes. */
  lemma {:induction false} LeafSoFar(target: Tree, source: Tree, view: View, keys: set<string>, ks: seq<string>,
      p: Path)
    requires target.Node? && Shows(view, source) && CanCopy(target, view, keys) && KeepsOwn(target, view, keys)
    requires (forall k <- ks :: k in keys) && Pass(target, source, ks).Some?
    ensures LeafAt(Pass(target, source, ks).value, p)
         == if exists k <- ks :: Copies(view, k, p) then view.leaf(p) else LeafAt(target, p)
    decreases |ks|
  {
    if ks != [] {
      var before, k := ks[..|ks| - 1], ks[|ks| - 1];
      var q := Split(k);
      assert ks == before + [k] && k in keys;
      LeafSoFar(target, source, view, keys, before, p);
      WriteLast(target, source, view, before, k, p);
      if q <= p && !view.has(q) {
        forall j <- ks ensures !Copies(view, j, p) { NothingCopied(target, source, view, keys, k, j, p); }
        if p != q && LeafAt(target, p).Some? { LeavesAreIncomparable(target, q, p); }
      }
    }
  }

  lemma {:induction false} WritesSucceed(target: Tree, source: Tree, view: View, keys: set<string>, ks: seq<string>)
    requires target.Node? && Shows(view, source) && (forall k <- ks :: k in keys)
    requires CanWrite(target, keys) && CanCopy(target, view, keys) && KeepsOwn(target, view, keys)
    ensures Pass(target, source, ks).Some?
    decreases |ks|
  {
    if ks != [] {
      var before, k := ks[..|ks| - 1], ks[|ks| - 1];
      var q := Split(k);
      assert ks == before + [k] && k in keys && !LeafAbove(target, q);
      WritesSucceed(target, source, view, keys, before);
      var t := Pass(target, source, before).value;
      SetPathRaises(t, q, Fallback(k, GetPath(source, q)));
      if s :| LeafAt(t, s).Some? && ProperPrefix(s, q) {
        LeafSoFar(target, source, view, keys, before, s);
        if exists j <- before :: Copies(view, j, s) {
          NoLeafCopiedAbove(target, source, view, keys, before, k, s);
        }
      }
    }
  }

  lemma NoLeafCopiedAbove(target: Tree, source: Tree, view: View, keys: set<string>, ks: seq<string>,
      k: string, s: Path)
    requires target.Node? && Shows(view, source) && CanCopy(target, view, keys) && KeepsOwn(target, view, keys)
    requires k in keys && (forall j <- ks :: j in keys) && (exists j <- ks :: Copies(view, j, s))
    requires ProperPrefix(s, Split(k))
    ensures view.leaf(s).None?
  {
    if view.leaf(s).Some? {
      if view.has(Split(k)) {
        HasAbove(source, s, Split(k));
      } else {
        var j :| j in ks && Copies(view, j, s);
        NothingCopied(target, source, view, keys, k, j, s);
      }
    }
  }

  /** If the target fits, every order of the keys joins the leaves. */
  lemma FitsJoins(target: Tree, source: Tree, view: View, keys: set<string>, ks: seq<string>)
    requires target.Node? && Shows(view, source) && Fits(target, view, keys) && ListsOnce(ks, keys)
    ensures Joined(Pass(target, source, ks), target, view)
  {
    WritesSucceed(target, source, view, keys, ks);
    forall p ensures LeafAt(Pass(target, source, ks).value, p) == OrElse(LeafAt(target, p), view.leaf(p)) {
      LeafSoFar(target, source, view, keys, ks, p);
      if view.leaf(p).Some? && LeafAt(target, p).None? {
        var k :| k in keys && Split(k) <= p;
        LeafIsHad(source, p);
        HasAbove(source, Split(k), p);
        assert k in ks && Copies(view, k, p);
      }
    }
  }

  // ---------- The condition is needed ----------

  lemma {:induction false} SomeOrder(keys: set<string>) returns (ks: seq<string>)
    ensures ListsOnce(ks, keys)
    decreases |keys|
  {
    ks := [];
    if keys != {} {
      var k :| k in keys;
      var rest := SomeOrder(keys - {k});
      ks := [k] + rest;
    }
  }

  lemma OrderWithFirst(keys: set<string>, k: string) returns (rest: seq<string>)
    requires k in keys
    ensures ListsOnce([k] + rest, keys)
  {
    rest := SomeOrder(keys - {k});
  }

  lemma OrderWithLast(keys: set<string>, k: string) returns (rest: seq<string>)
    requires k in keys
    ensures ListsOnce(rest + [k], keys)
  {
    rest := SomeOrder(keys - {k});
  }

  ghost predicate AllOrdersJoin(target: Tree, source: Tree, view: View, keys: set<string>)
    requires target.Node?
  {
    forall ks | ListsOnce(ks, keys) :: Joined(Pass(target, source, ks), target, view)
  }

  lemma WriteFirst(target: Tree, source: Tree, view: View, keys: set<string>, k: string)
    requires target.Node? && AllOrdersJoin(target, source, view, keys) && k in keys
    ensures !LeafAbove(target, Split(k))
  {
    var rest := OrderWithFirst(keys, k);
    var ks := [k] + rest;
    assert Joined(Pass(target, source, ks), target, view);
    assert ks[..1] == [k] && ks[..1][..0] == [];
    SetPathRaises(target, Split(k), Fallback(k, GetPath(source, Split(k))));
    if LeafAbove(target, Split(k)) { FillStops(target, source, Fallback, ks, 1); }
  }

  lemma PassBefore(target: Tree, source: Tree, ks: seq<string>, k: string)
    requires target.Node?
    ensures Pass(target, source, ks + [k]).Some? ==> Pass(target, source, ks).Some?
  {
    var all := ks + [k];
    assert all[..|ks|] == ks;
    if Pass(target, source, all[..|ks|]).None? { FillStops(target, source, Fallback, all, |ks|); }
  }

  lemma WriteInTheEnd(target: Tree, source: Tree, view: View, keys: set<string>, k: string, p: Path)
    requires target.Node? && Shows(view, source) && AllOrdersJoin(target, source, view, keys) && k in keys
    requires Split(k) <= p
    ensures OrElse(LeafAt(target, p), view.leaf(p)) ==
      if view.has(Split(k)) then view.leaf(p) else if p == Split(k) then Some(Text(k)) else None
  {
    var rest := OrderWithLast(keys, k);
    var ks := rest + [k];
    assert Joined(Pass(target, source, ks), target, view);
    PassBefore(target, source, rest, k);
    WriteLast(target, source, view, rest, k, p);
  }

  lemma {:induction false} Untouched(target: Tree, source: Tree, ks: seq<string>, p: Path)
    requires target.Node? && Pass(target, source, ks).Some? && forall k <- ks :: !(Split(k) <= p)
    ensures LeafAt(Pass(target, source, ks).value, p) == LeafAt(target, p)
    decreases |ks|
  {
    if ks != [] {
      var before, k := ks[..|ks| - 1], ks[|ks| - 1];
      assert ks == before + [k];
      Untouched(target, source, before, p);
      SetPathLeaves(Pass(target, source, before).value, Split(k), Fallback(k, GetPath(source, Split(k))), p);
    }
  }

  /** One pass joins the leaves in every order of the keys exactly if the target fits. */
  lemma PassJoinsExactly(target: Tree, source: Tree, view: View, keys: set<string>)
    requires target.Node? && Shows(view, source)
    ensures AllOrdersJoin(target, source, view, keys) <==> Fits(target, view, keys)
  {
    if Fits(target, view, keys) {
      forall ks | ListsOnce(ks, keys) ensures Joined(Pass(target, source, ks), target, view) {
        FitsJoins(target, source, view, keys, ks);
      }
    }
    if AllOrdersJoin(target, source, view, keys) {
      forall k <- keys ensures !LeafAbove(target, Split(k)) { WriteFirst(target, source, view, keys, k); }
      forall k <- keys ensures view.has(Split(k)) || LeafAt(target, Split(k)) == Some(Text(k)) {
        WriteInTheEnd(target, source, view, keys, k, Split(k));
        if !view.has(Split(k)) && view.leaf(Split(k)).Some? { LeafIsHad(source, Split(k)); }
      }
      forall p, k | LeafAt(target, p).Some? && k in keys && Copies(view, k, p)
        ensures view.leaf(p) == LeafAt(target, p)
      {
        WriteInTheEnd(target, source, view, keys, k, p);
      }
      var ks := SomeOrder(keys);
      assert Joined(Pass(target, source, ks), target, view);
      forall p | view.leaf(p).Some? && LeafAt(target, p).None? ensures exists k <- keys :: Split(k) <= p {
        if forall k <- keys :: !(Split(k) <= p) { Untouched(target, source, ks, p); }
      }
    }
  }

  // ---------- Both passes ----------

  /** What the first locale shows once it is filled, before any fill. */
  ghost function Filled(en: Tree, zh: Tree, keys: set<string>): View {
    View(
      p => if exists k <- keys :: Copies(Of(zh), k, p) then GetPath(zh, p).Some?
           else GetPath(en, p).Some? || exists k <- keys :: p <= Split(k),
      p => OrElse(LeafAt(en, p), LeafAt(zh, p)))
  }

  lemma {:induction false} HasSoFar(en: Tree, zh: Tree, keys: set<string>, ks: seq<string>, p: Path)
    requires en.Node? && CanWrite(en, keys) && CanCopy(en, Of(zh), keys) && KeepsOwn(en, Of(zh), keys)
    requires (forall k <- ks :: k in keys) && Pass(en, zh, ks).Some?
    ensures GetPath(Pass(en, zh, ks).value, p).Some? <==>
      if exists k <- ks :: Copies(Of(zh), k, p) then GetPath(zh, p).Some?
      else GetPath(en, p).Some? || exists k <- ks :: p <= Split(k)
    decreases |ks|
  {
    if ks != [] {
      var before, k := ks[..|ks| - 1], ks[|ks| - 1];
      var q := Split(k);
      assert ks == before + [k] && k in keys;
      HasSoFar(en, zh, keys, before, p);
      SetPathHas(Pass(en, zh, before).value, q, Fallback(k, GetPath(zh, q)), p);
      if GetPath(zh, q).Some? {
        if q <= p {
          GetBelow(zh, q, p);
          assert Copies(Of(zh), k, p);
        } else if p <= q {
          HasAbove(zh, p, q);
        }
      } else {
        HasAroundFallback(en, zh, keys, ks, k, p);
      }
    }
  }

  lemma HasAroundFallback(en: Tree, zh: Tree, keys: set<string>, ks: seq<string>, k: string, p: Path)
    requires CanWrite(en, keys) && CanCopy(en, Of(zh), keys) && KeepsOwn(en, Of(zh), keys)
    requires (forall j <- ks :: j in keys) && k in keys && GetPath(zh, Split(k)).None?
    ensures (Split(k) <= p || p <= Split(k)) ==> forall j <- ks :: !Copies(Of(zh), j, p)
    ensures Split(k) < p ==> GetPath(en, p).None? && forall j <- ks :: !(p <= Split(j))
    ensures Split(k) == p ==> GetPath(en, p).Some?
    ensures Split(k) <= p ==> (GetPath(Leaf(Text(k)), p[|Split(k)|..]).Some? <==> p == Split(k))
  {
    var q := Split(k);
    LeafIsHad(en, q);
    forall j <- ks | q <= p || p <= q ensures !Copies(Of(zh), j, p) {
      NothingCopied(en, zh, Of(zh), keys, k, j, p);
    }
    if q < p {
      if GetPath(en, p).Some? { HasAbove(en, q, p); }
      forall j <- ks ensures !(p <= Split(j)) {
        assert !LeafAbove(en, Split(j));
        assert !ProperPrefix(q, Split(j));
      }
    }
    if q <= p { assert p[|q|..] == [] <==> p == q; }
  }

  lemma FilledShows(en: Tree, zh: Tree, keys: set<string>, ks: seq<string>)
    requires en.Node? && Fits(en, Of(zh), keys) && ListsOnce(ks, keys)
    ensures Pass(en, zh, ks).Some? && Shows(Filled(en, zh, keys), Pass(en, zh, ks).value)
  {
    FitsJoins(en, zh, Of(zh), keys, ks);
    var view := Filled(en, zh, keys);
    forall p ensures view.has(p) <==> GetPath(Pass(en, zh, ks).value, p).Some? {
      HasSoFar(en, zh, keys, ks, p);
      assert (exists k <- ks :: Copies(Of(zh), k, p)) <==> exists k <- keys :: Copies(Of(zh), k, p);
      assert (exists k <- ks :: p <= Split(k)) <==> exists k <- keys :: p <= Split(k);
    }
  }

  function Lacking(target: Tree, source: Tree): set<string>
    requires target.Node? && source.Node?
  {
    AllKeys(source, "") - AllKeys(target, "")
  }

  /** Both files have their own leaves and those they lacked of the other. */
  ghost predicate Synchronised(r: Option<(Tree, Tree)>, en: Tree, zh: Tree) {
    && r.Some? && r.value.0.Node? && r.value.1.Node?
    && (forall p :: LeafAt(r.value.0, p) == OrElse(LeafAt(en, p), LeafAt(zh, p)))
    && forall p :: LeafAt(r.value.1, p) == OrElse(LeafAt(zh, p), LeafAt(en, p))
  }

  ghost predicate AllOrdersSynchronise(en: Tree, zh: Tree)
    requires en.Node? && zh.Node?
  {
    forall enLacks, zhLacks | ListsOnce(enLacks, Lacking(en, zh)) && ListsOnce(zhLacks, Lacking(zh, en)) ::
      Synchronised(FillBoth(en, zh, enLacks, zhLacks), en, zh)
  }

  ghost predicate FitTogether(en: Tree, zh: Tree)
    requires en.Node? && zh.Node?
  {
    && Fits(en, Of(zh), Lacking(en, zh))
    && Fits(zh, Filled(en, zh, Lacking(en, zh)), Lacking(zh, en))
  }

  lemma FirstPassNeeded(en: Tree, zh: Tree)
    requires en.Node? && zh.Node? && AllOrdersSynchronise(en, zh)
    ensures Fits(en, Of(zh), Lacking(en, zh))
  {
    var zhLacks := SomeOrder(Lacking(zh, en));
    forall ks | ListsOnce(ks, Lacking(en, zh)) ensures Joined(Pass(en, zh, ks), en, Of(zh)) {
      assert Synchronised(FillBoth(en, zh, ks, zhLacks), en, zh);
    }
    PassJoinsExactly(en, zh, Of(zh), Lacking(en, zh));
  }

  /** Given the first pass, the second synchronises exactly if it joins. */
  lemma SecondPassJoins(en: Tree, zh: Tree, enLacks: seq<string>, zhLacks: seq<string>)
    requires en.Node? && zh.Node? && Fits(en, Of(zh), Lacking(en, zh)) && ListsOnce(enLacks, Lacking(en, zh))
    ensures Pass(en, zh, enLacks).Some?
    ensures Synchronised(FillBoth(en, zh, enLacks, zhLacks), en, zh) <==>
      Joined(Pass(zh, Pass(en, zh, enLacks).value, zhLacks), zh, Filled(en, zh, Lacking(en, zh)))
  {
    FitsJoins(en, zh, Of(zh), Lacking(en, zh), enLacks);
    var view := Filled(en, zh, Lacking(en, zh));
    forall p ensures OrElse(LeafAt(zh, p), view.leaf(p)) == OrElse(LeafAt(zh, p), LeafAt(en, p)) {}
  }

  /** Whatever the order of the keys, the fills synchronise the two files exactly if the
      files fit together. */
  lemma SynchronisesExactly(en: Tree, zh: Tree)
    requires en.Node? && zh.Node?
    ensures AllOrdersSynchronise(en, zh) <==> FitTogether(en, zh)
  {
    var view := Filled(en, zh, Lacking(en, zh));
    if AllOrdersSynchronise(en, zh) { FirstPassNeeded(en, zh); }
    if Fits(en, Of(zh), Lacking(en, zh)) {
      var some := SomeOrder(Lacking(en, zh));
      FilledShows(en, zh, Lacking(en, zh), some);
      PassJoinsExactly(zh, Pass(en, zh, some).value, view, Lacking(zh, en));
      if AllOrdersSynchronise(en, zh) {
        forall zhLacks | ListsOnce(zhLacks, Lacking(zh, en))
          ensures Joined(Pass(zh, Pass(en, zh, some).value, zhLacks), zh, view)
        {
          SecondPassJoins(en, zh, some, zhLacks);
        }
      }
      if FitTogether(en, zh) {
        forall enLacks, zhLacks | ListsOnce(enLacks, Lacking(en, zh)) && ListsOnce(zhLacks, Lacking(zh, en))
          ensures Synchronised(FillBoth(en, zh, enLacks, zhLacks), en, zh)
        {
          SecondPassJoins(en, zh, enLacks, zhLacks);
          FilledShows(en, zh, Lacking(en, zh), enLacks);
          FitsJoins(zh, Pass(en, zh, enLacks).value, view, Lacking(zh, en), zhLacks);
        }
      }
    }
  }

  // ---------- What it comes to ----------

  lemma KeysOfLeaves(t: Tree, u: Tree, v: Tree)
    requires t.Node? && u.Node? && v.Node?
    requires forall p :: LeafAt(t, p).Some? <==> LeafAt(u, p).Some? || LeafAt(v, p).Some?
    ensures AllKeys(t, "") == AllKeys(u, "") + AllKeys(v, "")
  {
    forall s ensures s in AllKeys(t, "") <==> s in AllKeys(u, "") || s in AllKeys(v, "") {
      KeysArePaths(t, "", s);
      KeysArePaths(u, "", s);
      KeysArePaths(v, "", s);
      forall p ensures KeyOfLeaf(t, "", p, s) <==> KeyOfLeaf(u, "", p, s) || KeyOfLeaf(v, "", p, s) {}
    }
  }

  /** Synchronised files have exactly the union of the keys, and every leaf that was there
      keeps its value. */
  lemma SynchronisedKeys(r: Option<(Tree, Tree)>, en: Tree, zh: Tree)
    requires en.Node? && zh.Node? && Synchronised(r, en, zh)
    ensures AllKeys(r.value.0, "") == AllKeys(en, "") + AllKeys(zh, "") == AllKeys(r.value.1, "")
    ensures forall p | LeafAt(en, p).Some? :: LeafAt(r.value.0, p) == LeafAt(en, p)
    ensures forall p | LeafAt(zh, p).Some? :: LeafAt(r.value.1, p) == LeafAt(zh, p)
  {
    KeysOfLeaves(r.value.0, en, zh);
    KeysOfLeaves(r.value.1, en, zh);
  }

  /** Regular files fit together exactly if no leaf of one lies above a leaf of the other. */
  lemma FitMeansNoOverhang(en: Tree, zh: Tree)
    requires Regular(en) && Regular(zh)
    ensures FitTogether(en, zh) <==> !Overhangs(en, zh) && !Overhangs(zh, en)
  {
    SynchronisesExactly(en, zh);
    var enLacks := SomeOrder(Lacking(en, zh));
    var zhLacks := SomeOrder(Lacking(zh, en));
    FillSynchronises(en, zh, enLacks, zhLacks);
    if !Overhangs(en, zh) && !Overhangs(zh, en) {
      forall oe, oz | ListsOnce(oe, Lacking(en, zh)) && ListsOnce(oz, Lacking(zh, en))
        ensures Synchronised(FillBoth(en, zh, oe, oz), en, zh)
      {
        FillSynchronises(en, zh, oe, oz);
        forall p
          ensures LeafAt(FillBoth(en, zh, oe, oz).value.0, p) == OrElse(LeafAt(en, p), LeafAt(zh, p))
          ensures LeafAt(FillBoth(en, zh, oe, oz).value.1, p) == OrElse(LeafAt(zh, p), LeafAt(en, p))
        {
          FillBothLeaves(en, zh, oe, oz, p);
        }
      }
    }
  }
}
