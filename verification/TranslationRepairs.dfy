/** Exactly when the one-way repair of a locale adds what it lacks of the reference and
    keeps what it has, for all files: names may be empty or contain dots, files may clash,
    and keys may print alike.

    `PassMakesExactly` says when a pass gives wanted leaves in every order of its keys, for
    any pick and any keys; `RepairsExactly` is the repair, `RepairedKeys` what it says of
    the keys, and `RepairMeansNoOverhang` what it comes to for regular files. */
module TranslationRepairs {
  import opened Options
  import opened TranslationTrees
  import opened TranslationKeys
  import opened TranslationFill
  import opened TranslationFits

  type Leaves = Path -> Option<Scalar>

  /** What a pass writes for a key. */
  function Put(source: Tree, pick: Pick, k: string): Tree {
    pick(k, GetPath(source, Split(k)))
  }

  /** The leaf that the write of a key puts at a path. */
  function PutLeaf(source: Tree, pick: Pick, k: string, p: Path): Option<Scalar>
    requires Split(k) <= p
  {
    LeafAt(Put(source, pick, k), p[|Split(k)|..])
  }

  ghost predicate Made(r: Option<Tree>, goal: Leaves) {
    r.Some? && forall p :: LeafAt(r.value, p) == goal(p)
  }

  ghost predicate AllOrdersMake(target: Tree, source: Tree, pick: Pick, keys: set<string>, goal: Leaves)
    requires target.Node?
  {
    forall ks | ListsOnce(ks, keys) :: Made(Fill(target, source, pick, ks), goal)
  }

  /** No write puts a leaf above the path of another. */
  ghost predicate PutsNoneAbove(source: Tree, pick: Pick, keys: set<string>) {
    forall j <- keys, k <- keys ::
      forall s | Split(j) <= s && ProperPrefix(s, Split(k)) :: PutLeaf(source, pick, j, s).None?
  }

  /** Every write puts the wanted leaves at and below its path. */
  ghost predicate PutsGoal(source: Tree, pick: Pick, keys: set<string>, goal: Leaves) {
    forall k <- keys :: forall p | Split(k) <= p :: PutLeaf(source, pick, k, p) == goal(p)
  }

  predicate Touched(ks: seq<string>, p: Path) {
    exists k <- ks :: Split(k) <= p
  }

  /** The wanted leaves are there where nothing is written. */
  ghost predicate RestIsGoal(target: Tree, keys: set<string>, goal: Leaves) {
    forall p | (forall k <- keys :: !(Split(k) <= p)) :: LeafAt(target, p) == goal(p)
  }

  ghost predicate Makes(target: Tree, source: Tree, pick: Pick, keys: set<string>, goal: Leaves) {
    && CanWrite(target, keys) && PutsNoneAbove(source, pick, keys)
    && PutsGoal(source, pick, keys, goal) && RestIsGoal(target, keys, goal)
  }

  /** One write after others. */
  lemma PutLast(target: Tree, source: Tree, pick: Pick, ks: seq<string>, k: string, p: Path)
    requires target.Node? && Fill(target, source, pick, ks).Some?
    ensures var t, all := Fill(target, source, pick, ks).value, Fill(target, source, pick, ks + [k]);
      && (all.None? <==> LeafAbove(t, Split(k)))
      && (all.Some? ==> LeafAt(all.value, p) == if Split(k) <= p then PutLeaf(source, pick, k, p) else LeafAt(t, p))
  {
    assert (ks + [k])[..|ks|] == ks;
    var t := Fill(target, source, pick, ks).value;
    SetPathRaises(t, Split(k), Put(source, pick, k));
    if SetPath(t, Split(k), Put(source, pick, k)).Some? { SetPathLeaves(t, Split(k), Put(source, pick, k), p); }
  }

  /** Every leaf after some of the writes. */
  lemma {:induction false} MadeSoFar(target: Tree, source: Tree, pick: Pick, keys: set<string>, goal: Leaves,
      ks: seq<string>, p: Path)
    requires target.Node? && PutsGoal(source, pick, keys, goal) && (forall k <- ks :: k in keys)
    requires Fill(target, source, pick, ks).Some?
    ensures LeafAt(Fill(target, source, pick, ks).value, p) == if Touched(ks, p) then goal(p) else LeafAt(target, p)
    decreases |ks|
  {
    if ks != [] {
      var before, k := ks[..|ks| - 1], ks[|ks| - 1];
      assert ks == before + [k] && k in keys;
      MadeSoFar(target, source, pick, keys, goal, before, p);
      PutLast(target, source, pick, before, k, p);
    }
  }

  lemma {:induction false} PutsSucceed(target: Tree, source: Tree, pick: Pick, keys: set<string>, goal: Leaves,
      ks: seq<string>)
    requires target.Node? && Makes(target, source, pick, keys, goal) && (forall k <- ks :: k in keys)
    ensures Fill(target, source, pick, ks).Some?
    decreases |ks|
  {
    if ks != [] {
      var before, k := ks[..|ks| - 1], ks[|ks| - 1];
      assert ks == before + [k] && k in keys && !LeafAbove(target, Split(k));
      PutsSucceed(target, source, pick, keys, goal, before);
      PutLast(target, source, pick, before, k, []);
      var t := Fill(target, source, pick, before).value;
      if s :| LeafAt(t, s).Some? && ProperPrefix(s, Split(k)) {
        MadeSoFar(target, source, pick, keys, goal, before, s);
      }
    }
  }

  lemma MakesInAnyOrder(target: Tree, source: Tree, pick: Pick, keys: set<string>, goal: Leaves, ks: seq<string>)
    requires target.Node? && Makes(target, source, pick, keys, goal) && ListsOnce(ks, keys)
    ensures Made(Fill(target, source, pick, ks), goal)
  {
    PutsSucceed(target, source, pick, keys, goal, ks);
    forall p ensures LeafAt(Fill(target, source, pick, ks).value, p) == goal(p) {
      MadeSoFar(target, source, pick, keys, goal, ks, p);
      if !Touched(ks, p) {
        forall k <- keys ensures !(Split(k) <= p) { assert k in ks; }
      }
    }
  }

  // ---------- The condition is needed ----------

  lemma StopsEarly(target: Tree, source: Tree, pick: Pick, first: seq<string>, rest: seq<string>)
    requires target.Node?
    ensures Fill(target, source, pick, first + rest).Some? ==> Fill(target, source, pick, first).Some?
  {
    var all := first + rest;
    assert all[..|first|] == first;
    if Fill(target, source, pick, all[..|first|]).None? { FillStops(target, source, pick, all, |first|); }
  }

  lemma PutFirst(target: Tree, source: Tree, pick: Pick, keys: set<string>, goal: Leaves, k: string)
    requires target.Node? && AllOrdersMake(target, source, pick, keys, goal) && k in keys
    ensures !LeafAbove(target, Split(k))
  {
    var rest := OrderWithFirst(keys, k);
    assert Made(Fill(target, source, pick, [k] + rest), goal);
    StopsEarly(target, source, pick, [k], rest);
    PutLast(target, source, pick, [], k, []);
    assert [] + [k] == [k];
  }

  lemma OrderWithTwo(keys: set<string>, j: string, k: string) returns (rest: seq<string>)
    requires j in keys && k in keys && j != k
    ensures ListsOnce([j, k] + rest, keys)
  {
    rest := SomeOrder(keys - {j, k});
  }

  lemma PutAfter(target: Tree, source: Tree, pick: Pick, keys: set<string>, goal: Leaves, j: string, k: string, s: Path)
    requires target.Node? && AllOrdersMake(target, source, pick, keys, goal) && j in keys && k in keys
    requires Split(j) <= s && ProperPrefix(s, Split(k))
    ensures PutLeaf(source, pick, j, s).None?
  {
    if j != k {
      var rest := OrderWithTwo(keys, j, k);
      assert Made(Fill(target, source, pick, [j, k] + rest), goal);
      StopsEarly(target, source, pick, [j, k], rest);
      StopsEarly(target, source, pick, [j], [k]);
      assert [j] + [k] == [j, k] && [] + [j] == [j];
      PutLast(target, source, pick, [], j, s);
      PutLast(target, source, pick, [j], k, s);
      assert LeafAt(Fill(target, source, pick, [j]).value, s) == PutLeaf(source, pick, j, s);
    }
  }

  lemma PutInTheEnd(target: Tree, source: Tree, pick: Pick, keys: set<string>, goal: Leaves, k: string, p: Path)
    requires target.Node? && AllOrdersMake(target, source, pick, keys, goal) && k in keys && Split(k) <= p
    ensures PutLeaf(source, pick, k, p) == goal(p)
  {
    var rest := OrderWithLast(keys, k);
    assert Made(Fill(target, source, pick, rest + [k]), goal);
    StopsEarly(target, source, pick, rest, [k]);
    PutLast(target, source, pick, rest, k, p);
  }

  lemma {:induction false} NotTouched(target: Tree, source: Tree, pick: Pick, ks: seq<string>, p: Path)
    requires target.Node? && Fill(target, source, pick, ks).Some? && !Touched(ks, p)
    ensures LeafAt(Fill(target, source, pick, ks).value, p) == LeafAt(target, p)
    decreases |ks|
  {
    if ks != [] {
      var before, k := ks[..|ks| - 1], ks[|ks| - 1];
      assert ks == before + [k] && k in ks && forall j <- before :: j in ks;
      NotTouched(target, source, pick, before, p);
      PutLast(target, source, pick, before, k, p);
    }
  }

  lemma MakingNeeds(target: Tree, source: Tree, pick: Pick, keys: set<string>, goal: Leaves)
    requires target.Node? && AllOrdersMake(target, source, pick, keys, goal)
    ensures Makes(target, source, pick, keys, goal)
  {
    forall k <- keys ensures !LeafAbove(target, Split(k)) { PutFirst(target, source, pick, keys, goal, k); }
    forall j <- keys, k <- keys, s | Split(j) <= s && ProperPrefix(s, Split(k))
      ensures PutLeaf(source, pick, j, s).None?
    {
      PutAfter(target, source, pick, keys, goal, j, k, s);
    }
    forall k <- keys, p | Split(k) <= p ensures PutLeaf(source, pick, k, p) == goal(p) {
      PutInTheEnd(target, source, pick, keys, goal, k, p);
    }
    var ks := SomeOrder(keys);
    assert Made(Fill(target, source, pick, ks), goal);
    forall p | (forall k <- keys :: !(Split(k) <= p)) ensures LeafAt(target, p) == goal(p) {
      NotTouched(target, source, pick, ks, p);
    }
  }

  /** A pass makes the wanted leaves in every order of its keys exactly under that condition
      on the writes, whatever it picks. */
  lemma PassMakesExactly(target: Tree, source: Tree, pick: Pick, keys: set<string>, goal: Leaves)
    requires target.Node?
    ensures AllOrdersMake(target, source, pick, keys, goal) <==> Makes(target, source, pick, keys, goal)
  {
    if Makes(target, source, pick, keys, goal) {
      forall ks | ListsOnce(ks, keys) ensures Made(Fill(target, source, pick, ks), goal) {
        MakesInAnyOrder(target, source, pick, keys, goal, ks);
      }
    }
    if AllOrdersMake(target, source, pick, keys, goal) { MakingNeeds(target, source, pick, keys, goal); }
  }

  // ---------- The repair ----------

  /** The note for a leaf of the reference. */
  function Note(reference: Tree, p: Path): Option<Scalar> {
    match LeafAt(reference, p)
    case None => None
    case Some(Text(text)) => Some(Text("[TODO: " + text + "]"))
    case Some(Other(_)) => Some(Text("[TODO: " + Dotted("", p) + "]"))
  }

  /** The locale's own leaves, and notes for those of the reference it lacks. */
  function Repaired(locale: Tree, reference: Tree): Leaves {
    p => OrElse(LeafAt(locale, p), Note(reference, p))
  }

  ghost predicate AllOrdersRepair(locale: Tree, reference: Tree, show: Tree -> string)
    requires locale.Node? && reference.Node?
  {
    AllOrdersMake(locale, reference, Todo(show), Lacking(locale, reference), Repaired(locale, reference))
  }

  ghost predicate Repairable(locale: Tree, reference: Tree, show: Tree -> string)
    requires locale.Node? && reference.Node?
  {
    Makes(locale, reference, Todo(show), Lacking(locale, reference), Repaired(locale, reference))
  }

  /** For any two files: whatever the order of the keys, the repair keeps all leaves of the
      locale and adds a note for every one it lacks exactly if the locale is repairable. */
  lemma RepairsExactly(locale: Tree, reference: Tree, show: Tree -> string)
    requires locale.Node? && reference.Node?
    ensures AllOrdersRepair(locale, reference, show) <==> Repairable(locale, reference, show)
  {
    PassMakesExactly(locale, reference, Todo(show), Lacking(locale, reference), Repaired(locale, reference));
  }

  /** A repaired locale has exactly the union of the keys, and every leaf that was there
      keeps its value. */
  lemma RepairedKeys(r: Option<Tree>, locale: Tree, reference: Tree)
    requires locale.Node? && reference.Node? && Made(r, Repaired(locale, reference)) && r.value.Node?
    ensures AllKeys(r.value, "") == AllKeys(locale, "") + AllKeys(reference, "")
    ensures forall p | LeafAt(locale, p).Some? :: LeafAt(r.value, p) == LeafAt(locale, p)
  {
    forall p ensures LeafAt(r.value, p).Some? <==> LeafAt(locale, p).Some? || LeafAt(reference, p).Some? {
      assert LeafAt(r.value, p) == Repaired(locale, reference)(p);
    }
    KeysOfLeaves(r.value, locale, reference);
  }

  lemma RegularRepair(locale: Tree, reference: Tree, show: Tree -> string, ks: seq<string>)
    requires Regular(locale) && Regular(reference) && ListsOnce(ks, Lacking(locale, reference))
    requires !Overhangs(locale, reference) && !Overhangs(reference, locale)
    ensures Made(Fill(locale, reference, Todo(show), ks), Repaired(locale, reference))
  {
    var pick := Todo(show);
    assert LeafPick(pick) && ListsMissing(ks, locale, reference);
    PassRaisesExactly(locale, reference, pick, ks);
    forall p ensures LeafAt(Fill(locale, reference, pick, ks).value, p) == Repaired(locale, reference)(p) {
      PassLeaves(locale, reference, pick, ks, p);
      GetLeaf(reference, p);
      if LeafAbove(reference, p) {
        var q :| LeafAt(reference, q).Some? && ProperPrefix(q, p);
        if LeafAt(reference, p).Some? { LeavesAreIncomparable(reference, q, p); }
      }
    }
  }

  /** Regular files are repairable exactly if no leaf of one lies above a leaf of the other. */
  lemma RepairMeansNoOverhang(locale: Tree, reference: Tree, show: Tree -> string)
    requires Regular(locale) && Regular(reference)
    ensures Repairable(locale, reference, show) <==> !Overhangs(locale, reference) && !Overhangs(reference, locale)
  {
    RepairsExactly(locale, reference, show);
    if !Overhangs(locale, reference) && !Overhangs(reference, locale) {
      forall ks | ListsOnce(ks, Lacking(locale, reference))
        ensures Made(Fill(locale, reference, Todo(show), ks), Repaired(locale, reference))
      {
        RegularRepair(locale, reference, show, ks);
      }
    }
    if AllOrdersRepair(locale, reference, show) {
      var ks := SomeOrder(Lacking(locale, reference));
      var r := Fill(locale, reference, Todo(show), ks);
      assert Made(r, Repaired(locale, reference)) && ListsMissing(ks, locale, reference);
      PassRaisesExactly(locale, reference, Todo(show), ks);
      if q, p :| LeafAt(reference, q).Some? && LeafAt(locale, p).Some? && ProperPrefix(q, p) {
        assert LeafAt(r.value, q) == Repaired(locale, reference)(q);
        assert LeafAt(r.value, p) == Repaired(locale, reference)(p);
        LeavesAreIncomparable(r.value, q, p);
      }
    }
  }
}
