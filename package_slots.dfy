/**
 * The synchronizer seen from one package: the package's specifier in each of
 * the four groups, in the fixed key order, with `None` where a group does not
 * declare it. Every write the synchronizer makes for a package reads and writes
 * only that package's slots, so its whole effect on the package is the
 * function `Pass` below (the projection is proved in module `Sync`).
 */
module PackageSlots {
  import opened Wrappers
  import opened Versions
  import opened VersionOrder

  /** One package's specifiers, one slot per group key. */
  type Slots = seq<Option<string>>

  /**
   * The innermost callback for this package (index.js:111-120): the group at
   * `p` is the outer one, the group at `d` the other one. Nothing happens when
   * they coincide or the other group's specifier is missing or empty; otherwise
   * the larger specifier is copied over the smaller one, and a tie changes nothing.
   */
  function Visit(v: Slots, p: nat, d: nat): (r: Slots)
    requires p < |v| && d < |v|
    ensures |r| == |v|
  {
    if p == d || v[p].None? || v[d].None? || v[d].value == "" then v
    else
      match IsLargerVersion(v[p].value, v[d].value)
      case FirstLarger => v[d := v[p]]
      case SecondLarger => v[p := v[d]]
      case Tie => v
  }

  /**
   * A visit touches only the two slots it compares; when it compares them,
   * each ends with one of the two compared specifiers, they tie afterwards,
   * and a tie leaves both as they were; and no slot ever receives a specifier
   * the comparator ranks below the one it held.
   */
  lemma VisitSpec(v: Slots, p: nat, d: nat)
    requires p < |v| && d < |v|
    ensures var r := Visit(v, p, d);
      && (p == d || v[p].None? || v[d].None? || v[d].value == "" ==> r == v)
      && (forall k :: 0 <= k < |v| && k != p && k != d ==> r[k] == v[k])
      && (p != d && v[p].Some? && v[d].Some? && v[d].value != "" ==>
            r[p].Some? && r[d].Some? && IsLargerVersion(r[p].value, r[d].value) == Tie)
      && ((p != d && v[p].Some? && v[d].Some? && v[d].value != "" &&
           IsLargerVersion(v[p].value, v[d].value) == Tie) ==> r == v)
      && (r[p] == v[p] || r[p] == v[d]) && (r[d] == v[p] || r[d] == v[d])
      && (forall k :: 0 <= k < |v| && v[k].Some? ==>
            r[k].Some? && IsLargerVersion(v[k].value, r[k].value) != FirstLarger)
  {
    var r := Visit(v, p, d);
    forall k | 0 <= k < |v| && v[k].Some?
      ensures r[k].Some? && IsLargerVersion(v[k].value, r[k].value) != FirstLarger
    {
      SelfIsTie(v[k].value);
      if r[k] != v[k] {
        Antisymmetric(v[p].value, v[d].value);
      }
    }
    if p != d && v[p].Some? && v[d].Some? && v[d].value != "" {
      SelfIsTie(r[p].value);
    }
  }

  /** The callbacks for outer group `p` against the first `j` groups, in key order. */
  function RowUpto(v: Slots, p: nat, j: nat): (r: Slots)
    requires p < |v| && j <= |v|
    ensures |r| == |v|
  {
    if j == 0 then v else Visit(RowUpto(v, p, j - 1), p, j - 1)
  }

  /** All callbacks for outer group `p`. */
  function Row(v: Slots, p: nat): (r: Slots)
    requires p < |v|
    ensures |r| == |v|
  {
    RowUpto(v, p, |v|)
  }

  /** The rows of the first `i` outer groups, in key order. */
  function PassUpto(v: Slots, i: nat): (r: Slots)
    requires i <= |v|
    ensures |r| == |v|
  {
    if i == 0 then v else Row(PassUpto(v, i - 1), i - 1)
  }

  /** The whole single pass, for one package. */
  function Pass(v: Slots): (r: Slots)
    ensures |r| == |v|
  {
    PassUpto(v, |v|)
  }

  /** Same length, and the same groups declare the package. */
  predicate SamePlaces(v: Slots, w: Slots) {
    |v| == |w| && forall k :: 0 <= k < |v| ==> (v[k].Some? <==> w[k].Some?)
  }

  /** The slot values of `v`, gathered into a set. */
  function Held(v: Slots): set<Option<string>> {
    if v == [] then {} else Held(v[..|v| - 1]) + {v[|v| - 1]}
  }

  /** `Held(v)` holds exactly the values found in the slots of `v`. */
  lemma {:induction false} HeldSpec(v: Slots)
    ensures forall x :: x in Held(v) <==> x in v
  {
    if v != [] {
      HeldSpec(v[..|v| - 1]);
      assert v == v[..|v| - 1] + [v[|v| - 1]];
    }
  }

  /**
   * Every slot of `w` holds a specifier `v` already had somewhere, and a slot
   * that changed holds a non-empty one: nothing is invented.
   */
  predicate DrawnFrom(v: Slots, w: Slots) {
    SamePlaces(v, w) &&
    forall k :: 0 <= k < |w| ==> w[k] in Held(v) && (w[k] != v[k] ==> w[k].value != "")
  }

  /** Every pair of declared specifiers is a tie. */
  predicate Settled(v: Slots) {
    forall i, j :: 0 <= i < |v| && 0 <= j < |v| && v[i].Some? && v[j].Some? ==>
      IsLargerVersion(v[i].value, v[j].value) == Tie
  }

  /** The empty specifier is never reported larger than anything. */
  lemma EmptyNeverLarger(b: string)
    ensures IsLargerVersion("", b) != FirstLarger
  {
    assert SplitDots("") == [""];
    assert Components("") == [Some(0)];
    IsLargerVersionSpec("", b);
  }

  lemma DrawnRefl(v: Slots)
    ensures DrawnFrom(v, v)
  {
    HeldSpec(v);
  }

  lemma VisitDrawn(v0: Slots, v: Slots, p: nat, d: nat)
    requires p < |v| && d < |v|
    requires DrawnFrom(v0, v)
    ensures DrawnFrom(v0, Visit(v, p, d))
  {
    var r := Visit(v, p, d);
    if !(p == d || v[p].None? || v[d].None? || v[d].value == "") {
      if IsLargerVersion(v[p].value, v[d].value) == FirstLarger {
        EmptyNeverLarger(v[d].value);
        assert v[p].value != "";
      }
      forall k | 0 <= k < |r| ensures r[k] in Held(v0) && (r[k] != v0[k] ==> r[k].value != "") {
        assert r[k] == v[k] || r[k] == v[p] || r[k] == v[d];
      }
    }
  }

  lemma {:induction false} RowDrawn(v0: Slots, v: Slots, p: nat, j: nat)
    requires p < |v| && j <= |v|
    requires DrawnFrom(v0, v)
    ensures DrawnFrom(v0, RowUpto(v, p, j))
  {
    if j > 0 {
      var w := RowUpto(v, p, j - 1);
      RowDrawn(v0, v, p, j - 1);
      VisitDrawn(v0, w, p, j - 1);
      assert RowUpto(v, p, j) == Visit(w, p, j - 1);
    }
  }

  lemma {:induction false} PassDrawn(v: Slots, i: nat)
    requires i <= |v|
    ensures DrawnFrom(v, PassUpto(v, i))
  {
    if i == 0 {
      DrawnRefl(v);
    } else {
      var w := PassUpto(v, i - 1);
      PassDrawn(v, i - 1);
      RowDrawn(v, w, i - 1, |v|);
    }
  }

  /**
   * The pass keeps the set of groups declaring the package, and every
   * specifier it leaves was already declared for the package, a changed slot
   * only ever receiving a non-empty one.
   */
  lemma PassInventsNothing(v: Slots)
    ensures DrawnFrom(v, Pass(v))
  {
    PassDrawn(v, |v|);
  }

  lemma {:induction false} RowSettled(v: Slots, p: nat, j: nat)
    requires p < |v| && j <= |v|
    requires Settled(v)
    ensures RowUpto(v, p, j) == v
  {
    if j > 0 {
      RowSettled(v, p, j - 1);
    }
  }

  lemma {:induction false} PassSettledUpto(v: Slots, i: nat)
    requires i <= |v|
    requires Settled(v)
    ensures PassUpto(v, i) == v
  {
    if i > 0 {
      PassSettledUpto(v, i - 1);
      RowSettled(v, i - 1, |v|);
    }
  }

  /** When every comparison among a package's specifiers is a tie, the pass leaves it alone. */
  lemma PassKeepsSettled(v: Slots)
    requires Settled(v)
    ensures Pass(v) == v
  {
    PassSettledUpto(v, |v|);
  }

  /** A package declared in at most one group is left alone. */
  lemma PassKeepsSingle(v: Slots, g: nat)
    requires g < |v|
    requires forall k :: 0 <= k < |v| && k != g ==> v[k].None?
    ensures Pass(v) == v
  {
    if v[g].Some? {
      SelfIsTie(v[g].value);
    }
    PassKeepsSettled(v);
  }

  /** A package holding the same specifier everywhere it is declared is left alone. */
  lemma PassKeepsUniform(v: Slots, x: string)
    requires forall k :: 0 <= k < |v| && v[k].Some? ==> v[k].value == x
    ensures Pass(v) == v
  {
    SelfIsTie(x);
    PassKeepsSettled(v);
  }

  /**
   * `m` is a comparator maximum of the declared specifiers, all of which are
   * non-empty: none is larger than `m`, and only `m` itself ties with it.
   */
  predicate Dominates(m: string, v: Slots) {
    m != "" &&
    forall k :: 0 <= k < |v| && v[k].Some? ==>
      && v[k].value != ""
      && IsLargerVersion(v[k].value, m) != FirstLarger
      && (IsLargerVersion(v[k].value, m) == Tie ==> v[k].value == m)
  }

  lemma DominatesDrawn(m: string, v: Slots, w: Slots)
    requires Dominates(m, v) && DrawnFrom(v, w)
    ensures Dominates(m, w)
  {
    forall k | 0 <= k < |w| && w[k].Some?
      ensures w[k].value != "" && IsLargerVersion(w[k].value, m) != FirstLarger
      ensures IsLargerVersion(w[k].value, m) == Tie ==> w[k].value == m
    {
      HeldSpec(v);
      var e :| 0 <= e < |v| && v[e] == w[k];
    }
  }

  lemma {:induction false} RowIdle(v: Slots, p: nat, j: nat)
    requires p < |v| && j <= |v| && v[p].None?
    ensures RowUpto(v, p, j) == v
  {
    if j > 0 {
      RowIdle(v, p, j - 1);
    }
  }

  /** One callback against the maximum: what holds the maximum keeps it, and the outer slot takes it on meeting it. */
  lemma VisitKeepsMax(w: Slots, p: nat, d: nat, m: string)
    requires p < |w| && d < |w| && w[p].Some?
    requires Dominates(m, w)
    ensures d != p && w[d] == Some(m) ==> Visit(w, p, d)[p] == Some(m)
    ensures forall k :: 0 <= k < |w| && w[k] == Some(m) ==> Visit(w, p, d)[k] == Some(m)
    ensures forall k :: 0 <= k < |w| && k != p && k != d ==> Visit(w, p, d)[k] == w[k]
  {
    if d != p && w[d].Some? {
      Antisymmetric(w[p].value, w[d].value);
    }
  }

  /**
   * Within one row, once the outer slot meets a slot holding the maximum it
   * holds the maximum too, and a slot holding the maximum keeps it.
   */
  lemma {:induction false} RowReachesMax(v: Slots, p: nat, j: nat, m: string)
    requires p < |v| && j <= |v| && v[p].Some?
    requires Dominates(m, v)
    requires v[p] == Some(m) || exists d :: 0 <= d < |v| && d != p && v[d] == Some(m)
    ensures RowUpto(v, p, j)[p] == Some(m) ||
            exists d :: j <= d < |v| && d != p && RowUpto(v, p, j)[d] == Some(m)
    ensures forall k :: 0 <= k < |v| && v[k] == Some(m) ==> RowUpto(v, p, j)[k] == Some(m)
  {
    if j > 0 {
      RowReachesMax(v, p, j - 1, m);
      var w := RowUpto(v, p, j - 1);
      DrawnRefl(v);
      RowDrawn(v, v, p, j - 1);
      DominatesDrawn(m, v, w);
      RowStepMax(v, w, p, j, m);
    }
  }

  /** One more visit of a row, from a state `w` in which the maximum is still ahead of the row or already at `p`. */
  lemma RowStepMax(v: Slots, w: Slots, p: nat, j: nat, m: string)
    requires 0 < j <= |v| == |w| && p < |v| && w[p].Some? && Dominates(m, w)
    requires w[p] == Some(m) || exists d :: j - 1 <= d < |w| && d != p && w[d] == Some(m)
    requires forall k :: 0 <= k < |v| && v[k] == Some(m) ==> w[k] == Some(m)
    ensures var r := Visit(w, p, j - 1);
      r[p] == Some(m) || exists d :: j <= d < |v| && d != p && r[d] == Some(m)
    ensures forall k :: 0 <= k < |v| && v[k] == Some(m) ==> Visit(w, p, j - 1)[k] == Some(m)
  {
    var d := j - 1;
    VisitKeepsMax(w, p, d, m);
    var r := Visit(w, p, d);
    if r[p] != Some(m) {
      var e :| d <= e < |w| && e != p && w[e] == Some(m);
      assert e != d;
      assert r[e] == Some(m);
    }
  }

  /** A whole row keeps the maximum where it stood, and gives it to the row's own group if that group declares the package. */
  lemma RowKeepsMax(w: Slots, p: nat, m: string)
    requires p < |w| && Dominates(m, w) && Some(m) in w
    ensures w[p].Some? ==> RowUpto(w, p, |w|)[p] == Some(m)
    ensures forall k :: 0 <= k < |w| && w[k] == Some(m) ==> RowUpto(w, p, |w|)[k] == Some(m)
  {
    var e :| 0 <= e < |w| && w[e] == Some(m);
    if w[p].None? {
      RowIdle(w, p, |w|);
    } else {
      assert w[p] == Some(m) || (e != p && w[e] == Some(m));
      RowReachesMax(w, p, |w|, m);
    }
  }

  /** One more row of the pass, from a state `w` drawn from `v` that already holds the maximum in the earlier groups. */
  lemma PassStepMax(v: Slots, w: Slots, i: nat, m: string)
    requires 0 < i <= |v|
    requires DrawnFrom(v, w) && Dominates(m, v) && Some(m) in w
    requires forall k :: 0 <= k < i - 1 && v[k].Some? ==> w[k] == Some(m)
    ensures Some(m) in Row(w, i - 1)
    ensures forall k :: 0 <= k < i && v[k].Some? ==> Row(w, i - 1)[k] == Some(m)
  {
    DominatesDrawn(m, v, w);
    RowKeepsMax(w, i - 1, m);
    var r := Row(w, i - 1);
    var e :| 0 <= e < |w| && w[e] == Some(m);
    assert r[e] == Some(m);
    forall k | 0 <= k < i && v[k].Some? ensures r[k] == Some(m) {
      if k < i - 1 {
        assert w[k] == Some(m);
      } else {
        assert w[k].Some?;
      }
    }
  }

  lemma {:induction false} PassReachesMax(v: Slots, i: nat, m: string)
    requires i <= |v| && Dominates(m, v) && Some(m) in v
    ensures Some(m) in PassUpto(v, i)
    ensures forall k :: 0 <= k < i && v[k].Some? ==> PassUpto(v, i)[k] == Some(m)
  {
    if i > 0 {
      var w := PassUpto(v, i - 1);
      PassReachesMax(v, i - 1, m);
      PassDrawn(v, i - 1);
      PassStepMax(v, w, i, m);
      assert PassUpto(v, i) == Row(w, i - 1);
    }
  }

  /**
   * When the declared specifiers have a comparator maximum `m`, one pass
   * leaves `m` in every group that declares the package.
   */
  lemma PassReachesMaximum(v: Slots, m: string)
    requires Dominates(m, v) && Some(m) in v
    ensures forall k :: 0 <= k < |v| && v[k].Some? ==> Pass(v)[k] == Some(m)
  {
    PassReachesMax(v, |v|, m);
  }

  /** The comparator-largest declared specifier, scanning in key order; a later one wins only when strictly larger. */
  function Largest(v: Slots): Option<string> {
    if v == [] then None
    else
      var best, last := Largest(v[..|v| - 1]), v[|v| - 1];
      if last.None? then best
      else if best.None? then last
      else if IsLargerVersion(last.value, best.value) == FirstLarger then last
      else best
  }

  /**
   * On the declared specifiers the comparator is a strict total order: none
   * is empty, ties happen only between equal ones, and "larger" is transitive.
   */
  predicate Ordered(v: Slots) {
    && (forall k :: 0 <= k < |v| && v[k].Some? ==> v[k].value != "")
    && (forall i, j :: 0 <= i < |v| && 0 <= j < |v| && v[i].Some? && v[j].Some? ==>
          (IsLargerVersion(v[i].value, v[j].value) == Tie ==> v[i] == v[j]))
    && (forall i, j, k ::
          0 <= i < |v| && 0 <= j < |v| && 0 <= k < |v| && v[i].Some? && v[j].Some? && v[k].Some? &&
          IsLargerVersion(v[i].value, v[j].value) == FirstLarger &&
          IsLargerVersion(v[j].value, v[k].value) == FirstLarger ==>
          IsLargerVersion(v[i].value, v[k].value) == FirstLarger)
  }

  /** Canonical specifiers with a common number of components are ordered. */
  lemma WellFormedOrdered(v: Slots, n: nat)
    requires forall k :: 0 <= k < |v| && v[k].Some? ==> WellFormed(v[k].value, n)
    ensures Ordered(v)
  {
    forall k | 0 <= k < |v| && v[k].Some? ensures v[k].value != "" {
      WellFormedNonEmpty(v[k].value, n);
    }
    forall i, j | 0 <= i < |v| && 0 <= j < |v| && v[i].Some? && v[j].Some?
      ensures IsLargerVersion(v[i].value, v[j].value) == Tie ==> v[i] == v[j]
    {
      TieMeansEqual(v[i].value, v[j].value, n);
    }
    forall i, j, k |
      0 <= i < |v| && 0 <= j < |v| && 0 <= k < |v| && v[i].Some? && v[j].Some? && v[k].Some? &&
      IsLargerVersion(v[i].value, v[j].value) == FirstLarger &&
      IsLargerVersion(v[j].value, v[k].value) == FirstLarger
      ensures IsLargerVersion(v[i].value, v[k].value) == FirstLarger
    {
      LargerTransitive(v[i].value, v[j].value, v[k].value, n);
    }
  }

  lemma OrderedInit(v: Slots)
    requires v != [] && Ordered(v)
    ensures Ordered(v[..|v| - 1])
  {
  }

  /** Adding one specifier to slots whose maximum is `m`: the larger of the two is the new maximum. */
  lemma LargestStep(init: Slots, last: Option<string>, m: string)
    requires Ordered(init + [last]) && Dominates(m, init) && Some(m) in init
    ensures last.Some? && IsLargerVersion(last.value, m) == FirstLarger ==> Dominates(last.value, init + [last])
    ensures !(last.Some? && IsLargerVersion(last.value, m) == FirstLarger) ==> Dominates(m, init + [last])
  {
    var v := init + [last];
    var e :| 0 <= e < |init| && init[e] == Some(m);
    assert v[e] == Some(m);
    if last.Some? {
      var x := last.value;
      assert v[|init|] == last;
      SelfIsTie(x);
      if IsLargerVersion(x, m) == FirstLarger {
        forall k | 0 <= k < |v| && v[k].Some?
          ensures IsLargerVersion(v[k].value, x) != FirstLarger
          ensures IsLargerVersion(v[k].value, x) == Tie ==> v[k].value == x
        {
          if k < |init| {
            var y := v[k].value;
            assert v[k] == init[k];
            assert IsLargerVersion(y, m) != FirstLarger;
          }
        }
      } else {
        assert IsLargerVersion(x, m) == Tie ==> x == m;
      }
    }
  }

  /** The inductive step of `LargestDominates` when the earlier slots already declare the package. */
  lemma LargestAppendAfter(init: Slots, last: Option<string>, m: string)
    requires Largest(init) == Some(m)
    requires last.Some? && IsLargerVersion(last.value, m) == FirstLarger ==> Dominates(last.value, init + [last])
    requires !(last.Some? && IsLargerVersion(last.value, m) == FirstLarger) ==> Dominates(m, init + [last])
    ensures var v := init + [last]; Largest(v).Some? && Dominates(Largest(v).value, v)
  {
    var v := init + [last];
    assert v[..|v| - 1] == init && v[|v| - 1] == last;
  }

  /** A specifier declared in one slot only is the comparator maximum of the slots. */
  lemma DominatesAlone(v: Slots, x: string)
    requires x != "" && |v| > 0 && v[|v| - 1] == Some(x)
    requires forall k :: 0 <= k < |v| && v[k].Some? ==> k == |v| - 1
    ensures Dominates(x, v)
  {
    SelfIsTie(x);
  }

  /** The inductive step of `LargestDominates` when the earlier slots do not declare the package. */
  lemma LargestAppendFirst(init: Slots, last: Option<string>)
    requires last.Some? ==> last.value != ""
    requires Largest(init).None? && forall k :: 0 <= k < |init| ==> init[k].None?
    ensures var v := init + [last]; Largest(v).Some? ==> Dominates(Largest(v).value, v)
  {
    var v := init + [last];
    assert v[..|v| - 1] == init && v[|v| - 1] == last;
    assert Largest(v) == last;
    if last.Some? {
      assert forall k :: 0 <= k < |v| && v[k].Some? ==> k == |v| - 1;
      DominatesAlone(v, last.value);
    }
  }

  /** `Largest` picks a declared specifier, and finds one exactly when the package is declared. */
  lemma {:induction false} LargestDeclared(v: Slots)
    ensures Largest(v).Some? <==> exists k :: 0 <= k < |v| && v[k].Some?
    ensures Largest(v).Some? ==> Largest(v) in v
  {
    if v != [] {
      var init, last := v[..|v| - 1], v[|v| - 1];
      LargestDeclared(init);
      assert v == init + [last];
      if k :| 0 <= k < |init| && init[k].Some? {
        assert v[k].Some?;
      }
      if k :| 0 <= k < |v| && v[k].Some? {
        if k < |v| - 1 {
          assert init[k].Some?;
        }
      }
    }
  }

  /** The inductive step of `LargestDominates`: from the earlier slots to one more. */
  lemma LargestAppend(v: Slots)
    requires v != [] && Ordered(v)
    requires var init := v[..|v| - 1]; Largest(init).Some? ==> Dominates(Largest(init).value, init)
    ensures Largest(v).Some? ==> Dominates(Largest(v).value, v)
  {
    var init, last := v[..|v| - 1], v[|v| - 1];
    LargestDeclared(init);
    assert v == init + [last];
    if Largest(init).Some? {
      LargestStep(init, last, Largest(init).value);
      LargestAppendAfter(init, last, Largest(init).value);
    } else {
      assert last.Some? ==> v[|v| - 1].value != "";
      LargestAppendFirst(init, last);
    }
  }

  /**
   * When the comparator orders the declared specifiers, `Largest` is one of
   * them and is their comparator maximum.
   */
  lemma {:induction false} LargestDominates(v: Slots)
    requires Ordered(v)
    ensures Largest(v).Some? <==> exists k :: 0 <= k < |v| && v[k].Some?
    ensures Largest(v).Some? ==> Largest(v) in v && Dominates(Largest(v).value, v)
  {
    LargestDeclared(v);
    if v != [] {
      OrderedInit(v);
      LargestDominates(v[..|v| - 1]);
      LargestAppend(v);
    }
  }

  /**
   * With every declared specifier canonical with `n` components, one pass
   * leaves `Largest` in every slot that declares the package.
   */
  lemma PassReachesLargest(v: Slots, n: nat)
    requires forall k :: 0 <= k < |v| && v[k].Some? ==> WellFormed(v[k].value, n)
    ensures Largest(v).Some? <==> exists k :: 0 <= k < |v| && v[k].Some?
    ensures Largest(v).Some? ==> Largest(v) in v && Dominates(Largest(v).value, v)
    ensures forall k :: 0 <= k < |v| && v[k].Some? ==> Pass(v)[k] == Largest(v)
  {
    WellFormedOrdered(v, n);
    LargestDominates(v);
    if Largest(v).Some? {
      PassReachesMaximum(v, Largest(v).value);
    }
  }
}
