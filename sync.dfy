/**
 * The in-memory pass of `syncDependencies` (index.js:106-123) as a function
 * of the manifest, and what it guarantees.
 *
 * For every group key in order (`pDep`), for every package it declares in key
 * order (`mod`), for every group key in order (`dep`): when `dep` is another
 * group declaring `mod` with a non-empty specifier, the comparator's winner is
 * copied over the loser. Writes are seen by the later visits of the same pass.
 */
module Sync {
  import opened Wrappers
  import opened Versions
  import opened VersionOrder
  import opened Manifest
  import opened PackageSlots

  /** `pkg[g][mod] = spec` for a group `g` that is present. */
  function SetSpec(fields: map<string, Value>, g: string, mod: string, spec: string): map<string, Value>
    requires g in fields && fields[g].Deps?
  {
    fields[g := Deps(fields[g].order, fields[g].specs[mod := spec])]
  }

  /**
   * One visit of the innermost callback (index.js:111-120). The guard on
   * `pDep`'s own specifier never fires on a loaded manifest, since `mod` is
   * taken from `pDep`'s own names; it keeps the function total.
   */
  function Step(fields: map<string, Value>, pDep: string, mod: string, dep: string): map<string, Value>
    requires pDep in Keys && dep in Keys
  {
    var a, b := Lookup(fields, pDep, mod), Lookup(fields, dep, mod);
    if pDep == dep || a.None? || b.None? || b.value == "" then fields
    else
      match IsLargerVersion(a.value, b.value)
      case FirstLarger => SetSpec(fields, dep, mod, a.value)
      case SecondLarger => SetSpec(fields, pDep, mod, b.value)
      case Tie => fields
  }

  /**
   * `t` differs from `s` only in specifiers of the four groups: the same
   * fields, each group with the same names in the same order, and every other
   * field untouched.
   */
  predicate SameFrame(s: map<string, Value>, t: map<string, Value>) {
    && s.Keys == t.Keys
    && forall k :: k in s ==>
         if k in Keys && s[k].Deps? then
           t[k].Deps? && t[k].order == s[k].order && t[k].specs.Keys == s[k].specs.Keys
         else t[k] == s[k]
  }

  /** The callbacks for outer group `pDep` and package `mod` against the first `j` group keys. */
  function OverOthers(fields: map<string, Value>, pDep: string, mod: string, j: nat): map<string, Value>
    requires pDep in Keys && j <= |Keys|
  {
    if j == 0 then fields
    else
      Step(OverOthers(fields, pDep, mod, j - 1), pDep, mod, Keys[j - 1])
  }

  /** The callbacks for outer group `pDep` and the first `n` of its packages `mods`. */
  function OverPackages(fields: map<string, Value>, pDep: string, mods: seq<string>, n: nat): map<string, Value>
    requires pDep in Keys && n <= |mods|
  {
    if n == 0 then fields
    else OverOthers(OverPackages(fields, pDep, mods, n - 1), pDep, mods[n - 1], |Keys|)
  }

  /** `Object.keys(pkg[g])`, or nothing when `pkg[g]` is missing (index.js:107). */
  function NamesOf(fields: map<string, Value>, g: string): seq<string> {
    if g in fields && fields[g].Deps? then fields[g].order else []
  }

  /** The outer loop over the first `i` group keys. */
  function OverGroups(fields: map<string, Value>, i: nat): map<string, Value>
    requires i <= |Keys|
  {
    if i == 0 then fields
    else
      var t := OverGroups(fields, i - 1);
      var mods := NamesOf(t, Keys[i - 1]);
      OverPackages(t, Keys[i - 1], mods, |mods|)
  }

  /** The whole single pass of index.js:106-123. */
  function SyncPass(fields: map<string, Value>): map<string, Value> {
    OverGroups(fields, |Keys|)
  }

  /** One package's specifier in each of the four groups, in key order. */
  function SlotsOf(fields: map<string, Value>, mod: string): (v: Slots)
    ensures |v| == |Keys|
  {
    seq(|Keys|, k requires 0 <= k < |Keys| => Lookup(fields, Keys[k], mod))
  }

  lemma LookupSetSpec(fields: map<string, Value>, g: string, m: string, spec: string, h: string, mod: string)
    requires g in fields && fields[g].Deps?
    ensures Lookup(SetSpec(fields, g, m, spec), h, mod) ==
      if h == g && mod == m then Some(spec) else Lookup(fields, h, mod)
  {
  }

  /** One visit, seen from package `mod`: a visit for `mod` is `Visit`, a visit for any other package changes nothing. */
  lemma StepSlots(fields: map<string, Value>, p: nat, d: nat, m: string, mod: string)
    requires p < |Keys| && d < |Keys|
    ensures SlotsOf(Step(fields, Keys[p], m, Keys[d]), mod) ==
      if m == mod then Visit(SlotsOf(fields, mod), p, d) else SlotsOf(fields, mod)
  {
    KeysDistinct();
    var v, r := SlotsOf(fields, mod), Step(fields, Keys[p], m, Keys[d]);
    var a, b := Lookup(fields, Keys[p], m), Lookup(fields, Keys[d], m);
    if !(Keys[p] == Keys[d] || a.None? || b.None? || b.value == "") {
      var w := if m == mod then Visit(v, p, d) else v;
      forall k | 0 <= k < |Keys| ensures SlotsOf(r, mod)[k] == w[k] {
        match IsLargerVersion(a.value, b.value)
        case FirstLarger => LookupSetSpec(fields, Keys[d], m, a.value, Keys[k], mod);
        case SecondLarger => LookupSetSpec(fields, Keys[p], m, b.value, Keys[k], mod);
        case Tie =>
      }
    }
  }

  lemma {:induction false} OthersSlots(fields: map<string, Value>, p: nat, m: string, mod: string, j: nat)
    requires p < |Keys| && j <= |Keys|
    ensures SlotsOf(OverOthers(fields, Keys[p], m, j), mod) ==
      if m == mod then RowUpto(SlotsOf(fields, mod), p, j) else SlotsOf(fields, mod)
  {
    if j > 0 {
      OthersSlots(fields, p, m, mod, j - 1);
      StepSlots(OverOthers(fields, Keys[p], m, j - 1), p, j - 1, m, mod);
    }
  }

  /** In a list of distinct names, the `n`-th does not occur before it. */
  lemma NotEarlier(mods: seq<string>, n: nat)
    requires 0 < n <= |mods|
    requires forall i, j :: 0 <= i < j < |mods| ==> mods[i] != mods[j]
    ensures mods[n - 1] !in mods[..n - 1]
  {
  }

  lemma {:induction false} PackagesSlots(fields: map<string, Value>, p: nat, mods: seq<string>, n: nat, mod: string)
    requires p < |Keys| && n <= |mods|
    requires forall i, j :: 0 <= i < j < |mods| ==> mods[i] != mods[j]
    ensures SlotsOf(OverPackages(fields, Keys[p], mods, n), mod) ==
      if mod in mods[..n] then Row(SlotsOf(fields, mod), p) else SlotsOf(fields, mod)
  {
    if n > 0 {
      var t, m := OverPackages(fields, Keys[p], mods, n - 1), mods[n - 1];
      PackagesSlots(fields, p, mods, n - 1, mod);
      OthersSlots(t, p, m, mod, |Keys|);
      assert mods[..n] == mods[..n - 1] + [m];
      assert mod in mods[..n] <==> mod in mods[..n - 1] || m == mod;
      if m == mod {
        NotEarlier(mods, n);
        assert SlotsOf(t, mod) == SlotsOf(fields, mod);
      }
    }
  }

  lemma FrameTrans(s: map<string, Value>, t: map<string, Value>, u: map<string, Value>)
    requires SameFrame(s, t) && SameFrame(t, u)
    ensures SameFrame(s, u)
  {
  }

  /** One visit keeps the frame: it only rewrites a specifier of a package the group already declares. */
  lemma StepFrame(fields: map<string, Value>, pDep: string, mod: string, dep: string)
    requires pDep in Keys && dep in Keys
    ensures SameFrame(fields, Step(fields, pDep, mod, dep))
  {
    var a, b := Lookup(fields, pDep, mod), Lookup(fields, dep, mod);
    if pDep == dep || a.None? || b.None? || b.value == "" {
      FrameRefl(fields);
    } else {
      match IsLargerVersion(a.value, b.value)
      case FirstLarger => SetSpecFrame(fields, dep, mod, a.value);
      case SecondLarger => SetSpecFrame(fields, pDep, mod, b.value);
      case Tie => FrameRefl(fields);
    }
  }

  lemma FrameRefl(s: map<string, Value>)
    ensures SameFrame(s, s)
  {
  }

  /** Rewriting the specifier of a package a group already declares keeps the frame. */
  lemma SetSpecFrame(fields: map<string, Value>, g: string, mod: string, spec: string)
    requires g in Keys && g in fields && fields[g].Deps? && mod in fields[g].specs
    ensures SameFrame(fields, SetSpec(fields, g, mod, spec))
  {
    var t := SetSpec(fields, g, mod, spec);
    assert t.Keys == fields.Keys;
    assert t[g].specs.Keys == fields[g].specs.Keys;
    forall k | k in fields && k != g ensures t[k] == fields[k] {
    }
  }

  /** The inner loop keeps the frame. */
  lemma {:induction false} OthersFrame(fields: map<string, Value>, pDep: string, mod: string, j: nat)
    requires pDep in Keys && j <= |Keys|
    ensures SameFrame(fields, OverOthers(fields, pDep, mod, j))
  {
    if j > 0 {
      var t, dep := OverOthers(fields, pDep, mod, j - 1), Keys[j - 1];
      OthersFrame(fields, pDep, mod, j - 1);
      StepFrame(t, pDep, mod, dep);
      FrameTrans(fields, t, Step(t, pDep, mod, dep));
    }
  }

  /** The middle loop keeps the frame. */
  lemma {:induction false} PackagesFrame(fields: map<string, Value>, pDep: string, mods: seq<string>, n: nat)
    requires pDep in Keys && n <= |mods|
    ensures SameFrame(fields, OverPackages(fields, pDep, mods, n))
  {
    if n > 0 {
      var t := OverPackages(fields, pDep, mods, n - 1);
      PackagesFrame(fields, pDep, mods, n - 1);
      OthersFrame(t, pDep, mods[n - 1], |Keys|);
      FrameTrans(fields, t, OverOthers(t, pDep, mods[n - 1], |Keys|));
    }
  }

  /** The outer loop keeps the frame. */
  lemma {:induction false} GroupsFrame(fields: map<string, Value>, i: nat)
    requires i <= |Keys|
    ensures SameFrame(fields, OverGroups(fields, i))
  {
    if i > 0 {
      var t := OverGroups(fields, i - 1);
      var mods := NamesOf(t, Keys[i - 1]);
      GroupsFrame(fields, i - 1);
      PackagesFrame(t, Keys[i - 1], mods, |mods|);
      FrameTrans(fields, t, OverPackages(t, Keys[i - 1], mods, |mods|));
    }
  }

  /** `SameFrame` keeps a manifest loaded. */
  lemma FrameLoaded(s: map<string, Value>, t: map<string, Value>)
    requires Loaded(s) && SameFrame(s, t)
    ensures Loaded(t)
  {
  }

  lemma {:induction false} GroupsSlots(fields: map<string, Value>, i: nat, mod: string)
    requires Loaded(fields) && i <= |Keys|
    ensures SlotsOf(OverGroups(fields, i), mod) == PassUpto(SlotsOf(fields, mod), i)
  {
    if i > 0 {
      GroupsSlots(fields, i - 1, mod);
      var t := OverGroups(fields, i - 1);
      GroupsFrame(fields, i - 1);
      FrameLoaded(fields, t);
      var mods := NamesOf(t, Keys[i - 1]);
      var v := SlotsOf(t, mod);
      PackagesSlots(t, i - 1, mods, |mods|, mod);
      assert mods[..|mods|] == mods;
      assert v[i - 1] == Lookup(t, Keys[i - 1], mod);
      if mod !in mods {
        RowIdle(v, i - 1, |v|);
      }
    }
  }

  /** The whole pass, seen from package `mod`, is `Pass` on its slots. */
  lemma SyncSlots(fields: map<string, Value>, mod: string)
    requires Loaded(fields)
    ensures SlotsOf(SyncPass(fields), mod) == Pass(SlotsOf(fields, mod))
  {
    GroupsSlots(fields, |Keys|, mod);
  }

  /** Every specifier in the four groups is canonical with `n` components. */
  ghost predicate AllWellFormed(fields: map<string, Value>, n: nat) {
    forall g, mod :: g in Keys && Lookup(fields, g, mod).Some? ==> WellFormed(Lookup(fields, g, mod).value, n)
  }

  /**
   * The pass never adds or removes a field, a group or a package name, keeps
   * each group's name order, and leaves every other field as it was.
   */
  lemma SyncKeepsFrame(fields: map<string, Value>)
    requires Loaded(fields)
    ensures SameFrame(fields, SyncPass(fields)) && Loaded(SyncPass(fields))
  {
    GroupsFrame(fields, |Keys|);
    FrameLoaded(fields, SyncPass(fields));
  }

  /**
   * After the pass, every group declaring `mod` holds a specifier that some
   * group declared for `mod` before it, and a slot that changed holds a
   * non-empty one: no specifier is invented.
   */
  lemma SyncInventsNothing(fields: map<string, Value>, mod: string)
    requires Loaded(fields)
    ensures DrawnFrom(SlotsOf(fields, mod), SlotsOf(SyncPass(fields), mod))
  {
    SyncSlots(fields, mod);
    PassInventsNothing(SlotsOf(fields, mod));
  }

  /** A package whose slots the slot-level pass leaves alone keeps its specifier in every group. */
  lemma SyncKeepsFixed(fields: map<string, Value>, mod: string)
    requires Loaded(fields) && Pass(SlotsOf(fields, mod)) == SlotsOf(fields, mod)
    ensures forall g :: g in Keys ==> Lookup(SyncPass(fields), g, mod) == Lookup(fields, g, mod)
  {
    SyncSlots(fields, mod);
    forall g | g in Keys ensures Lookup(SyncPass(fields), g, mod) == Lookup(fields, g, mod) {
      var k :| 0 <= k < |Keys| && Keys[k] == g;
      assert SlotsOf(SyncPass(fields), mod)[k] == SlotsOf(fields, mod)[k];
    }
  }

  /** A package whose declared specifiers all tie with each other is left unchanged by the pass. */
  lemma SyncKeepsSettled(fields: map<string, Value>, mod: string)
    requires Loaded(fields) && Settled(SlotsOf(fields, mod))
    ensures forall g :: g in Keys ==> Lookup(SyncPass(fields), g, mod) == Lookup(fields, g, mod)
  {
    PassKeepsSettled(SlotsOf(fields, mod));
    SyncKeepsFixed(fields, mod);
  }

  /** A package declared in only one group is left unchanged by the pass. */
  lemma SyncKeepsSingle(fields: map<string, Value>, mod: string, g: string)
    requires Loaded(fields) && g in Keys
    requires forall h :: h in Keys && h != g ==> Lookup(fields, h, mod).None?
    ensures forall h :: h in Keys ==> Lookup(SyncPass(fields), h, mod) == Lookup(fields, h, mod)
  {
    var v := SlotsOf(fields, mod);
    var i :| 0 <= i < |Keys| && Keys[i] == g;
    KeysDistinct();
    forall k | 0 <= k < |v| && k != i ensures v[k].None? {
      assert Keys[k] != g;
    }
    PassKeepsSingle(v, i);
    SyncKeepsFixed(fields, mod);
  }

  /** A package is declared in some group exactly when one of its slots is filled. */
  lemma DeclaredSomewhere(fields: map<string, Value>, mod: string)
    ensures (exists k :: 0 <= k < |Keys| && SlotsOf(fields, mod)[k].Some?) <==>
            exists g :: g in Keys && Lookup(fields, g, mod).Some?
  {
    var v := SlotsOf(fields, mod);
    if g :| g in Keys && Lookup(fields, g, mod).Some? {
      var k :| 0 <= k < |Keys| && Keys[k] == g;
      assert v[k].Some?;
    }
    if k :| 0 <= k < |v| && v[k].Some? {
      assert Keys[k] in Keys && Lookup(fields, Keys[k], mod).Some?;
    }
  }

  /** The slots of a package in a manifest whose specifiers are all canonical with `n` components. */
  lemma SlotsWellFormed(fields: map<string, Value>, n: nat, mod: string)
    requires AllWellFormed(fields, n)
    ensures forall k :: 0 <= k < |Keys| && SlotsOf(fields, mod)[k].Some? ==>
      WellFormed(SlotsOf(fields, mod)[k].value, n)
  {
    forall k | 0 <= k < |Keys| && SlotsOf(fields, mod)[k].Some?
      ensures WellFormed(SlotsOf(fields, mod)[k].value, n)
    {
      assert Lookup(fields, Keys[k], mod).Some?;
    }
  }

  /** What the slot-level pass leaves in a package's declared slots, the manifest-level pass leaves in its groups. */
  lemma LiftDeclared(fields: map<string, Value>, mod: string, m: Option<string>)
    requires Loaded(fields)
    requires forall k :: 0 <= k < |Keys| && SlotsOf(fields, mod)[k].Some? ==> Pass(SlotsOf(fields, mod))[k] == m
    ensures forall g :: g in Keys && Lookup(fields, g, mod).Some? ==> Lookup(SyncPass(fields), g, mod) == m
  {
    SyncSlots(fields, mod);
    forall g | g in Keys && Lookup(fields, g, mod).Some?
      ensures Lookup(SyncPass(fields), g, mod) == m
    {
      var k :| 0 <= k < |Keys| && Keys[k] == g;
      assert SlotsOf(fields, mod)[k].Some?;
      assert SlotsOf(SyncPass(fields), mod)[k] == Pass(SlotsOf(fields, mod))[k];
    }
  }

  /** `SyncReachesMaximum` for one package, from its slots alone. */
  lemma SlotsReachMaximum(fields: map<string, Value>, n: nat, mod: string)
    requires Loaded(fields)
    requires forall k :: 0 <= k < |Keys| && SlotsOf(fields, mod)[k].Some? ==>
      WellFormed(SlotsOf(fields, mod)[k].value, n)
    ensures var v, m := SlotsOf(fields, mod), Largest(SlotsOf(fields, mod));
      && (m.Some? <==> exists g :: g in Keys && Lookup(fields, g, mod).Some?)
      && (m.Some? ==> m in v && Dominates(m.value, v))
      && forall g :: g in Keys && Lookup(fields, g, mod).Some? ==> Lookup(SyncPass(fields), g, mod) == m
  {
    var v := SlotsOf(fields, mod);
    PassReachesLargest(v, n);
    DeclaredSomewhere(fields, mod);
    LiftDeclared(fields, mod, Largest(v));
  }

  /**
   * With every specifier canonical with `n` components, after one pass each
   * group declaring `mod` holds the same specifier, `Largest` of the declared
   * ones: one of them, and the comparator maximum among them.
   */
  lemma SyncReachesMaximum(fields: map<string, Value>, n: nat, mod: string)
    requires Loaded(fields) && AllWellFormed(fields, n)
    ensures var v, m := SlotsOf(fields, mod), Largest(SlotsOf(fields, mod));
      && (m.Some? <==> exists g :: g in Keys && Lookup(fields, g, mod).Some?)
      && (m.Some? ==> m in v && Dominates(m.value, v))
      && forall g :: g in Keys && Lookup(fields, g, mod).Some? ==> Lookup(SyncPass(fields), g, mod) == m
  {
    SlotsWellFormed(fields, n, mod);
    SlotsReachMaximum(fields, n, mod);
  }

  /** Two manifests with the same frame and the same slots for every package are equal. */
  lemma FrameExtensional(s: map<string, Value>, t: map<string, Value>)
    requires SameFrame(s, t)
    requires forall mod :: SlotsOf(s, mod) == SlotsOf(t, mod)
    ensures s == t
  {
    forall k | k in s ensures t[k] == s[k] {
      if k in Keys && s[k].Deps? {
        var i :| 0 <= i < |Keys| && Keys[i] == k;
        forall m | m in s[k].specs ensures t[k].specs[m] == s[k].specs[m] {
          assert SlotsOf(s, m)[i] == SlotsOf(t, m)[i];
        }
        assert t[k].specs == s[k].specs;
      }
    }
  }

  /** After one pass, every group declaring `mod` holds one and the same specifier. */
  lemma UniformAfterPass(fields: map<string, Value>, n: nat, mod: string)
    requires Loaded(fields) && AllWellFormed(fields, n)
    ensures var w, m := SlotsOf(SyncPass(fields), mod), Largest(SlotsOf(fields, mod));
      forall k :: 0 <= k < |w| && w[k].Some? ==> w[k] == m
  {
    SyncReachesMaximum(fields, n, mod);
    var r := SyncPass(fields);
    SyncKeepsFrame(fields);
    var w := SlotsOf(r, mod);
    forall k | 0 <= k < |w| && w[k].Some? ensures w[k] == Largest(SlotsOf(fields, mod)) {
      assert Lookup(r, Keys[k], mod).Some?;
      assert Lookup(fields, Keys[k], mod).Some?;
    }
  }

  /** A second pass leaves the slots of every package as the first pass left them. */
  lemma SecondPassSlots(fields: map<string, Value>, n: nat, mod: string)
    requires Loaded(fields) && AllWellFormed(fields, n)
    ensures SlotsOf(SyncPass(SyncPass(fields)), mod) == SlotsOf(SyncPass(fields), mod)
  {
    var r := SyncPass(fields);
    SyncKeepsFrame(fields);
    UniformAfterPass(fields, n, mod);
    var m := Largest(SlotsOf(fields, mod));
    var w := SlotsOf(r, mod);
    PassKeepsUniform(w, if m.Some? then m.value else "");
    SyncSlots(r, mod);
  }

  /**
   * With every specifier canonical with `n` components, a second pass changes
   * nothing: one pass reaches a fixed point.
   */
  lemma SyncIdempotent(fields: map<string, Value>, n: nat)
    requires Loaded(fields) && AllWellFormed(fields, n)
    ensures SyncPass(SyncPass(fields)) == SyncPass(fields)
  {
    var r := SyncPass(fields);
    SyncKeepsFrame(fields);
    SyncKeepsFrame(r);
    forall mod ensures SlotsOf(SyncPass(r), mod) == SlotsOf(r, mod) {
      SecondPassSlots(fields, n, mod);
    }
    FrameExtensional(r, SyncPass(r));
  }

}
