/**
 * The eligibility projection `shrink` (index.js:52-63) as a function of the
 * loaded manifest; the in-place method that computes it is
 * `Package.PackageJson.Shrink`.
 */
module Shrink {
  import opened Versions
  import opened Manifest

  /**
   * `Object.keys(group).filter(k => group[k][0] === '^')`: the names, in key
   * order, whose specifier starts with a caret.
   */
  function Eligible(order: seq<string>, specs: map<string, string>): (r: seq<string>)
    requires forall k :: 0 <= k < |order| ==> order[k] in specs
    ensures |r| <= |order|
    ensures forall m :: m in r <==> m in order && IsRanged(specs[m])
    ensures InOrder(r, order)
  {
    if order == [] then []
    else
      var rest := Eligible(order[1..], specs);
      if IsRanged(specs[order[0]]) then
        InOrderCons(order[0], rest, order);
        [order[0]] + rest
      else
        InOrderSkip(rest, order);
        rest
  }

  /** `shrink(o, keys)`: each present group key becomes its eligible names, every other key is gone. */
  function Shrunk(fields: map<string, Value>): map<string, Value>
    requires Loaded(fields)
  {
    map k | k in fields && k in Keys :: Names(Eligible(fields[k].order, fields[k].specs))
  }

  predicate Distinct(s: seq<string>) {
    forall a, b :: 0 <= a < b < |s| ==> s[a] != s[b]
  }

  /** Distinct group names stay distinct after filtering. */
  lemma {:induction false} EligibleDistinct(order: seq<string>, specs: map<string, string>)
    requires forall k :: 0 <= k < |order| ==> order[k] in specs
    requires Distinct(order)
    ensures Distinct(Eligible(order, specs))
  {
    if order != [] {
      EligibleDistinct(order[1..], specs);
      var rest := Eligible(order[1..], specs);
      assert order[0] !in order[1..];
      assert order[0] !in rest;
      var r := Eligible(order, specs);
      if IsRanged(specs[order[0]]) {
        DistinctCons(order[0], rest);
      } else {
        assert r == rest;
        assert Distinct(rest);
      }
    }
  }

  /** A name not in a distinct list keeps it distinct when put in front. */
  lemma DistinctCons(x: string, rest: seq<string>)
    requires x !in rest && Distinct(rest)
    ensures Distinct([x] + rest)
  {
    var r := [x] + rest;
    forall a, b | 0 <= a < b < |r| ensures r[a] != r[b] {
      assert r[b] == rest[b - 1];
      if a == 0 {
        assert rest[b - 1] in rest;
      } else {
        assert r[a] == rest[a - 1];
      }
    }
  }

  /** `x` occurs in `order` at some position before one where `y` occurs. */
  predicate Before(order: seq<string>, x: string, y: string) {
    exists i, j :: 0 <= i < j < |order| && order[i] == x && order[j] == y
  }

  /** Any two names of `r` appear in `order` in the same relative order. */
  predicate InOrder(r: seq<string>, order: seq<string>) {
    forall a, b :: 0 <= a < b < |r| ==> Before(order, r[a], r[b])
  }

  /** `r` appears in `order`, and a name that appears in `r` after another also does in `order`. */
  lemma InOrderCons(x: string, rest: seq<string>, order: seq<string>)
    requires order != [] && order[0] == x
    requires forall m :: m in rest ==> m in order[1..]
    requires InOrder(rest, order[1..])
    ensures InOrder([x] + rest, order)
  {
    var r := [x] + rest;
    forall a, b | 0 <= a < b < |r|
      ensures Before(order, r[a], r[b])
    {
      assert r[b] == rest[b - 1] && rest[b - 1] in rest;
      if a == 0 {
        var j :| 0 <= j < |order[1..]| && order[1..][j] == rest[b - 1];
        assert order[0] == r[a] && order[j + 1] == r[b];
      } else {
        assert r[a] == rest[a - 1];
        assert Before(order[1..], rest[a - 1], rest[b - 1]);
        var i, j :| 0 <= i < j < |order[1..]| && order[1..][i] == rest[a - 1] && order[1..][j] == rest[b - 1];
        assert order[i + 1] == r[a] && order[j + 1] == r[b];
      }
    }
  }

  /** Dropping the first name of `order` keeps any `InOrder` of the rest. */
  lemma InOrderSkip(r: seq<string>, order: seq<string>)
    requires order != [] && InOrder(r, order[1..])
    ensures InOrder(r, order)
  {
    forall a, b | 0 <= a < b < |r|
      ensures Before(order, r[a], r[b])
    {
      assert Before(order[1..], r[a], r[b]);
      var i, j :| 0 <= i < j < |order[1..]| && order[1..][i] == r[a] && order[1..][j] == r[b];
      assert order[i + 1] == r[a] && order[j + 1] == r[b];
    }
  }

  /**
   * After `shrink`, exactly the group keys the manifest had remain, each
   * holding the names whose specifier starts with a caret, in the group's
   * order; a group with only
   * exact pins is an empty list, not a missing key.
   */
  lemma ShrunkSpec(fields: map<string, Value>)
    requires Loaded(fields)
    ensures forall k :: k in Shrunk(fields) <==> k in fields && k in Keys
    ensures forall k :: k in Shrunk(fields) ==>
      && Shrunk(fields)[k].Names?
      && forall m :: m in Shrunk(fields)[k].items <==> m in fields[k].order && IsRanged(fields[k].specs[m])
    ensures forall k :: k in Shrunk(fields) ==> InOrder(Shrunk(fields)[k].items, fields[k].order)
    ensures forall k :: (k in fields && k in Keys &&
                         forall m :: m in fields[k].specs ==> !IsRanged(fields[k].specs[m]))
                        ==> Shrunk(fields)[k] == Names([])
  {
    forall k | k in fields && k in Keys && (forall m :: m in fields[k].specs ==> !IsRanged(fields[k].specs[m]))
      ensures Shrunk(fields)[k] == Names([])
    {
      var e := Eligible(fields[k].order, fields[k].specs);
      if e != [] {
        assert e[0] in e;
      }
    }
  }
}
