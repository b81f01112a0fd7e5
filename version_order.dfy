/**
 * Canonical specifiers and the order the comparator induces on them.
 *
 * A canonical specifier is an optional `^` followed by dot-separated decimal
 * numerals without leading zeros. Among canonical specifiers with the same
 * number of components the comparator is a strict total order whose only ties
 * are equal strings; the synchronizer's main property rests on this.
 */
module VersionOrder {
  import opened Wrappers
  import opened Versions

  /** A specifier as a value: its kind and its numeric components. */
  datatype Version = Version(ranged: bool, parts: seq<nat>)

  /** The decimal numeral of `n`, without sign or leading zeros. */
  function Numeral(n: nat): (r: string)
    ensures |r| >= 1
    ensures forall k :: 0 <= k < |r| ==> IsDigit(r[k])
  {
    if n < 10 then [('0' as int + n) as char]
    else Numeral(n / 10) + [('0' as int + n % 10) as char]
  }

  /** Unary `+` reads a numeral back as the number it was made from. */
  lemma {:induction false} NumeralValue(n: nat)
    ensures ToNumber(Numeral(n)) == Some(n)
  {
    var s := Numeral(n);
    if n < 10 {
      assert s[..|s| - 1] == [];
    } else {
      NumeralValue(n / 10);
      assert s[..|s| - 1] == Numeral(n / 10);
    }
  }

  /** The numerals of `parts`, one piece per component. */
  function Numerals(parts: seq<nat>): (r: seq<string>)
    ensures |r| == |parts|
  {
    seq(|parts|, k requires 0 <= k < |parts| => Numeral(parts[k]))
  }

  /** The components of a version as the comparator sees them: all numbers. */
  function Lift(p: seq<nat>): (r: seq<Option<nat>>)
    ensures |r| == |p|
  {
    seq(|p|, k requires 0 <= k < |p| => Some(p[k]))
  }

  /** The canonical text of a version: `^` when ranged, then the numerals joined by dots. */
  function Render(v: Version): string
    requires |v.parts| >= 1
  {
    (if v.ranged then "^" else "") + JoinDots(Numerals(v.parts))
  }

  /** Reads a specifier as a version when every component is a number. */
  function Decode(s: string): Option<Version> {
    var cs := Components(s);
    if forall k :: 0 <= k < |cs| ==> cs[k].Some? then
      Some(Version(IsRanged(s), seq(|cs|, k requires 0 <= k < |cs| => cs[k].value)))
    else None
  }

  /** `s` is canonical with `n` components: it decodes and renders back to itself. */
  predicate WellFormed(s: string, n: nat) {
    var d := Decode(s);
    d.Some? && |d.value.parts| == n && n >= 1 && Render(d.value) == s
  }

  /** Every character of joined digit pieces is a digit or a dot, and the text starts with the first piece. */
  lemma {:induction false} JoinedDigits(pieces: seq<string>)
    requires |pieces| >= 1
    requires forall k, i :: 0 <= k < |pieces| && 0 <= i < |pieces[k]| ==> IsDigit(pieces[k][i])
    ensures var j := JoinDots(pieces); forall i :: 0 <= i < |j| ==> IsDigit(j[i]) || j[i] == '.'
    ensures pieces[0] <= JoinDots(pieces)
  {
    if |pieces| > 1 {
      JoinedDigits(pieces[1..]);
      var j := JoinDots(pieces);
      assert j == pieces[0] + ("." + JoinDots(pieces[1..]));
      forall i | 0 <= i < |j| ensures IsDigit(j[i]) || j[i] == '.' {
        if i >= |pieces[0]| + 1 {
          assert j[i] == JoinDots(pieces[1..])[i - |pieces[0]| - 1];
        }
      }
    }
  }

  /** Rendering then decoding gives the version back. */
  lemma DecodeRender(v: Version)
    requires |v.parts| >= 1
    ensures IsRanged(Render(v)) == v.ranged
    ensures Components(Render(v)) == Lift(v.parts)
    ensures Decode(Render(v)) == Some(v)
  {
    var nums := Numerals(v.parts);
    var body := JoinDots(nums);
    JoinedDigits(nums);
    assert '^' !in body by {
      forall i | 0 <= i < |body| ensures body[i] != '^' {
        assert IsDigit(body[i]) || body[i] == '.';
      }
    }
    assert body[0] == nums[0][0];
    assert RemoveFirstCaret(Render(v)) == body by {
      if v.ranged {
        assert Render(v)[1..] == body;
      }
    }
    SplitJoin(nums);
    var cs := Components(Render(v));
    forall k | 0 <= k < |v.parts| ensures cs[k] == Some(v.parts[k]) {
      NumeralValue(v.parts[k]);
    }
    assert forall k :: 0 <= k < |cs| ==> cs[k].Some?;
    assert seq(|cs|, k requires 0 <= k < |cs| => cs[k].value) == v.parts;
  }

  /** Component-wise comparison of equally long numeric sequences, leftmost difference first. */
  function LexCompare(p: seq<nat>, q: seq<nat>): Verdict
    requires |p| == |q|
  {
    if p == [] then Tie
    else if p[0] > q[0] then FirstLarger
    else if q[0] > p[0] then SecondLarger
    else LexCompare(p[1..], q[1..])
  }

  /** The comparator's order on versions: ranged above exact, then component-wise. */
  function Order(a: Version, b: Version): Verdict
    requires |a.parts| == |b.parts|
  {
    if a.ranged && !b.ranged then FirstLarger
    else if b.ranged && !a.ranged then SecondLarger
    else LexCompare(a.parts, b.parts)
  }

  lemma {:induction false} CompareFromLex(p: seq<nat>, q: seq<nat>, i: nat)
    requires |p| == |q| && i <= |p|
    ensures CompareFrom(Lift(p), Lift(q), i) == LexCompare(p[i..], q[i..])
    decreases |p| - i
  {
    if i < |p| {
      CompareFromLex(p, q, i + 1);
      assert p[i..][1..] == p[i + 1..] && q[i..][1..] == q[i + 1..];
    }
  }

  /** On canonical texts of equally long versions, the comparator is `Order`. */
  lemma ComparatorIsOrder(a: Version, b: Version)
    requires |a.parts| == |b.parts| >= 1
    ensures IsLargerVersion(Render(a), Render(b)) == Order(a, b)
  {
    DecodeRender(a);
    DecodeRender(b);
    var s, t := Render(a), Render(b);
    if a.ranged == b.ranged {
      CompareFromLex(a.parts, b.parts, 0);
      assert a.parts[0..] == a.parts && b.parts[0..] == b.parts;
      calc {
        IsLargerVersion(s, t);
        CompareFrom(Components(s), Components(t), 0);
        CompareFrom(Lift(a.parts), Lift(b.parts), 0);
      }
    }
  }

  lemma {:induction false} LexTie(p: seq<nat>, q: seq<nat>)
    requires |p| == |q|
    ensures LexCompare(p, q) == Tie <==> p == q
  {
    if p != [] {
      LexTie(p[1..], q[1..]);
      if p[0] == q[0] && p[1..] == q[1..] {
        assert p == [p[0]] + p[1..] && q == [q[0]] + q[1..];
      }
    }
  }

  lemma {:induction false} LexTransitive(p: seq<nat>, q: seq<nat>, u: seq<nat>)
    requires |p| == |q| == |u|
    requires LexCompare(p, q) == FirstLarger && LexCompare(q, u) == FirstLarger
    ensures LexCompare(p, u) == FirstLarger
  {
    if p[0] == q[0] == u[0] {
      LexTransitive(p[1..], q[1..], u[1..]);
    }
  }

  /** Between canonical specifiers with `n` components, a tie means the same text. */
  lemma TieMeansEqual(s: string, t: string, n: nat)
    requires WellFormed(s, n) && WellFormed(t, n)
    ensures IsLargerVersion(s, t) == Tie <==> s == t
  {
    var a, b := Decode(s).value, Decode(t).value;
    ComparatorIsOrder(a, b);
    LexTie(a.parts, b.parts);
    SelfIsTie(s);
  }

  /** Between canonical specifiers with `n` components, "larger" is transitive. */
  lemma LargerTransitive(s: string, t: string, u: string, n: nat)
    requires WellFormed(s, n) && WellFormed(t, n) && WellFormed(u, n)
    requires IsLargerVersion(s, t) == FirstLarger && IsLargerVersion(t, u) == FirstLarger
    ensures IsLargerVersion(s, u) == FirstLarger
  {
    var a, b, c := Decode(s).value, Decode(t).value, Decode(u).value;
    ComparatorIsOrder(a, b);
    ComparatorIsOrder(b, c);
    ComparatorIsOrder(a, c);
    if a.ranged == b.ranged == c.ranged {
      LexTransitive(a.parts, b.parts, c.parts);
    }
  }

  /** A canonical specifier is never the empty string. */
  lemma WellFormedNonEmpty(s: string, n: nat)
    requires WellFormed(s, n)
    ensures s != ""
  {
    var nums := Numerals(Decode(s).value.parts);
    JoinedDigits(nums);
  }
}
