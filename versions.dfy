/**
 * The specifier comparator `isLargerVersion` of index.js.
 *
 * A specifier is a string such as `^1.2.3` (ranged) or `1.2.3` (exact). The
 * comparator answers `true` (the first is larger), `false` (the second is
 * larger) or `undefined` (a tie), written here as a `Verdict`.
 */
module Versions {
  import opened Wrappers

  /** The three answers of the comparator: `true`, `false`, `undefined`. */
  datatype Verdict = FirstLarger | SecondLarger | Tie

  /** The answer seen from the other operand's side. */
  function Flip(r: Verdict): Verdict {
    match r
    case FirstLarger => SecondLarger
    case SecondLarger => FirstLarger
    case Tie => Tie
  }

  /** `v[0] === '^'`; an empty string has no first character. */
  predicate IsRanged(v: string) {
    |v| > 0 && v[0] == '^'
  }

  /** The position of the first caret in `v`, or `|v|` when there is none. */
  function CaretIndex(v: string): (i: nat)
    ensures i <= |v| && (i < |v| <==> '^' in v)
    ensures i < |v| ==> v[i] == '^'
    ensures '^' !in v[..i]
  {
    if v == [] then 0
    else if v[0] == '^' then 0
    else
      var j := CaretIndex(v[1..]);
      assert v[..j + 1] == [v[0]] + v[1..][..j];
      1 + j
  }

  /** `v.replace('^', '')`: drops the first caret (see `RemoveFirstCaretAt`). */
  function RemoveFirstCaret(v: string): (r: string)
    ensures '^' !in v ==> r == v
    ensures IsRanged(v) ==> r == v[1..]
  {
    if v == [] then []
    else if v[0] == '^' then v[1..]
    else [v[0]] + RemoveFirstCaret(v[1..])
  }

  /** The first caret is dropped wherever it stands, and nothing else. */
  lemma {:induction false} RemoveFirstCaretAt(v: string)
    requires '^' in v
    ensures RemoveFirstCaret(v) == v[..CaretIndex(v)] + v[CaretIndex(v) + 1..]
  {
    if v[0] != '^' {
      var t := v[1..];
      assert v == [v[0]] + t;
      RemoveFirstCaretAt(t);
      var i := CaretIndex(t);
      assert v[..i + 1] == [v[0]] + t[..i] && v[i + 2..] == t[i + 1..];
    }
  }

  /** `s.split('.')`: the pieces between the dots, at least one of them. */
  function SplitDots(s: string): (r: seq<string>)
    ensures |r| >= 1
    ensures forall k :: 0 <= k < |r| ==> '.' !in r[k]
  {
    if s == [] then [""]
    else
      var rest := SplitDots(s[1..]);
      if s[0] == '.' then [""] + rest else [[s[0]] + rest[0]] + rest[1..]
  }

  /** `pieces.join('.')`, the inverse of `SplitDots`. */
  function JoinDots(pieces: seq<string>): string
    requires |pieces| >= 1
  {
    if |pieces| == 1 then pieces[0] else pieces[0] + "." + JoinDots(pieces[1..])
  }

  predicate IsDigit(c: char) {
    '0' <= c <= '9'
  }

  function DigitValue(c: char): nat
    requires IsDigit(c)
  {
    c as int - '0' as int
  }

  /** `10` to the power `n`. */
  function Pow10(n: nat): (r: nat)
    ensures r >= 1
  {
    if n == 0 then 1 else 10 * Pow10(n - 1)
  }

  /** The number a piece converts to once the digit `c` is appended. */
  function StepNumber(n: Option<nat>, c: char): Option<nat> {
    if n.Some? && IsDigit(c) then Some(10 * n.value + DigitValue(c)) else None
  }

  /**
   * Unary `+` on one piece, restricted to decimal digits: the empty string
   * converts to 0, a string of digits to its value, anything else to NaN.
   * `ToNumberConcat` gives the value of a digit string positionally.
   */
  function ToNumber(s: string): (r: Option<nat>)
    ensures r.Some? <==> forall k :: 0 <= k < |s| ==> IsDigit(s[k])
    ensures s == [] ==> r == Some(0)
    ensures |s| == 1 && IsDigit(s[0]) ==> r == Some(DigitValue(s[0]))
    ensures r.Some? ==> r.value < Pow10(|s|)
  {
    if s == [] then Some(0)
    else StepNumber(ToNumber(s[..|s| - 1]), s[|s| - 1])
  }

  /** `x` shifted left by `n` decimal places, plus `y`; NaN when either is. */
  function Shifted(x: Option<nat>, y: Option<nat>, n: nat): Option<nat> {
    if x.Some? && y.Some? then Some(x.value * Pow10(n) + y.value) else None
  }

  /**
   * The digits of `a` followed by those of `b` read as `a`'s value shifted by
   * `|b|` places plus `b`'s value; so in particular leading zeros change nothing.
   */
  lemma {:induction false} ToNumberConcat(a: string, b: string)
    decreases |b|
    ensures ToNumber(a + b) == Shifted(ToNumber(a), ToNumber(b), |b|)
  {
    if b == [] {
      assert a + b == a;
    } else {
      var init, c := b[..|b| - 1], b[|b| - 1];
      var ab := a + b;
      ToNumberConcat(a, init);
      assert ab[..|ab| - 1] == a + init && ab[|ab| - 1] == c;
      assert ToNumber(ab) == StepNumber(Shifted(ToNumber(a), ToNumber(init), |init|), c);
      assert ToNumber(b) == StepNumber(ToNumber(init), c);
      ShiftStep(ToNumber(a), ToNumber(init), |init|, c);
    }
  }

  /** Reading one more digit after a shifted value shifts it one more place. */
  lemma ShiftStep(x: Option<nat>, y: Option<nat>, n: nat, c: char)
    ensures StepNumber(Shifted(x, y, n), c) == Shifted(x, StepNumber(y, c), n + 1)
  {
    if x.Some? && y.Some? && IsDigit(c) {
      ShiftDigit(x.value, y.value, Pow10(n), DigitValue(c));
    }
  }

  /** Appending a digit shifts what came before by one decimal place. */
  lemma ShiftDigit(x: nat, y: nat, p: nat, d: nat)
    ensures 10 * (x * p + y) + d == x * (10 * p) + (10 * y + d)
  {
    assert x * (10 * p) == 10 * (x * p);
  }

  /** A leading `0` does not change the number a piece converts to. */
  lemma LeadingZero(s: string)
    ensures ToNumber("0" + s) == ToNumber(s)
  {
    ToNumberConcat("0", s);
  }

  /** `v.replace('^', '').split('.').map(v => +v)`. */
  function Components(v: string): (r: seq<Option<nat>>)
    ensures |r| == |SplitDots(RemoveFirstCaret(v))| >= 1
  {
    var pieces := SplitDots(RemoveFirstCaret(v));
    seq(|pieces|, k requires 0 <= k < |pieces| => ToNumber(pieces[k]))
  }

  /** `ps[i]`, which is `undefined` past the end. */
  function At(ps: seq<Option<nat>>, i: nat): Option<nat> {
    if i < |ps| then ps[i] else None
  }

  /** `a > b` on numbers, where `undefined` and `NaN` are never greater or smaller. */
  predicate Exceeds(a: Option<nat>, b: Option<nat>) {
    a.Some? && b.Some? && a.value > b.value
  }

  /** Position `j` settles the comparison: one component is strictly greater. */
  predicate Decides(c1: seq<Option<nat>>, c2: seq<Option<nat>>, j: nat)
    requires j < |c1|
  {
    Exceeds(c1[j], At(c2, j)) || Exceeds(At(c2, j), c1[j])
  }

  /** `j` is the first position below `|c1|`, from `i` on, that settles the comparison. */
  predicate FirstDecisive(c1: seq<Option<nat>>, c2: seq<Option<nat>>, i: nat, j: nat) {
    i <= j < |c1| && Decides(c1, c2, j) && forall k :: i <= k < j ==> !Decides(c1, c2, k)
  }

  /**
   * The `for` loop of index.js:91-97 from position `i` on; `CompareFromSpec`
   * says what it answers.
   */
  function CompareFrom(c1: seq<Option<nat>>, c2: seq<Option<nat>>, i: nat): (r: Verdict)
    decreases |c1| - i
  {
    if i >= |c1| then Tie
    else if Exceeds(c1[i], At(c2, i)) then FirstLarger
    else if Exceeds(At(c2, i), c1[i]) then SecondLarger
    else CompareFrom(c1, c2, i + 1)
  }

  /**
   * The loop answers by the first position from `i` on, below `|c1|`, where one
   * component is strictly greater, the greater one winning; a tie if none.
   */
  lemma CompareFromSpec(c1: seq<Option<nat>>, c2: seq<Option<nat>>, i: nat)
    ensures var r := CompareFrom(c1, c2, i);
      && (r == Tie <==> forall k :: i <= k < |c1| ==> !Decides(c1, c2, k))
      && (r == FirstLarger <==> exists j: nat :: FirstDecisive(c1, c2, i, j) && Exceeds(c1[j], At(c2, j)))
      && (r == SecondLarger <==> exists j: nat :: FirstDecisive(c1, c2, i, j) && Exceeds(At(c2, j), c1[j]))
  {
    NoneWins(c1, c2, i);
    FirstWins(c1, c2, i);
    SecondWins(c1, c2, i);
  }

  /** `CompareFromSpec`, for a tie. */
  lemma {:induction false} NoneWins(c1: seq<Option<nat>>, c2: seq<Option<nat>>, i: nat)
    decreases |c1| - i
    ensures CompareFrom(c1, c2, i) == Tie <==> forall k :: i <= k < |c1| ==> !Decides(c1, c2, k)
  {
    if i < |c1| && !Decides(c1, c2, i) {
      NoneWins(c1, c2, i + 1);
    }
  }

  /** `CompareFromSpec`, for the first operand. */
  lemma {:induction false} FirstWins(c1: seq<Option<nat>>, c2: seq<Option<nat>>, i: nat)
    decreases |c1| - i
    ensures CompareFrom(c1, c2, i) == FirstLarger <==>
      exists j: nat :: FirstDecisive(c1, c2, i, j) && Exceeds(c1[j], At(c2, j))
  {
    if i < |c1| {
      if Decides(c1, c2, i) {
        DecisiveHere(c1, c2, i);
      } else {
        FirstWins(c1, c2, i + 1);
        DecisiveLater(c1, c2, i);
      }
    }
  }

  /** `CompareFromSpec`, for the second operand. */
  lemma {:induction false} SecondWins(c1: seq<Option<nat>>, c2: seq<Option<nat>>, i: nat)
    decreases |c1| - i
    ensures CompareFrom(c1, c2, i) == SecondLarger <==>
      exists j: nat :: FirstDecisive(c1, c2, i, j) && Exceeds(At(c2, j), c1[j])
  {
    if i < |c1| {
      if Decides(c1, c2, i) {
        DecisiveHere(c1, c2, i);
      } else {
        SecondWins(c1, c2, i + 1);
        DecisiveLater(c1, c2, i);
        assert CompareFrom(c1, c2, i) == CompareFrom(c1, c2, i + 1);
        if exists j: nat :: FirstDecisive(c1, c2, i, j) && Exceeds(At(c2, j), c1[j]) {
          var j: nat :| FirstDecisive(c1, c2, i, j) && Exceeds(At(c2, j), c1[j]);
          assert FirstDecisive(c1, c2, i + 1, j);
        }
      }
    }
  }

  /** A position that settles the comparison is the first such from itself on. */
  lemma DecisiveHere(c1: seq<Option<nat>>, c2: seq<Option<nat>>, i: nat)
    requires i < |c1| && Decides(c1, c2, i)
    ensures forall j: nat :: FirstDecisive(c1, c2, i, j) <==> j == i
  {
    assert FirstDecisive(c1, c2, i, i);
  }

  /** Past a position that does not settle it, the first settling one is the same. */
  lemma DecisiveLater(c1: seq<Option<nat>>, c2: seq<Option<nat>>, i: nat)
    requires i < |c1| && !Decides(c1, c2, i)
    ensures forall j: nat :: FirstDecisive(c1, c2, i, j) <==> FirstDecisive(c1, c2, i + 1, j)
  {
  }

  /**
   * `isLargerVersion(v1, v2)` (index.js:71-99). When exactly one operand has a
   * caret, the ranged one is reported larger; `IsLargerVersionSpec` says how
   * operands of the same kind compare.
   */
  function IsLargerVersion(v1: string, v2: string): (r: Verdict)
    ensures IsRanged(v1) && !IsRanged(v2) ==> r == FirstLarger
    ensures IsRanged(v2) && !IsRanged(v1) ==> r == SecondLarger
  {
    if IsRanged(v1) && !IsRanged(v2) then FirstLarger
    else if IsRanged(v2) && !IsRanged(v1) then SecondLarger
    else CompareFrom(Components(v1), Components(v2), 0)
  }

  /**
   * Exactly one ranged operand: the ranged one is reported larger, whatever the
   * digits. Same kind: the first position below the number of `v1`'s
   * components where one component is strictly greater decides, the greater
   * one winning; if no position decides, a tie.
   */
  lemma IsLargerVersionSpec(v1: string, v2: string)
    ensures IsRanged(v1) && !IsRanged(v2) ==> IsLargerVersion(v1, v2) == FirstLarger
    ensures IsRanged(v2) && !IsRanged(v1) ==> IsLargerVersion(v1, v2) == SecondLarger
    ensures IsRanged(v1) == IsRanged(v2) ==>
      var r, c1, c2 := IsLargerVersion(v1, v2), Components(v1), Components(v2);
      && (r == Tie <==> forall k :: 0 <= k < |c1| ==> !Decides(c1, c2, k))
      && (r == FirstLarger <==> exists j: nat :: FirstDecisive(c1, c2, 0, j) && Exceeds(c1[j], At(c2, j)))
      && (r == SecondLarger <==> exists j: nat :: FirstDecisive(c1, c2, 0, j) && Exceeds(At(c2, j), c1[j]))
  {
    CompareFromSpec(Components(v1), Components(v2), 0);
  }

  /** No component is greater than itself, so every position of a self-comparison falls through. */
  lemma {:induction false} CompareFromSelf(c: seq<Option<nat>>, i: nat)
    ensures CompareFrom(c, c, i) == Tie
    decreases |c| - i
  {
    if i < |c| {
      CompareFromSelf(c, i + 1);
    }
  }

  /** `isLargerVersion(v, v)` is a tie for every string `v`. */
  lemma SelfIsTie(v: string)
    ensures IsLargerVersion(v, v) == Tie
  {
    CompareFromSelf(Components(v), 0);
  }

  /** Exchanging the operands of the loop exchanges its answer. */
  lemma {:induction false} CompareFromSwap(c1: seq<Option<nat>>, c2: seq<Option<nat>>, i: nat)
    ensures CompareFrom(c2, c1, i) == Flip(CompareFrom(c1, c2, i))
    decreases |c1| + |c2| - i
  {
    if i < |c1| || i < |c2| {
      CompareFromSwap(c1, c2, i + 1);
    }
  }

  /**
   * The comparator is antisymmetric for every pair of strings:
   * `isLargerVersion(a, b) === true` exactly when `isLargerVersion(b, a) === false`,
   * and a tie is a tie both ways. A component missing from either side never
   * decides, so the loop bound taken from the first operand does not break this.
   */
  lemma Antisymmetric(a: string, b: string)
    ensures IsLargerVersion(b, a) == Flip(IsLargerVersion(a, b))
  {
    CompareFromSwap(Components(a), Components(b), 0);
  }

  /** `JoinDots` undoes `SplitDots`. */
  lemma {:induction false} JoinSplit(s: string)
    ensures JoinDots(SplitDots(s)) == s
  {
    if s != [] {
      JoinSplit(s[1..]);
      var rest := SplitDots(s[1..]);
      if s[0] != '.' && |rest| > 1 {
        assert JoinDots(rest) == rest[0] + "." + JoinDots(rest[1..]);
        assert ([[s[0]] + rest[0]] + rest[1..])[1..] == rest[1..];
      }
    }
  }

  /** `SplitDots` undoes `JoinDots` when no piece holds a dot. */
  lemma {:induction false} SplitJoin(pieces: seq<string>)
    requires |pieces| >= 1
    requires forall k :: 0 <= k < |pieces| ==> '.' !in pieces[k]
    ensures SplitDots(JoinDots(pieces)) == pieces
  {
    if |pieces| == 1 {
      SplitPlain(pieces[0], []);
      assert pieces[0] + [] == pieces[0];
      assert pieces == [pieces[0]];
    } else {
      SplitJoin(pieces[1..]);
      SplitPlain(pieces[0], "." + JoinDots(pieces[1..]));
      assert pieces[0] + "." + JoinDots(pieces[1..]) == pieces[0] + ("." + JoinDots(pieces[1..]));
      assert [pieces[0]] + pieces[1..] == pieces;
    }
  }

  /** A dot-free head of a string becomes part of the first piece. */
  lemma {:induction false} SplitPlain(head: string, tail: string)
    requires '.' !in head
    requires tail == [] || tail[0] == '.'
    ensures SplitDots(head + tail) ==
      if tail == [] then [head] else [head] + SplitDots(tail[1..])
  {
    if head == [] {
      assert head + tail == tail;
      if tail != [] {
        assert SplitDots(tail) == [""] + SplitDots(tail[1..]);
      }
    } else {
      SplitPlain(head[1..], tail);
      assert (head + tail)[1..] == head[1..] + tail;
      assert [head[0]] + head[1..] == head;
    }
  }
}
