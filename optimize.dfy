/**
 * The parameter optimizer's hill climb (`climb` and `check_restrictions`).
 *
 * A point assigns an integer to each tuning parameter. Every candidate is
 * built from the current point by `dict(current, **{p: ...})`, which keeps the
 * keys and their order, so a point is modelled as the sequence of its values
 * in key order. The evaluator (a benchmark run, summed nanoseconds) and the
 * validator (the restrictions) are parameters; scores are natural numbers.
 */
module HillClimb {
  import opened Wrappers

  type Point = seq<int>

  /** A point with its score, an element of `evaluated`. */
  type Scored = (nat, Point)

  /**
   * The candidates: for each parameter in key order, the point with that
   * parameter moved up by `step`, then the one with it moved down.
   */
  function Candidates(current: Point, step: int): (cs: seq<Point>)
    ensures |cs| == 2 * |current|
    ensures forall k :: 0 <= k < |cs| ==> (|cs[k]| == |current| &&
      cs[k][k / 2] == current[k / 2] + (if k % 2 == 0 then step else -step) &&
      forall j :: 0 <= j < |current| && j != k / 2 ==> cs[k][j] == current[j])
  {
    seq(2 * |current|, k requires 0 <= k < 2 * |current| =>
      current[k / 2 := current[k / 2] + (if k % 2 == 0 then step else -step)])
  }

  /** `p` is `current` with exactly one parameter moved up or down by `step`. */
  ghost predicate Neighbour(current: Point, step: int, p: Point) {
    |p| == |current| &&
    exists j :: 0 <= j < |p| && (p[j] == current[j] + step || p[j] == current[j] - step) &&
      forall i :: 0 <= i < |p| && i != j ==> p[i] == current[i]
  }

  /** The candidates are exactly the neighbours of `current` at distance `step`. */
  lemma CandidatesAreNeighbours(current: Point, step: int, p: Point)
    ensures p in Candidates(current, step) <==> Neighbour(current, step, p)
  {
    var cs := Candidates(current, step);
    if p in cs {
      var k :| 0 <= k < |cs| && cs[k] == p;
      assert 0 <= k / 2 < |p|;
    }
    if Neighbour(current, step, p) {
      var j :| 0 <= j < |p| && (p[j] == current[j] + step || p[j] == current[j] - step) &&
        forall i :: 0 <= i < |p| && i != j ==> p[i] == current[i];
      var k := if p[j] == current[j] + step then 2 * j else 2 * j + 1;
      assert k / 2 == j && (k % 2 == 0 <==> p[j] == current[j] + step);
      assert cs[k] == p;
    }
  }

  /** `[(evaluator(c), c) for c in filter(validator, candidates)]`. */
  function Evaluate(cs: seq<Point>, validator: Point -> bool, evaluator: Point -> nat): (ev: seq<Scored>)
    ensures |ev| <= |cs|
    ensures forall k :: 0 <= k < |ev| ==> ev[k].1 in cs && validator(ev[k].1) && ev[k].0 == evaluator(ev[k].1)
    ensures forall c :: c in cs && validator(c) ==> (evaluator(c), c) in ev
  {
    if cs == [] then []
    else (if validator(cs[0]) then [(evaluator(cs[0]), cs[0])] else []) + Evaluate(cs[1..], validator, evaluator)
  }

  /**
   * Python's `min(evaluated)` on (score, dict) pairs: the running minimum is
   * replaced by a pair that compares less. Pairs with different scores
   * compare by score; equal pairs do not replace; pairs with equal scores
   * and different dicts compare the dicts, which raises TypeError. An empty
   * list raises ValueError, which `climb` turns into None.
   */
  function MinAsWritten(ev: seq<Scored>): (r: Result<Option<Scored>>)
    ensures ev == [] <==> r == Success(None)
  {
    if ev == [] then Success(None)
    else match MinFrom(ev[0], ev[1..]) {
      case Success(m) => Success(Some(m))
      case Failure(e) => Failure(e)
    }
  }

  function MinFrom(m: Scored, rest: seq<Scored>): (r: Result<Scored>)
    ensures r.Failure? ==> r.error == TypeError
    decreases |rest|
  {
    if rest == [] then Success(m)
    else if rest[0].0 != m.0 then MinFrom(if rest[0].0 < m.0 then rest[0] else m, rest[1..])
    else if rest[0].1 == m.1 then MinFrom(m, rest[1..])
    else Failure(TypeError)
  }

  /** Two distinct candidates with the same score make `min` raise TypeError. */
  lemma MinTieRaises(s: nat, c: Point, c': Point)
    requires c != c'
    ensures MinAsWritten([(s, c), (s, c')]) == Failure(TypeError)
  {
  }

  /** The same, as soon as the first two evaluated candidates tie, whatever follows. */
  lemma {:induction false} MinTieAtStartRaises(ev: seq<Scored>)
    requires |ev| >= 2 && ev[0].0 == ev[1].0 && ev[0].1 != ev[1].1
    ensures MinAsWritten(ev).Failure?
  {
    assert ev[1..][0] == ev[1];
  }

  /**
   * The local best the loop needs: the first pair of least score, None when
   * nothing was evaluated.
   */
  function LocalBest(ev: seq<Scored>): (r: Option<Scored>)
    ensures r.None? <==> ev == []
    ensures r.Some? ==> r.value in ev && forall e :: e in ev ==> r.value.0 <= e.0
    ensures r.Some? ==> exists i :: FirstBestAt(ev, i, r.value)
  {
    if ev == [] then None
    else
      BestFromIsFirst(ev[0], ev[1..]);
      assert [ev[0]] + ev[1..] == ev;
      Some(BestFrom(ev[0], ev[1..]))
  }

  function BestFrom(m: Scored, rest: seq<Scored>): (r: Scored)
    ensures r == m || r in rest
    ensures r.0 <= m.0 && forall e :: e in rest ==> r.0 <= e.0
    decreases |rest|
  {
    if rest == [] then m
    else BestFrom(if rest[0].0 < m.0 then rest[0] else m, rest[1..])
  }

  /** `all[i]` is `r`, and every candidate before it scores strictly worse. */
  ghost predicate FirstBestAt(all: seq<Scored>, i: int, r: Scored) {
    0 <= i < |all| && all[i] == r && forall j :: 0 <= j < i ==> all[j].0 > r.0
  }

  /** Ties keep the earlier candidate: the result is the first of least score. */
  lemma {:induction false} BestFromIsFirst(m: Scored, rest: seq<Scored>)
    ensures exists i :: FirstBestAt([m] + rest, i, BestFrom(m, rest))
    decreases |rest|
  {
    var r := BestFrom(m, rest);
    if rest == [] {
      assert FirstBestAt([m] + rest, 0, r);
    } else {
      var m' := if rest[0].0 < m.0 then rest[0] else m;
      BestFromIsFirst(m', rest[1..]);
      var i' :| FirstBestAt([m'] + rest[1..], i', r);
      ShiftFirstBest(m, rest, m', i', r);
    }
  }

  /** One step of `BestFrom`: a first best of the shortened list gives one of the whole list. */
  lemma ShiftFirstBest(m: Scored, rest: seq<Scored>, m': Scored, i': int, r: Scored)
    requires rest != [] && m' == (if rest[0].0 < m.0 then rest[0] else m)
    requires FirstBestAt([m'] + rest[1..], i', r) && r.0 <= m'.0
    ensures exists i :: FirstBestAt([m] + rest, i, r)
  {
    var all, all' := [m] + rest, [m'] + rest[1..];
    if m' == m && i' == 0 {
      assert FirstBestAt(all, 0, r);
    } else {
      assert all[i' + 1] == all'[i'] by {
        if i' > 0 { assert all[i' + 1] == rest[i'] == rest[1..][i' - 1]; }
      }
      forall j | 0 <= j < i' + 1 ensures all[j].0 > r.0 {
        if j >= 2 {
          assert all[j] == all'[j - 1];
        } else if j == 1 && m' == m {
          assert all'[0] == m;
        }
      }
      assert FirstBestAt(all, i' + 1, r);
    }
  }

  /** Where `min` does not raise, it agrees with the local best. */
  lemma {:induction false} MinAgrees(ev: seq<Scored>)
    requires MinAsWritten(ev).Success?
    ensures MinAsWritten(ev).value == LocalBest(ev)
  {
    if ev != [] {
      MinFromAgrees(ev[0], ev[1..]);
    }
  }

  lemma {:induction false} MinFromAgrees(m: Scored, rest: seq<Scored>)
    requires MinFrom(m, rest).Success?
    ensures MinFrom(m, rest).value == BestFrom(m, rest)
    decreases |rest|
  {
    if rest != [] {
      if rest[0].0 != m.0 {
        MinFromAgrees(if rest[0].0 < m.0 then rest[0] else m, rest[1..]);
      } else {
        MinFromAgrees(m, rest[1..]);
      }
    }
  }

  /** Python's `round(x / 2)` for an integer x: halves go to the even neighbour. */
  function HalfRounded(x: nat): (r: nat)
    ensures 2 * r == x || 2 * r == x - 1 || 2 * r == x + 1
    ensures 2 * r != x ==> r % 2 == 0
  {
    if x % 2 == 0 then x / 2
    else if (x / 2) % 2 == 0 then x / 2
    else x / 2 + 1
  }

  /** `max(round(step_size / 2), 1)`. */
  function NextStep(step: nat): (r: nat)
    ensures r >= 1
    ensures step > 1 ==> r < step
  {
    var h := HalfRounded(step);
    if h > 1 then h else 1
  }

  /** From the initial 5, the step sizes are 5, 2 and then 1, which ends the climb. */
  lemma StepSizes()
    ensures NextStep(5) == 2 && NextStep(2) == 1
  {
  }

  /** No valid candidate at distance `step` scores strictly less than `current`. */
  ghost predicate NoBetterNeighbour(current: Point, step: int, validator: Point -> bool, evaluator: Point -> nat) {
    forall c :: c in Candidates(current, step) && validator(c) ==> evaluator(current) <= evaluator(c)
  }

  /** `check_restrictions(restrictions, point)`: every restriction holds at the point. */
  function CheckRestrictions(restrictions: seq<Point -> bool>, point: Point): (ok: bool)
    ensures ok <==> forall k :: 0 <= k < |restrictions| ==> restrictions[k](point)
  {
    |restrictions| == 0 || (restrictions[0](point) && CheckRestrictions(restrictions[1..], point))
  }

  /**
   * `climb(start_point, validator, evaluator)`, with the local best taken as
   * the first candidate of least score. Only validated candidates are
   * evaluated; the current point moves only to a strictly better one; without
   * a strict improvement the step shrinks, and the loop ends at step 1.
   * The result is the start or a validated point, and none of its validated
   * neighbours at distance 2 scores strictly less.
   */
  method Climb(start: Point, validator: Point -> bool, evaluator: Point -> nat) returns (current: Point)
    ensures current == start || validator(current)
    ensures |current| == |start|
    ensures NoBetterNeighbour(current, 2, validator, evaluator)
  {
    current := start;
    var best: Option<nat> := None;
    var step: nat := 5;
    while step > 1
      invariant step == 5 || step == 2 || step == 1
      invariant |current| == |start|
      invariant best.None? ==> current == start
      invariant best.Some? ==> validator(current) && best.value == evaluator(current)
      invariant step == 1 ==> NoBetterNeighbour(current, 2, validator, evaluator)
      decreases if best.None? then 1 else 0, if best.Some? then best.value else 0, step
    {
      var candidates := Candidates(current, step);
      var evaluated := Evaluate(candidates, validator, evaluator);
      var localBest := LocalBest(evaluated);
      if localBest.Some? && (best.None? || best.value > localBest.value.0) {
        best, current := Some(localBest.value.0), localBest.value.1;
      } else {
        step := NextStep(step);
      }
    }
  }
}
