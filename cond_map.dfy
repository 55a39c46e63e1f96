/**
 * cond_map(patterns, iterable): a first-match-wins guarded map. For each
 * element the ordered (predicate, function) rules are scanned from the first;
 * the function of the first rule whose predicate holds is applied and its
 * result yielded, and the scan stops. An element no predicate accepts yields
 * nothing.
 */
module ConditionalMap {

  datatype Option<T> = None | Some(value: T)

  /** One (pred, func) pair of the rule list. */
  datatype Rule<!T, U> = Rule(pred: T -> bool, func: T -> U)

  /** Some rule accepts `x`. */
  predicate Matches<T, U>(rules: seq<Rule<T, U>>, x: T)
  {
    exists j :: 0 <= j < |rules| && rules[j].pred(x)
  }

  /**
   * The inner scan: the index of the first rule whose predicate holds for
   * `x`, or None when no predicate holds.
   */
  function FirstMatch<T, U>(rules: seq<Rule<T, U>>, x: T): (r: Option<nat>)
    ensures r.None? <==> forall j :: 0 <= j < |rules| ==> !rules[j].pred(x)
    ensures r.Some? ==> r.value < |rules| && rules[r.value].pred(x)
    ensures r.Some? ==> forall j :: 0 <= j < r.value ==> !rules[j].pred(x)
  {
    if rules == [] then None
    else if rules[0].pred(x) then Some(0)
    else match FirstMatch(rules[1..], x)
      case None => None
      case Some(i) => Some(i + 1)
  }

  /** The value yielded for an element some rule accepts. */
  function Apply<T, U>(rules: seq<Rule<T, U>>, x: T): U
    requires Matches(rules, x)
  {
    rules[FirstMatch(rules, x).value].func(x)
  }

  /** What one element contributes to the output: one value or nothing. */
  function Step<T, U>(rules: seq<Rule<T, U>>, x: T): seq<U>
  {
    if Matches(rules, x) then [Apply(rules, x)] else []
  }

  /** The whole output of cond_map over a finite input. */
  function CondMap<T, U>(rules: seq<Rule<T, U>>, xs: seq<T>): (out: seq<U>)
    ensures |out| <= |xs|
  {
    if xs == [] then []
    else Step(rules, xs[0]) + CondMap(rules, xs[1..])
  }

  /**
   * Reference definition: the positions of the inputs some rule accepts,
   * in increasing order.
   */
  function MatchPositions<T, U>(rules: seq<Rule<T, U>>, xs: seq<T>): (ps: seq<nat>)
    ensures forall k :: 0 <= k < |ps| ==> ps[k] < |xs| && Matches(rules, xs[ps[k]])
    ensures forall k, l :: 0 <= k < l < |ps| ==> ps[k] < ps[l]
    ensures forall i :: 0 <= i < |xs| && Matches(rules, xs[i]) ==> i in ps
  {
    if xs == [] then []
    else
      var n := |xs| - 1;
      var front := MatchPositions(rules, xs[..n]);
      assert forall k :: 0 <= k < |front| ==> xs[..n][front[k]] == xs[front[k]];
      front + (if Matches(rules, xs[n]) then [n] else [])
  }

  /**
   * The decision for an element does not depend on any rule after the first
   * one that accepts it: the rules after it are never consulted.
   */
  lemma {:induction false} FirstMatchIgnoresLaterRules<T, U>(rules: seq<Rule<T, U>>, more: seq<Rule<T, U>>, x: T)
    requires FirstMatch(rules, x).Some?
    ensures FirstMatch(rules + more, x) == FirstMatch(rules, x)
  {
    var i := FirstMatch(rules, x).value;
    assert (rules + more)[i] == rules[i];
    assert forall j :: 0 <= j < i ==> (rules + more)[j] == rules[j];
    FirstMatchUnique(rules + more, x, i);
  }

  /** The first accepting rule is determined by the rules alone. */
  lemma FirstMatchUnique<T, U>(rules: seq<Rule<T, U>>, x: T, i: nat)
    requires i < |rules| && rules[i].pred(x)
    requires forall j :: 0 <= j < i ==> !rules[j].pred(x)
    ensures FirstMatch(rules, x) == Some(i)
  {
  }

  /**
   * Each element is processed on its own, with the scan restarted from the
   * first rule: the output over a concatenation is the concatenation of the
   * outputs.
   */
  lemma {:induction false} CondMapAppend<T, U>(rules: seq<Rule<T, U>>, xs: seq<T>, ys: seq<T>)
    ensures CondMap(rules, xs + ys) == CondMap(rules, xs) + CondMap(rules, ys)
  {
    if xs == [] {
      assert xs + ys == ys;
    } else {
      assert (xs + ys)[0] == xs[0];
      assert (xs + ys)[1..] == xs[1..] + ys;
      CondMapAppend(rules, xs[1..], ys);
    }
  }

  /**
   * cond_map yields one value per accepted input, in input order: the k-th
   * output is the first accepting rule's function applied to the k-th
   * accepted input, and rejected inputs contribute nothing.
   */
  lemma {:induction false} CondMapSpec<T, U>(rules: seq<Rule<T, U>>, xs: seq<T>)
    ensures |CondMap(rules, xs)| == |MatchPositions(rules, xs)|
    ensures forall k :: 0 <= k < |CondMap(rules, xs)| ==>
      CondMap(rules, xs)[k] == Apply(rules, xs[MatchPositions(rules, xs)[k]])
  {
    if xs != [] {
      var n := |xs| - 1;
      var front := xs[..n];
      assert xs == front + [xs[n]];
      CondMapAppend(rules, front, [xs[n]]);
      CondMapSpec(rules, front);
      assert CondMap(rules, [xs[n]]) == Step(rules, xs[n]);
      var ps := MatchPositions(rules, front);
      assert forall k :: 0 <= k < |ps| ==> front[ps[k]] == xs[ps[k]];
    }
  }

  /**
   * cond_map written as the source's nested loop: the outer loop walks the
   * input, the inner loop scans the rules and stops at the first match.
   */
  method CondMapLoop<T, U>(rules: seq<Rule<T, U>>, xs: seq<T>) returns (out: seq<U>)
    ensures out == CondMap(rules, xs)
  {
    out := [];
    for i := 0 to |xs|
      invariant out == CondMap(rules, xs[..i])
    {
      var x := xs[i];
      ghost var before := out;
      var k := 0;
      while k < |rules|
        invariant 0 <= k <= |rules|
        invariant forall j :: 0 <= j < k ==> !rules[j].pred(x)
        invariant out == before
      {
        if rules[k].pred(x) {
          out := out + [rules[k].func(x)];
          break;
        }
        k := k + 1;
      }
      assert out == before + Step(rules, x) by {
        if k < |rules| {
          FirstMatchUnique(rules, x, k);
        }
      }
      assert xs[..i + 1] == xs[..i] + [x];
      CondMapAppend(rules, xs[..i], [x]);
    }
    assert xs[..|xs|] == xs;
  }

  /** The rules and input of the worked example: negatives and zero are named, others dropped. */
  function SignRules(): seq<Rule<int, string>>
  {
    [Rule(x => x < 0, x => "neg"), Rule(x => x == 0, x => "zero")]
  }

  lemma SignExample()
    ensures CondMap(SignRules(), [-1, 0, 1]) == ["neg", "zero"]
  {
    var rules := SignRules();
    assert rules[0].pred(-1) && rules[1].pred(0);
    assert !Matches(rules, 1);
  }
}
