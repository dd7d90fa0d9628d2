/** Hysteresis on the confidence gradient: how long the guard may disagree with what it is shown. */
module GradientGuard {
  import opened Common

  datatype Gradient = High | Medium | Low | Critical

  function Classify(score: real): Gradient {
    if score >= 0.8 then High else if score >= 0.5 then Medium else if score >= 0.2 then Low else Critical
  }

  /** How many disagreements it takes to move from one gradient to another. */
  function Threshold(from: Gradient, to: Gradient): (n: nat)
    ensures 1 <= n <= 3
  {
    match to
    case Critical => if from == Critical then 2 else 1
    case Low => (match from case High => 3 case Critical => 1 case _ => 2)
    case Medium => 2
    case High => if from == Critical then 3 else 2
  }

  function Count(streak: seq<Gradient>, d: Gradient): nat {
    if streak == [] then 0 else Count(streak[..|streak| - 1], d) + if streak[|streak| - 1] == d then 1 else 0
  }

  /** What the guard shows, and the disagreements since it last agreed or switched. */
  datatype View = View(shown: Option<Gradient>, streak: seq<Gradient>)

  /** The guard follows when it has nothing to show, agrees, or has seen the same disagreement often enough. */
  function Next(v: View, desired: Gradient): View {
    if v.shown == None || v.shown.value == desired
      || Count(v.streak, desired) + 1 >= Threshold(v.shown.value, desired)
    then View(Some(desired), [])
    else View(v.shown, v.streak + [desired])
  }

  /** Every disagreement is still short of its threshold. */
  ghost predicate Coherent(v: View) {
    match v.shown
    case None => v.streak == []
    case Some(c) =>
      && c !in v.streak
      && forall d :: d != c ==> Count(v.streak, d) < Threshold(c, d)
  }

  class GradientTransitionGuard {
    var currentGradient: Option<Gradient>
    var pending: map<(Gradient, Gradient), nat>
    ghost var streak: seq<Gradient>

    /** The pending counters are the numbers of occurrences in the current streak. */
    ghost predicate Valid()
      reads this
    {
      && Coherent(View(currentGradient, streak))
      && (currentGradient == None ==> pending == map[])
      && (currentGradient.Some? ==>
            && (forall d :: (currentGradient.value, d) in pending <==> d in streak)
            && (forall k :: k in pending ==> k.0 == currentGradient.value && pending[k] == Count(streak, k.1)))
    }

    constructor ()
      ensures Valid() && currentGradient == None && streak == []
    {
      currentGradient, pending, streak := None, map[], [];
    }

    method Resolve(score: real) returns (shown: Gradient)
      requires Valid()
      modifies this
      ensures Valid() && currentGradient == Some(shown)
      ensures View(currentGradient, streak) == Next(old(View(currentGradient, streak)), Classify(score))
    {
      var desired := Classify(score);
      if currentGradient == None || desired == currentGradient.value {
        currentGradient := Some(desired);
        pending, streak := map[], [];
        return desired;
      }
      var current := currentGradient.value;
      var key := (current, desired);
      NextIsCoherent(View(currentGradient, streak), desired);
      CountMembers(streak, desired);
      pending := pending[key := (if key in pending then pending[key] else 0) + 1];
      streak := streak + [desired];
      if pending[key] >= Threshold(current, desired) {
        currentGradient := Some(desired);
        pending, streak := map[], [];
        return desired;
      }
      return current;
    }
  }

  lemma {:induction false} CountMembers(streak: seq<Gradient>, d: Gradient)
    ensures d in streak <==> Count(streak, d) > 0
  {
    if streak != [] {
      var n := |streak| - 1;
      CountMembers(streak[..n], d);
      assert streak == streak[..n] + [streak[n]];
    }
  }

  lemma {:induction false} NextIsCoherent(v: View, desired: Gradient)
    requires Coherent(v)
    ensures Coherent(Next(v, desired))
  {
    var streak := v.streak + [desired];
    assert streak[..|streak| - 1] == v.streak;
  }

  lemma {:induction false} CountsAddUp(streak: seq<Gradient>)
    ensures |streak| == Count(streak, High) + Count(streak, Medium) + Count(streak, Low) + Count(streak, Critical)
  {
    if streak != [] {
      CountsAddUp(streak[..|streak| - 1]);
    }
  }

  /** The guard never disagrees more than three times in a row, and from a middle gradient at most twice. */
  lemma {:induction false} StreakIsShort(v: View)
    requires Coherent(v)
    ensures |v.streak| <= 3
    ensures v.shown == Some(Medium) || v.shown == Some(Low) ==> |v.streak| <= 2
  {
    CountsAddUp(v.streak);
    if v.shown.Some? {
      CountMembers(v.streak, v.shown.value);
    }
  }

  // Runs

  function Run(inputs: seq<Gradient>): View {
    if inputs == [] then View(None, []) else Next(Run(inputs[..|inputs| - 1]), inputs[|inputs| - 1])
  }

  lemma {:induction false} RunOneMore(inputs: seq<Gradient>, d: Gradient)
    ensures Run(inputs + [d]) == Next(Run(inputs), d)
  {
    assert (inputs + [d])[..|inputs|] == inputs;
  }

  lemma {:induction false} RunIsCoherent(inputs: seq<Gradient>)
    ensures Coherent(Run(inputs))
  {
    if inputs != [] {
      RunIsCoherent(inputs[..|inputs| - 1]);
      NextIsCoherent(Run(inputs[..|inputs| - 1]), inputs[|inputs| - 1]);
    }
  }

  lemma {:induction false} NextFollowsOrWaits(v: View, desired: Gradient)
    ensures Next(v, desired) == View(Some(desired), [])
      || (v.shown.Some? && Next(v, desired) == View(v.shown, v.streak + [desired]))
  {
  }

  /** After every run the streak is the tail of the inputs since the guard last followed. */
  lemma {:induction false} StreakIsTail(inputs: seq<Gradient>) returns (front: seq<Gradient>)
    ensures inputs == front + Run(inputs).streak
    ensures front != [] ==> Run(front) == View(Run(inputs).shown, [])
    ensures front == [] <==> inputs == []
  {
    front := inputs;
    if inputs == [] {
      return;
    }
    var n := |inputs| - 1;
    var v, x := Run(inputs[..n]), inputs[n];
    NextFollowsOrWaits(v, x);
    if Run(inputs).streak != [] {
      front := StreakIsTail(inputs[..n]);
      assert inputs == inputs[..n] + [x];
      assert front + (v.streak + [x]) == (front + v.streak) + [x];
    } else {
      assert inputs + [] == inputs;
    }
  }

  /** Among any four consecutive inputs there is one that the guard follows. */
  lemma {:induction false} FollowsWithinFour(inputs: seq<Gradient>, k: nat)
    requires k + 4 <= |inputs|
    ensures exists j :: k <= j < k + 4 && Run(inputs[..j + 1]).shown == Some(inputs[j])
  {
    if forall j :: k <= j < k + 4 ==> Run(inputs[..j + 1]).shown != Some(inputs[j]) {
      StreakGrows(inputs, k, 4);
      RunIsCoherent(inputs[..k + 4]);
      StreakIsShort(Run(inputs[..k + 4]));
      assert false;
    }
  }

  lemma {:induction false} StreakGrows(inputs: seq<Gradient>, k: nat, m: nat)
    requires k + m <= |inputs|
    requires forall j :: k <= j < k + m ==> Run(inputs[..j + 1]).shown != Some(inputs[j])
    ensures |Run(inputs[..k + m]).streak| >= m
  {
    if m > 0 {
      StreakGrows(inputs, k, m - 1);
      var j := k + m - 1;
      assert inputs[..j + 1][..j] == inputs[..j];
    }
  }

  lemma {:induction false} OneOccurrenceMore(v: View, d: Gradient)
    requires Coherent(v)
    ensures Next(v, d) == View(Some(d), [])
      || (&& v.shown.Some? && Next(v, d).shown == v.shown && v.shown.value != d
          && Count(Next(v, d).streak, d) == Count(v.streak, d) + 1 < Threshold(v.shown.value, d))
  {
    assert (v.streak + [d])[..|v.streak|] == v.streak;
  }

  lemma {:induction false} ThreeTimesWins(v: View, d: Gradient)
    requires Coherent(v)
    ensures Next(Next(Next(v, d), d), d).shown == Some(d)
  {
    var v1, v2 := Next(v, d), Next(Next(v, d), d);
    NextIsCoherent(v, d);
    NextIsCoherent(v1, d);
    OneOccurrenceMore(v, d);
    OneOccurrenceMore(v1, d);
    OneOccurrenceMore(v2, d);
    assert v.shown.Some? ==> Threshold(v.shown.value, d) <= 3;
  }

  /** Three equal inputs in a row always win, whatever came before. */
  lemma {:induction false} PersistenceWins(inputs: seq<Gradient>, d: Gradient)
    ensures Run(inputs + [d] + [d] + [d]).shown == Some(d)
  {
    RunIsCoherent(inputs);
    RunOneMore(inputs, d);
    RunOneMore(inputs + [d], d);
    RunOneMore(inputs + [d] + [d], d);
    ThreeTimesWins(Run(inputs), d);
  }

  /** A critical input wins at once. */
  lemma {:induction false} CriticalWinsAtOnce(inputs: seq<Gradient>)
    requires inputs != [] && inputs[|inputs| - 1] == Critical
    ensures Run(inputs) == View(Some(Critical), [])
  {
  }

  lemma {:induction false} CountOneMore(streak: seq<Gradient>, x: Gradient, d: Gradient)
    ensures Count(streak + [x], d) == Count(streak, d) + if x == d then 1 else 0
  {
    assert (streak + [x])[..|streak|] == streak;
  }

  /** The bound is tight: three inputs in a row can be ignored. */
  lemma {:induction false} ThreeCanBeIgnored()
    ensures Run([] + [High] + [Low] + [Medium] + [Low]) == View(Some(High), [] + [Low] + [Medium] + [Low])
  {
    RunOneMore([], High);
    RunOneMore([] + [High], Low);
    RunOneMore([] + [High] + [Low], Medium);
    RunOneMore([] + [High] + [Low] + [Medium], Low);
    CountOneMore([], Low, Medium);
    CountOneMore([], Low, Low);
    CountOneMore([] + [Low], Medium, Low);
  }

  // Scores and switches in numbers

  /** The bands of the score: from 0.8, from 0.5, from 0.2, and below. */
  lemma {:induction false} Bands(score: real)
    ensures Classify(score) == High <==> 0.8 <= score
    ensures Classify(score) == Medium <==> 0.5 <= score < 0.8
    ensures Classify(score) == Low <==> 0.2 <= score < 0.5
    ensures Classify(score) == Critical <==> score < 0.2
  {
  }

  /** The same input n times over. */
  function Repeated(v: View, d: Gradient, n: nat): View {
    if n == 0 then v else Next(Repeated(v, d, n - 1), d)
  }

  lemma {:induction false} RepeatedWaits(v: View, c: Gradient, d: Gradient, n: nat)
    requires v == View(Some(c), []) && c != d
    ensures n < Threshold(c, d) ==> Repeated(v, d, n).shown == Some(c) && Count(Repeated(v, d, n).streak, d) == n
    ensures n >= Threshold(c, d) ==> Repeated(v, d, n) == View(Some(d), [])
  {
    if n > 0 {
      RepeatedWaits(v, c, d, n - 1);
      var w := Repeated(v, d, n - 1);
      assert (w.streak + [d])[..|w.streak|] == w.streak;
    }
  }

  /**
   How often an input must be seen in a row before a settled guard follows: once for the critical gradient and from
   it to low, three times from high to low and from critical to high, and twice otherwise.
   */
  lemma {:induction false} SwitchTakes(v: View, c: Gradient, d: Gradient, n: nat)
    requires v == View(Some(c), []) && c != d
    ensures Repeated(v, d, n).shown == Some(d) <==>
      n >= if d == Critical || (c == Critical && d == Low) then 1
           else if (c == High && d == Low) || (c == Critical && d == High) then 3
           else 2
    ensures Repeated(v, d, n).shown == Some(c) || Repeated(v, d, n).shown == Some(d)
  {
    RepeatedWaits(v, c, d, n);
  }

  /** Agreement forgets the disagreements before it. */
  lemma {:induction false} AgreementForgets(v: View, c: Gradient, d: Gradient)
    requires v.shown == Some(c)
    ensures Next(v, c) == View(Some(c), [])
    ensures c != d && d != Critical && !(c == Critical && d == Low) ==>
      Next(Next(v, c), d) == View(Some(c), [d])
  {
    assert forall s: seq<Gradient> :: s == [] ==> Count(s, d) == 0;
  }
}
