/**
 The locks of work stealing.

 A CPU that steals takes the lock of the victim's ready lists and, if it finds a thread
 there, takes its own for a moment while it still holds the other.  Everything else that takes such a lock gives it back without waiting
 for another one.
 */
module StealLocks {

  /** The CPUs between the two locks, each with the victim whose lock it holds. */
  type Holding = map<nat, nat>

  datatype Step = Start(thief: nat, victim: nat) | Finish(thief: nat)

  /** A theft starts when the victim's lock is free, and ends once the thief's own lock is. */
  predicate Enabled(h: Holding, s: Step) {
    match s
    case Start(thief, victim) => thief !in h && thief != victim && victim !in h.Values
    case Finish(thief) => thief in h && thief !in h.Values
  }

  function Next(h: Holding, s: Step): Holding
    requires Enabled(h, s)
  {
    match s
    case Start(thief, victim) => h[thief := victim]
    case Finish(thief) => h - {thief}
  }

  /** No lock is held twice. */
  ghost predicate Exclusive(h: Holding) {
    forall c, d :: c in h && d in h && h[c] == h[d] ==> c == d
  }

  lemma ExclusiveStep(h: Holding, s: Step)
    requires Exclusive(h) && Enabled(h, s)
    ensures Exclusive(Next(h, s))
  {
    if s.Start? {
      var h' := h[s.thief := s.victim];
      forall c, d | c in h' && d in h' && h'[c] == h'[d] ensures c == d {
        assert c in h ==> h[c] in h.Values;
        assert d in h ==> h[d] in h.Values;
      }
    }
  }

  ghost predicate IsRun(hs: seq<Holding>, steps: seq<Step>) {
    && |hs| == |steps| + 1 && hs[0] == map[]
    && forall i :: 0 <= i < |steps| ==> Enabled(hs[i], steps[i]) && hs[i + 1] == Next(hs[i], steps[i])
  }

  lemma RunStep(hs: seq<Holding>, steps: seq<Step>, i: nat)
    requires IsRun(hs, steps) && i < |steps|
    ensures |hs| == |steps| + 1 && Enabled(hs[i], steps[i]) && hs[i + 1] == Next(hs[i], steps[i])
  {
  }

  lemma {:induction false} RunExclusive(hs: seq<Holding>, steps: seq<Step>, i: nat)
    requires IsRun(hs, steps) && i < |hs|
    ensures Exclusive(hs[i])
  {
    if 0 < i {
      hide IsRun, Next, Enabled;
      RunStep(hs, steps, i - 1);
      RunExclusive(hs, steps, i - 1);
      ExclusiveStep(hs[i - 1], steps[i - 1]);
    }
  }

  /** As many locks are held as there are thieves. */
  lemma {:induction false} AsManyLocks(h: Holding)
    requires Exclusive(h)
    ensures |h.Values| == |h.Keys|
    decreases |h|
  {
    if h != map[] {
      var c :| c in h;
      var rest := h - {c};
      assert h.Keys == rest.Keys + {c};
      assert h.Values == rest.Values + {h[c]} by {
        forall v ensures v in h.Values <==> v in rest.Values || v == h[c] {
          if v in h.Values && v != h[c] {
            var d :| d in h && h[d] == v;
            assert d in rest && rest[d] == v;
          }
          if v in rest.Values {
            var d :| d in rest && rest[d] == v;
            assert h[d] == v;
          }
        }
      }
      assert h[c] !in rest.Values;
      AsManyLocks(rest);
    }
  }

  lemma SubsetFull(a: set<nat>, b: set<nat>)
    requires a <= b && |a| == |b|
    ensures a == b
  {
    if a != b {
      var x :| x in b && x !in a;
      assert a <= b - {x};
      Smaller(a, b - {x});
    }
  }

  lemma {:induction false} Smaller(a: set<nat>, b: set<nat>)
    requires a <= b
    ensures |a| <= |b|
    decreases |a|
  {
    if a != {} {
      var x :| x in a;
      Smaller(a - {x}, b - {x});
    }
  }

  /** No thief can go on exactly when the thieves are the victims: they steal from each other
      in circles. */
  lemma StuckIff(h: Holding)
    requires Exclusive(h)
    ensures (forall c :: !Enabled(h, Finish(c))) <==> h.Keys == h.Values
  {
    if forall c :: !Enabled(h, Finish(c)) {
      forall c | c in h.Keys ensures c in h.Values {
        assert !Enabled(h, Finish(c));
      }
      AsManyLocks(h);
      SubsetFull(h.Keys, h.Values);
    }
  }

  /** Thieves that steal from one another. */
  ghost predicate Circle(h: Holding, cs: set<nat>) {
    cs <= h.Keys && forall c :: c in cs ==> Robbed(h, cs, c)
  }

  ghost predicate Robbed(h: Holding, cs: set<nat>, c: nat)
    requires cs <= h.Keys
  {
    exists d :: d in cs && h[d] == c
  }

  lemma CircleStep(h: Holding, s: Step, cs: set<nat>)
    requires Circle(h, cs) && Enabled(h, s)
    ensures Circle(Next(h, s), cs) && forall c :: c in cs ==> Next(h, s)[c] == h[c]
  {
    var h' := Next(h, s);
    forall c | c in cs ensures c in h' && h'[c] == h[c] {
      assert Robbed(h, cs, c);
    }
    forall c | c in cs ensures Robbed(h', cs, c) {
      assert Robbed(h, cs, c);
      var d :| d in cs && h[d] == c;
      assert h'[d] == c;
    }
  }

  /** They never go on, whatever the other CPUs do. */
  lemma {:induction false} CircleStays(hs: seq<Holding>, steps: seq<Step>, i: nat, j: nat, cs: set<nat>)
    requires IsRun(hs, steps) && i <= j <= |steps| && |hs| == |steps| + 1 && Circle(hs[i], cs)
    ensures Circle(hs[j], cs) && forall c :: c in cs ==> hs[j][c] == hs[i][c]
    decreases j
  {
    hide IsRun, Robbed, Next, Enabled;
    if i < j {
      RunStep(hs, steps, j - 1);
      CircleStays(hs, steps, i, j - 1, cs);
      CircleStep(hs[j - 1], steps[j - 1], cs);
    }
  }

  /** Two CPUs that steal from each other at the same time are both stuck. */
  lemma MutualTheft()
    ensures var h := map[0 := 1, 1 := 0];
            IsRun([map[], map[0 := 1], h], [Start(0, 1), Start(1, 0)]) && forall c :: !Enabled(h, Finish(c))
  {
    var one: Holding := map[0 := 1];
    var h: Holding := map[0 := 1, 1 := 0];
    assert one.Values == {1} && one[1 := 0] == h;
    assert h[0] == 1 && h[1] == 0 && 0 in h.Values && 1 in h.Values;
  }
}
