/** Counters that an operation of a node advances and that the coordinator reads. */
module Progress {

  datatype Counters = Counters(handled: nat, failed: nat, total: nat, final: bool)
  {
    predicate FinishedSuccessfully() {
      final && failed == 0 && handled == total
    }

    predicate FinishedFailed() {
      final && !FinishedSuccessfully()
    }
  }

  /** The counters as an operation updates them; the source's assertions are preconditions. */
  class Meter {
    var handled: nat
    var failed: nat
    var total: nat
    var final: bool

    function Value(): Counters
      reads this
    {
      Counters(handled, failed, total, final)
    }

    constructor ()
      ensures Value() == Counters(0, 0, 0, false)
    {
      handled, failed, total, final := 0, 0, 0, false;
    }

    method Start(n: nat)
      requires total == 0 && !final
      modifies this
      ensures Value() == old(Value()).(total := n)
    {
      if n != 0 {
        total := total + n;
      }
    }

    method AddFail(n: nat)
      requires n > 0 && !final
      modifies this
      ensures Value() == old(Value()).(failed := old(failed) + n)
    {
      failed := failed + n;
    }

    method AddSuccess(n: nat)
      requires n > 0 && handled + n <= total && !final
      modifies this
      ensures Value() == old(Value()).(handled := old(handled) + n)
    {
      handled := handled + n;
    }

    method Done()
      requires handled <= total && !final
      modifies this
      ensures Value() == old(Value()).(final := true)
    {
      final := true;
    }
  }

  // ---------------------------------------------------------------- merging

  function Sums(ps: seq<Counters>): Counters {
    if ps == [] then Counters(0, 0, 0, true)
    else
      var before, p := Sums(ps[..|ps| - 1]), ps[|ps| - 1];
      Counters(before.handled + p.handled, before.failed + p.failed, before.total + p.total, before.final && p.final)
  }

  /** `Progress.merge` over a sequence. */
  method Merge(ps: seq<Counters>) returns (m: Counters)
    ensures m == Sums(ps)
  {
    var handled: nat, failed: nat, total: nat, final := 0, 0, 0, true;
    for i := 0 to |ps|
      invariant Counters(handled, failed, total, final) == Sums(ps[..i])
    {
      assert ps[..i + 1][..i] == ps[..i];
      handled, failed, total, final := handled + ps[i].handled, failed + ps[i].failed, total + ps[i].total, final && ps[i].final;
    }
    assert ps[..|ps|] == ps;
    return Counters(handled, failed, total, final);
  }

  /** A merged meter finished successfully exactly when each part did; no part can make up for another. */
  lemma {:induction false} MergedSuccessIff(ps: seq<Counters>)
    requires forall i :: 0 <= i < |ps| ==> ps[i].handled <= ps[i].total
    ensures Sums(ps).handled <= Sums(ps).total
    ensures Sums(ps).FinishedSuccessfully() <==>
      forall i :: 0 <= i < |ps| ==> ps[i].final && ps[i].failed == 0 && ps[i].handled == ps[i].total
  {
    if ps == [] {
    } else {
      var last := |ps| - 1;
      MergedSuccessIff(ps[..last]);
      assert forall i :: 0 <= i < last ==> ps[..last][i] == ps[i];
      if Sums(ps).FinishedSuccessfully() {
        forall i | 0 <= i < |ps| ensures ps[i].final && ps[i].failed == 0 && ps[i].handled == ps[i].total {
          if i < last {
            assert ps[..last][i] == ps[i];
          }
        }
      }
    }
  }
}
