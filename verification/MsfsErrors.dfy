/** Dread on a host that may fail: after a failure the loop goes by the name that is still in the caller's buffer. */
module MsfsErrors {
  import opened Bytes
  import opened MsfsDir

  /** What one call for an entry brings. */
  datatype Answer = Entry(name: seq<byte>) | End | Failure(code: int) {
    predicate Fits() {
      (Entry? ==> NulFree(name)) && (Failure? ==> code < 0)
    }
  }

  /** The answers of ExtraDread and of the host, call by call. */
  type Answers = nat -> Answer

  /** The name in the caller's buffer after the first `k` answers; `stale` was there before. */
  function NameAfter(stale: seq<byte>, answers: Answers, k: nat): seq<byte> {
    if k == 0 then stale
    else if answers(k - 1).Entry? then answers(k - 1).name
    else NameAfter(stale, answers, k - 1)
  }

  /** The loop ends with the answer `k`, if it gets there: the directory is over, or the name passes the filter. */
  predicate Stops(stale: seq<byte>, filter: seq<byte>, answers: Answers, k: nat) {
    answers(k).End? || Passes(NameAfter(stale, answers, k + 1), filter)
  }

  ghost predicate Ends(stale: seq<byte>, filter: seq<byte>, answers: Answers) {
    exists k: nat :: Stops(stale, filter, answers, k)
  }

  /** From the answer `j` on the host only fails. */
  ghost predicate FailsFrom(answers: Answers, j: nat) {
    forall k: nat :: k >= j ==> answers(k).Failure?
  }

  /** As many rounds of Dread as are allowed: whether they end it, and with what. */
  method DreadRounds(stale: seq<byte>, filter: seq<byte>, answers: Answers, rounds: nat)
    returns (ended: bool, res: int, name: seq<byte>, ghost last: nat)
    requires NulFree(stale) && NulFree(filter) && forall k: nat :: answers(k).Fits()
    ensures ended <==> exists k: nat :: k < rounds && Stops(stale, filter, answers, k)
    ensures ended ==>
              && last < rounds && Stops(stale, filter, answers, last)
              && (forall k: nat :: k < last ==> !Stops(stale, filter, answers, k))
              && name == NameAfter(stale, answers, last + 1)
              && res == match answers(last) case Entry(_) => 1 case End => 0 case Failure(code) => code
  {
    hide Accepts;
    ended, res, name, last := false, 0, stale, 0;
    var i := 0;
    while i < rounds
      invariant i <= rounds && name == NameAfter(stale, answers, i) && NulFree(name)
      invariant forall k: nat :: k < i ==> !Stops(stale, filter, answers, k)
    {
      assert answers(i).Fits();
      match answers(i) {
        case Entry(n) =>
          res, name := 1, n;
        case End =>
          res := 0;
        case Failure(code) =>
          res := code;
      }
      last := i;
      i := i + 1;
      if res == 0 || filter == [] {
        assert Stops(stale, filter, answers, last);
        return true, res, name, last;
      }
      var accepted := DirectoryFilter(name, filter);
      if accepted {
        assert Stops(stale, filter, answers, last);
        return true, res, name, last;
      }
    }
  }

  lemma {:induction false} NameStays(stale: seq<byte>, answers: Answers, j: nat, k: nat)
    requires FailsFrom(answers, j) && j <= k
    ensures NameAfter(stale, answers, k) == NameAfter(stale, answers, j)
    decreases k
  {
    if j < k {
      assert answers(k - 1).Failure?;
      NameStays(stale, answers, j, k - 1);
    }
  }

  /**
    On a host that fails for good after `j` answers Dread ends if and only if one of them ends it, or the name
    that they leave in the buffer passes the filter.
  */
  lemma EndsExactly(stale: seq<byte>, filter: seq<byte>, answers: Answers, j: nat)
    requires FailsFrom(answers, j)
    ensures Ends(stale, filter, answers) <==>
              || (exists k: nat :: k < j && Stops(stale, filter, answers, k))
              || Passes(NameAfter(stale, answers, j), filter)
  {
    hide Passes, NameAfter;
    if Ends(stale, filter, answers) {
      var k: nat :| Stops(stale, filter, answers, k);
      if k >= j {
        assert answers(k).Failure?;
        NameStays(stale, answers, j, k + 1);
      }
    }
    if Passes(NameAfter(stale, answers, j), filter) {
      NameStays(stale, answers, j, j + 1);
      assert Stops(stale, filter, answers, j);
    }
  }

  /** A host that only fails, a filter "A", and "B" in the buffer: Dread does not end. */
  lemma NeverEnds()
    ensures !Ends([66], [65], k => Failure(-1))
  {
    var answers: Answers := k => Failure(-1);
    assert FailsFrom(answers, 0);
    EndsExactly([66], [65], answers, 0);
    assert NameAfter([66], answers, 0) == [66];
  }

  /** A host that lists names and then ends, as one without errors does. */
  function Listed(names: seq<seq<byte>>): Answers {
    (k: nat) => if k < |names| then Entry(names[k]) else End
  }

  /** Without errors Dread ends. */
  lemma ListedEnds(names: seq<seq<byte>>, stale: seq<byte>, filter: seq<byte>)
    ensures Ends(stale, filter, Listed(names))
  {
    assert Stops(stale, filter, Listed(names), |names|);
  }
}
