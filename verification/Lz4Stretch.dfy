/** What a search cannot leave among the literals: long stretches of one byte. */
module Lz4Stretch {
  import opened Bytes
  import opened Lz4Format
  import opened Lz4Match

  /** Up to this acceleration no step of a search exceeds the distance of a match. */
  const MAX_PACE := 32767

  /** All bytes from `u` to `v` are equal. */
  predicate Constant(s: seq<byte>, u: nat, v: nat) {
    u <= v <= |s| && forall x :: u <= x < v ==> s[x] == s[u]
  }

  /** How long a stretch of one byte can be among `n` literals that were searched with this acceleration. */
  function StretchLimit(acceleration: nat, n: nat): nat {
    4 * (acceleration + n / 64 + 16)
  }

  /** The literals from `anchor` to `end` hold no longer one. */
  ghost predicate NoStretch(s: seq<byte>, anchor: nat, end: nat, acceleration: nat) {
    acceleration <= MAX_PACE ==>
      forall u: nat, v: nat :: anchor <= u && v <= end && Constant(s, u, v) ==>
        v - u < StretchLimit(acceleration, end - anchor)
  }

  /** Literals behind a match start where the bytes two before do not go on as a match. */
  ghost predicate Tried(s: seq<byte>, anchor: nat) {
    2 <= anchor && anchor + MF_LIMIT <= |s| ==> !MatchAt(s, anchor, anchor - 2)
  }

  /** The literals from `anchor` to `end` were searched for matches. */
  ghost predicate Literals(s: seq<byte>, anchor: nat, end: nat, acceleration: nat) {
    NoStretch(s, anchor, end, acceleration) && (anchor < end ==> Tried(s, anchor))
  }

  lemma ShortRun(s: seq<byte>, anchor: nat, end: nat, acceleration: nat)
    requires anchor <= end <= anchor + 64 && (end == anchor || anchor == 0 || anchor + MF_LIMIT > |s|)
    ensures Literals(s, anchor, end, acceleration)
  {
  }

  // ----- steps of a search

  lemma StrideBounds(acceleration: nat, k: nat)
    requires acceleration >= 1
    ensures Stride(acceleration, k) >= 1 && Stride(acceleration, k) <= acceleration + k / 64
    ensures 64 * Stride(acceleration, k) >= k
  {
  }

  /** Positions ascend, so there are no more of them than bytes. */
  lemma {:induction false} PositionsAscend(ps: seq<nat>, start: nat, acceleration: nat, i: nat, j: nat)
    requires Scheduled(ps, start, acceleration) && acceleration >= 1 && i <= j < |ps|
    ensures ps[i] + (j - i) <= ps[j]
    decreases j - i
  {
    if i < j {
      PositionsAscend(ps, start, acceleration, i, j - 1);
      StrideBounds(acceleration, j - 1);
      assert ps[j - 1 + 1] == ps[j - 1] + Stride(acceleration, j - 1);
    }
  }

  /** Steps grow, so positions grow with the square of their number. */
  lemma {:induction false} PositionsSquare(ps: seq<nat>, start: nat, acceleration: nat, k: nat)
    requires Scheduled(ps, start, acceleration) && acceleration >= 1 && k < |ps|
    ensures k * k <= 128 * (ps[k] - start) + k
    decreases k
  {
    if k > 0 {
      PositionsSquare(ps, start, acceleration, k - 1);
      StrideBounds(acceleration, k - 1);
      assert ps[k - 1 + 1] == ps[k - 1] + Stride(acceleration, k - 1);
      assert k * k == (k - 1) * (k - 1) + 2 * k - 1;
    }
  }

  lemma RootBound(k: nat)
    requires k * k <= 0x40_0000_0000 + k
    ensures k <= 0x8_0000 + 1
  {
    assert k >= 0x8_0002 ==> k * k >= 0x8_0002 * k;
  }

  /** No step inside an input is longer than the distance of a match. */
  lemma StepInReach(ps: seq<nat>, start: nat, acceleration: nat, k: nat)
    requires Scheduled(ps, start, acceleration) && 1 <= acceleration <= MAX_PACE && k < |ps|
    requires ps[k] <= MAX_INPUT_SIZE
    ensures Stride(acceleration, k) <= MAX_DISTANCE
  {
    PositionsAscend(ps, start, acceleration, 0, k);
    PositionsSquare(ps, start, acceleration, k);
    assert 128 * (ps[k] - start) <= 0x40_0000_0000;
    RootBound(k);
    StrideBounds(acceleration, k);
  }

  /** The first position from `u` on. */
  lemma {:induction false} FirstFrom(ps: seq<nat>, start: nat, acceleration: nat, u: nat, last: nat) returns (j: nat)
    requires Scheduled(ps, start, acceleration) && last < |ps| && u <= ps[last]
    ensures j <= last && u <= ps[j] && (j > 0 ==> ps[j - 1] < u)
    decreases last
  {
    if last == 0 || ps[last - 1] < u {
      j := last;
    } else {
      j := FirstFrom(ps, start, acceleration, u, last - 1);
    }
  }

  lemma StepInside(ps: seq<nat>, start: nat, acceleration: nat, k: nat, n: nat)
    requires Scheduled(ps, start, acceleration) && acceleration >= 1 && k + 1 < |ps| && ps[k] <= start + n
    ensures ps[k] < ps[k + 1] <= ps[k] + acceleration + n / 64
  {
    PositionsAscend(ps, start, acceleration, 0, k);
    StrideBounds(acceleration, k);
  }

  /** Two neighbouring positions in a stretch of one byte match. */
  lemma StretchMatches(s: seq<byte>, u: nat, v: nat, p: nat, q: nat)
    requires Constant(s, u, v) && u <= p < q && q + 4 <= v && q - p <= MAX_DISTANCE
    ensures MatchAt(s, q, p)
  {
    forall x | 0 <= x < 4 ensures SameByte(s, q, p, x) {
      assert s[q + x] == s[u] && s[p + x] == s[u];
    }
  }

  /**
    A search from just behind `anchor` that passes over its first positions leaves no long stretch before
    `end`, when it has gone as far as that but for 10 bytes.
  */
  lemma SearchedRun(s: seq<byte>, anchor: nat, end: nat, start: nat, acceleration: nat, ps: seq<nat>)
    requires anchor <= end <= |s| <= MAX_INPUT_SIZE && start <= anchor + 1 && 1 <= acceleration && anchor <= start
    requires |ps| >= 2 && Scheduled(ps, start, acceleration) && PassedOver(s, ps, |ps| - 2)
    requires ps[|ps| - 1] + 10 >= end && Tried(s, anchor)
    ensures Literals(s, anchor, end, acceleration)
  {
    hide Scheduled, Constant, PassedOver, Tried;
    if acceleration <= MAX_PACE {
      forall u: nat, v: nat | anchor <= u && v <= end && Constant(s, u, v)
        ensures v - u < StretchLimit(acceleration, end - anchor)
      {
        if v - u >= StretchLimit(acceleration, end - anchor) {
          StretchFound(s, anchor, end, start, acceleration, ps, u, v);
        }
      }
    }
  }

  lemma StretchFound(s: seq<byte>, anchor: nat, end: nat, start: nat, acceleration: nat, ps: seq<nat>, u: nat, v: nat)
    requires anchor <= end <= |s| <= MAX_INPUT_SIZE && anchor <= start <= anchor + 1
    requires 1 <= acceleration <= MAX_PACE
    requires |ps| >= 2 && Scheduled(ps, start, acceleration) && ps[|ps| - 1] + 10 >= end
    requires anchor <= u && v <= end && Constant(s, u, v) && v - u >= StretchLimit(acceleration, end - anchor)
    ensures !PassedOver(s, ps, |ps| - 2)
  {
    hide Scheduled, Constant, MatchAt, Stride;
    var n, last := end - anchor, |ps| - 1;
    var d := acceleration + n / 64;
    var j := FirstFrom(ps, start, acceleration, u, last);
    ScheduleStart(ps, start, acceleration);
    if j > 0 {
      StepInside(ps, start, acceleration, j - 1, n);
    }
    assert ps[j] <= u + d;
    if j == last {
      assert false;
    }
    StepInside(ps, start, acceleration, j, n);
    if j + 1 == last {
      assert false;
    }
    StepInside(ps, start, acceleration, j + 1, n);
    if j + 2 == last {
      assert false;
    }
    StepInReach(ps, start, acceleration, j);
    ScheduleStep(ps, start, acceleration, j);
    StretchMatches(s, u, v, ps[j], ps[j + 1]);
    assert !NoMatchNext(s, ps, j);
  }

  lemma ScheduleStart(ps: seq<nat>, start: nat, acceleration: nat)
    requires Scheduled(ps, start, acceleration)
    ensures ps[0] == start
  {
  }

  lemma ScheduleStep(ps: seq<nat>, start: nat, acceleration: nat, k: nat)
    requires Scheduled(ps, start, acceleration) && k + 1 < |ps|
    ensures ps[k + 1] == ps[k] + Stride(acceleration, k)
  {
  }
}
