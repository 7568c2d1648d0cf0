/** The search for the largest packet size that the path carries. */
module Mtu {

  /** Rounds up to a multiple of four, as the mask does. */
  function RoundUp4(x: nat): (r: nat)
    ensures r % 4 == 0 && x <= r < x + 4
  {
    (x + 3) / 4 * 4
  }

  /** The size probed between two bounds. */
  function Probe(min: nat, max: nat): nat {
    RoundUp4(max / 2 + min / 2)
  }

  /** The bounds after a probe that succeeded or not. */
  function Narrowed(min: nat, max: nat, ok: bool): (int, int) {
    if ok then (Probe(min, max), max) else (min, Probe(min, max) - 4)
  }

  lemma ProbeIsMiddle(min: nat, max: nat)
    requires min % 4 == 0 && min < max
    ensures Probe(min, max) == min + RoundUp4((max - min) / 2)
  {
    var a, d := min / 4, max - min;
    assert max / 2 + min / 2 == min + d / 2;
    RoundUpShifts(a, d / 2);
  }

  lemma RoundUpShifts(a: nat, x: nat)
    ensures RoundUp4(4 * a + x) == 4 * a + RoundUp4(x)
  {
    assert (4 * a + x + 3) / 4 == a + (x + 3) / 4;
  }

  /** A probe lies above the lower bound, and shrinks the interval, exactly when
      the bounds are more than one apart; with bounds one apart it repeats the
      lower bound, and as long as that succeeds the search does not end. */
  lemma ProbeMakesProgress(min: nat, max: nat)
    requires min % 4 == 0 && min < max
    ensures Probe(min, max) % 4 == 0 && min <= Probe(min, max) <= RoundUp4(max)
    ensures min < Probe(min, max) <==> max != min + 1
    ensures Narrowed(min, max, true).1 - Narrowed(min, max, true).0 < max - min <==> max != min + 1
    ensures Narrowed(min, max, false).1 - Narrowed(min, max, false).0 < max - min
    ensures max == min + 1 ==> Narrowed(min, max, true) == (min, max)
  {
    hide RoundUp4, Probe;
    ProbeIsMiddle(min, max);
    NoFurther(min, max, RoundUp4((max - min) / 2), RoundUp4(max));
  }

  lemma NoFurther(min: nat, max: nat, r: nat, top: nat)
    requires min % 4 == r % 4 == top % 4 == 0 && min < max <= top && (max - min) / 2 <= r < (max - min) / 2 + 4
    ensures min + r <= top && (r == 0 <==> max == min + 1)
  {
    var a, b, c := min / 4, r / 4, top / 4;
    assert min == 4 * a && r == 4 * b && top == 4 * c;
    assert a + b < c + 1;
  }

  /** The lower bound after `k` probes that all succeeded. */
  function Climbed(min: nat, max: nat, k: nat): nat {
    if k == 0 then min
    else
      var m := Climbed(min, max, k - 1);
      if m < max then Probe(m, max) else m
  }

  lemma ProbeStaysBelow(a: nat, q: nat)
    ensures Probe(4 * a, 4 * a + 4 * q + 1) == 4 * (a + (q + 1) / 2)
  {
    ProbeIsMiddle(4 * a, 4 * a + 4 * q + 1);
    assert (4 * q + 1) / 2 == 2 * q;
    assert (2 * q + 3) / 4 == (q + 1) / 2;
  }

  /** The climb towards an upper limit that leaves 1 modulo 4 never passes the
      multiple of 4 below it ... */
  lemma {:induction false} ClimbBelow(min: nat, max: nat, k: nat)
    requires min % 4 == 0 && min < max && max % 4 == 1
    ensures var m := Climbed(min, max, k);
            m % 4 == 0 && min <= m < max && Probe(m, max) % 4 == 0 && m <= Probe(m, max) < max
  {
    hide Probe;
    if k > 0 {
      ClimbBelow(min, max, k - 1);
    }
    ProbeBelow(Climbed(min, max, k), max);
  }

  lemma ProbeBelow(m: nat, max: nat)
    requires m % 4 == 0 && m < max && max % 4 == 1
    ensures Probe(m, max) % 4 == 0 && m <= Probe(m, max) < max
  {
    hide Probe;
    var a, q := m / 4, max / 4 - m / 4;
    assert m == 4 * a && max == 4 * a + 4 * q + 1;
    ProbeStaysBelow(a, q);
  }

  /** ... and reaches it. */
  lemma {:induction false} ClimbReaches(min: nat, max: nat, k: nat)
    requires min % 4 == 0 && min < max && max % 4 == 1
    ensures min + k <= Climbed(min, max, k) || Climbed(min, max, k) == max - 1
  {
    if k > 0 {
      ClimbReaches(min, max, k - 1);
      ClimbBelow(min, max, k - 1);
      ClimbBelow(min, max, k);
      ProbeMakesProgress(Climbed(min, max, k - 1), max);
      hide Probe;
    }
  }

  /** The bounds after `k` probes. `echo(k, size)` tells whether the k-th probe,
      of that size, came back. */
  ghost function BoundsAfter(min: nat, max: nat, echo: (nat, nat) -> bool, k: nat): (int, int) {
    if k == 0 then (min, max)
    else
      var (lo, hi) := BoundsAfter(min, max, echo, k - 1);
      if 0 <= lo < hi then Narrowed(lo, hi, echo(k - 1, Probe(lo, hi))) else (lo, hi)
  }

  /** The search ends: the upper limit does not leave 1 modulo 4, or some probe
      of the climb towards it does not come back. */
  ghost predicate Ends(min: nat, max: nat, echo: (nat, nat) -> bool) {
    max <= min || max % 4 != 1 || exists k: nat :: FailsAt(min, max, echo, k)
  }

  ghost predicate FailsAt(min: nat, max: nat, echo: (nat, nat) -> bool, k: nat) {
    !echo(k, Probe(Climbed(min, max, k), max))
  }

  /** Otherwise the bounds never meet. */
  lemma {:induction false} NeverEnds(min: nat, max: nat, echo: (nat, nat) -> bool, k: nat)
    requires min % 4 == 0 && !Ends(min, max, echo)
    ensures BoundsAfter(min, max, echo, k) == (Climbed(min, max, k), max)
    ensures BoundsAfter(min, max, echo, k).0 < BoundsAfter(min, max, echo, k).1
  {
    ClimbBelow(min, max, k);
    if k > 0 {
      NeverEnds(min, max, echo, k - 1);
      ClimbBelow(min, max, k - 1);
      assert !FailsAt(min, max, echo, k - 1);
    }
  }

  /** What becomes of probes in a buffer of `room` bytes: a larger one is cut, in
      the datagram that is sent or in the one that comes back, and does not count
      as a success. */
  function Cut(echo: (nat, nat) -> bool, room: nat): (nat, nat) -> bool {
    (k: nat, size: nat) => size <= room && echo(k, size)
  }

  /** The probes of a search that does not end all fit a buffer of the size of the
      upper limit, so that the buffer does not matter there. */
  lemma CutKeepsEnds(min: nat, max: nat, echo: (nat, nat) -> bool, room: nat)
    requires min % 4 == 0 && max <= room
    ensures Ends(min, max, Cut(echo, room)) <==> Ends(min, max, echo)
  {
    if min < max && max % 4 == 1 {
      forall k: nat ensures FailsAt(min, max, Cut(echo, room), k) <==> FailsAt(min, max, echo, k) {
        ClimbBelow(min, max, k);
      }
    }
  }

  function Least(a: nat, b: nat): nat {
    if a < b then a else b
  }

  /** The path echoes exactly the probes up to a limit. */
  ghost predicate EchoesUpTo(echo: (nat, nat) -> bool, limit: nat) {
    forall k: nat, size: nat :: echo(k, size) <==> size <= limit
  }

  /** The largest multiple of four that the path carries and the search may
      reach, or the minimum if there is none above it. */
  function Best(min: nat, max: nat, limit: nat): nat {
    var top := if limit < RoundUp4(max) then limit else RoundUp4(max);
    if top < min then min else top - top % 4
  }

  lemma EchoAt(echo: (nat, nat) -> bool, limit: nat, k: nat, size: nat)
    ensures EchoesUpTo(echo, limit) ==> (echo(k, size) <==> size <= limit)
  {
  }

  /** On such a path the search ends exactly when the upper limit does not leave 1
      modulo 4, or the path does not carry the multiple of 4 below it. */
  lemma EndsOnPathIff(min: nat, max: nat, echo: (nat, nat) -> bool, limit: nat)
    requires min % 4 == 0 && EchoesUpTo(echo, limit)
    ensures Ends(min, max, echo) <==> max <= min || max % 4 != 1 || limit < max - 1
  {
    hide EchoesUpTo, Climbed;
    if min < max && max % 4 == 1 {
      forall k: nat ensures limit >= max - 1 ==> !FailsAt(min, max, echo, k) {
        ClimbBelow(min, max, k);
        EchoAt(echo, limit, k, Probe(Climbed(min, max, k), max));
      }
      if limit < max - 1 {
        ClimbReaches(min, max, max);
        ClimbBelow(min, max, max);
        EchoAt(echo, limit, max, Probe(Climbed(min, max, max), max));
        assert FailsAt(min, max, echo, max);
      }
    }
  }

  /** The size found exceeds the upper limit exactly when that leaves 2 or 3 modulo
      4, and both path and buffer take the next multiple of 4; never when the
      buffer is no larger than the limit. */
  lemma ExceedsIff(min: nat, max: nat, limit: nat, room: nat)
    requires min % 4 == 0 && min < max <= room && (max % 4 == 1 ==> limit < max - 1)
    ensures Best(min, max, Least(limit, room)) > max <==>
              2 <= max % 4 && RoundUp4(max) <= limit && RoundUp4(max) <= room
    ensures room == max ==> Best(min, max, Least(limit, room)) <= max
  {
  }

  lemma BestFound(min0: nat, max0: nat, min: nat, max: nat, limit: nat)
    requires min0 % 4 == 0 && min % 4 == 0 && min0 <= min && max <= min
    requires max0 <= min0 ==> min == min0
    requires max0 > min0 ==> min <= RoundUp4(max0) && min <= max + 4
    requires max == max0 || (max % 4 == 0 && max + 4 <= RoundUp4(max0) && limit < max + 4 && max0 > min0)
    requires (min0 <= limit ==> min <= limit) && (limit < min0 ==> min == min0)
    ensures min == Best(min0, max0, limit)
  {
  }

  /** The bisection, with a buffer of `room` bytes. `echo(k, size)` tells whether
      the k-th probe comes back over the path. A search that does not end is
      excluded, and no other. */
  method Search(min0: nat, max0: nat, room: nat, echo: (nat, nat) -> bool, ghost limit: nat)
    returns (min: nat, ghost probes: nat)
    requires 4 <= min0 && min0 % 4 == 0 && max0 <= room && Ends(min0, max0, echo)
    ensures var b := BoundsAfter(min0, max0, Cut(echo, room), probes); b.1 <= min == b.0
    // a size that worked, or the minimum, whatever was lost
    ensures min % 4 == 0 && min0 <= min && (min == min0 || min <= RoundUp4(max0))
    ensures min == min0 || (min <= room && exists k: nat :: echo(k, min))
    // the largest one that path and buffer carry, when nothing that fits is lost
    ensures EchoesUpTo(echo, limit) ==> min == Best(min0, max0, Least(limit, room))
  {
    hide Probe, Narrowed, RoundUp4, Best, EchoesUpTo, BoundsAfter, Climbed, Least, Cut, Within, Follows;
    CutKeepsEnds(min0, max0, echo, room);
    CutEchoes(echo, room, limit);
    min := min0;
    var max: int := max0;
    var count: nat := 0;
    ghost var back, top := Cut(echo, room), Least(limit, room);
    ghost var fails := Begins(min0, max0, back, top);
    while min < max
      invariant min0 <= min && Within(min0, max0, min, max, back, top)
      invariant Follows(min0, max0, min, max, back, count, fails)
      invariant min == min0 || (min <= room && exists k: nat :: echo(k, min))
      decreases if max == max0 && max0 % 4 == 1 then fails + 1 - count else 0, max - min
    {
      StaysWithin(min0, max0, min, max, back, top, count);
      FollowsOn(min0, max0, min, max, back, top, count, fails);
      var test := Probe(min, max);
      CutAt(echo, room, count, test);
      Splits(min, max, test);
      if test <= room && echo(count, test) {
        min := test;
      } else {
        max := test - 4;
      }
      count := count + 1;
    }
    probes := count;
    EndsWithin(min0, max0, min, max, back, top, count, fails);
  }

  /** Where the bounds are, and what they mean on a path with a limit. */
  ghost predicate Within(min0: nat, max0: nat, min: int, max: int, back: (nat, nat) -> bool, top: nat) {
    && min % 4 == 0 && min0 <= min && (max0 <= min0 ==> min == min0 && max == max0)
    && (max0 > min0 ==> min <= RoundUp4(max0) && min <= max + 4)
    && (max == max0 || (max % 4 == 0 && 0 <= max && max + 4 <= RoundUp4(max0) && max0 > min0))
    && (EchoesUpTo(back, top) ==>
          && (min0 <= top ==> min <= top) && (top < min0 ==> min == min0) && (max != max0 ==> top < max + 4))
  }

  /** The bounds are those after `count` probes, before the failure that ends the
      climb as long as the upper one has not moved. */
  ghost predicate Follows(min0: nat, max0: nat, min: int, max: int, back: (nat, nat) -> bool, count: nat, fails: nat) {
    && BoundsAfter(min0, max0, back, count) == (min, max)
    && (max == max0 && max0 % 4 == 1 && min0 < max0 ==>
          min == Climbed(min0, max0, count) && count <= fails && FailsAt(min0, max0, back, fails))
  }

  lemma Begins(min0: nat, max0: nat, back: (nat, nat) -> bool, top: nat) returns (fails: nat)
    requires min0 % 4 == 0 && Ends(min0, max0, back)
    ensures Within(min0, max0, min0, max0, back, top) && Follows(min0, max0, min0, max0, back, 0, fails)
  {
    hide EchoesUpTo;
    fails := 0;
    if max0 % 4 == 1 && min0 < max0 {
      fails :| FailsAt(min0, max0, back, fails);
    }
  }

  lemma Splits(min: int, max: int, test: nat)
    requires 0 <= min < max && test == Probe(min, max)
    ensures Narrowed(min, max, true) == (test, max) && Narrowed(min, max, false) == (min, test - 4)
  {
  }

  lemma StaysWithin(min0: nat, max0: nat, min: int, max: int, back: (nat, nat) -> bool, top: nat, count: nat)
    requires 4 <= min0 && Within(min0, max0, min, max, back, top) && min < max
    ensures var (lo, hi) := Narrowed(min, max, back(count, Probe(min, max)));
            min0 <= lo && Within(min0, max0, lo, hi, back, top)
  {
    hide Probe, RoundUp4, EchoesUpTo;
    ProbeMakesProgress(min, max);
    EchoAt(back, top, count, Probe(min, max));
  }

  lemma FollowsOn(min0: nat, max0: nat, min: int, max: int, back: (nat, nat) -> bool, top: nat, count: nat, fails: nat)
    requires Within(min0, max0, min, max, back, top) && Follows(min0, max0, min, max, back, count, fails) && min < max
    ensures var (lo, hi) := Narrowed(min, max, back(count, Probe(min, max)));
            && Follows(min0, max0, lo, hi, back, count + 1, fails)
            && (max == max0 && max0 % 4 == 1 ==> count <= fails)
            && (!(max == max0 && max0 % 4 == 1) ==> hi - lo < max - min && !(hi == max0 && max0 % 4 == 1))
  {
    hide Probe, RoundUp4, EchoesUpTo, BoundsAfter, Climbed;
    ProbeMakesProgress(min, max);
    ProbedOnce(min0, max0, back, count);
  }

  lemma EndsWithin(min0: nat, max0: nat, min: nat, max: int, back: (nat, nat) -> bool, top: nat, count: nat, fails: nat)
    requires min0 % 4 == 0 && max <= min
    requires Within(min0, max0, min, max, back, top) && Follows(min0, max0, min, max, back, count, fails)
    ensures BoundsAfter(min0, max0, back, count) == (min as int, max)
    ensures min % 4 == 0 && (min == min0 || min <= RoundUp4(max0))
    ensures EchoesUpTo(back, top) ==> min == Best(min0, max0, top)
  {
    hide EchoesUpTo, BoundsAfter, Climbed, RoundUp4, Best;
    if EchoesUpTo(back, top) {
      BestFound(min0, max0, min, max, top);
    }
  }

  lemma CutAt(echo: (nat, nat) -> bool, room: nat, k: nat, size: nat)
    ensures Cut(echo, room)(k, size) <==> size <= room && echo(k, size)
  {
  }

  lemma CutEchoes(echo: (nat, nat) -> bool, room: nat, limit: nat)
    ensures EchoesUpTo(echo, limit) ==> EchoesUpTo(Cut(echo, room), Least(limit, room))
  {
  }

  /** Both searches, which share a buffer of the larger of the two limits. */
  method DetermineMtu(min: nat, recvMax: nat, sendMax: nat, recvEcho: (nat, nat) -> bool, sendEcho: (nat, nat) -> bool,
                      ghost recvLimit: nat, ghost sendLimit: nat) returns (recv: nat, send: nat)
    requires 4 <= min && min % 4 == 0 && Ends(min, recvMax, recvEcho) && Ends(min, sendMax, sendEcho)
    ensures var room := if recvMax < sendMax then sendMax else recvMax;
            && (EchoesUpTo(recvEcho, recvLimit) ==> recv == Best(min, recvMax, Least(recvLimit, room)))
            && (EchoesUpTo(sendEcho, sendLimit) ==> send == Best(min, sendMax, Least(sendLimit, room)))
    ensures recv == min || recv <= RoundUp4(recvMax)
    ensures send == min || send <= RoundUp4(sendMax)
  {
    var room := if recvMax < sendMax then sendMax else recvMax;
    ghost var probes;
    recv, probes := Search(min, recvMax, room, recvEcho, recvLimit);
    send, probes := Search(min, sendMax, room, sendEcho, sendLimit);
  }

  /** Limits of 1474 and 1500 on a path of 2000: the receive size found exceeds its
      limit, since the buffer is that of the other one. */
  method Exceeding() returns (recv: nat, send: nat)
    ensures recv == 1476 && send == 1500
  {
    var echo: (nat, nat) -> bool := (k: nat, size: nat) => size <= 2000;
    assert EchoesUpTo(echo, 2000);
    recv, send := DetermineMtu(48, 1474, 1500, echo, echo, 2000, 2000);
  }

  lemma ProbedOnce(min: nat, max: nat, echo: (nat, nat) -> bool, k: nat)
    ensures var (lo, hi) := BoundsAfter(min, max, echo, k);
            0 <= lo < hi ==> BoundsAfter(min, max, echo, k + 1) == Narrowed(lo, hi, echo(k, Probe(lo, hi)))
    ensures Climbed(min, max, k) < max ==> Climbed(min, max, k + 1) == Probe(Climbed(min, max, k), max)
  {
  }
}
