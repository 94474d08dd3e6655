/**
 The spawn policy of `spawnBubbles`: the weighted colour draw, the overlap
 test of `findOverlappingBubbles` and the bounded placement loop. The random
 value `r`, the candidate x positions, the clock reading and the
 speed-dependent minimum age ("dynamic min time") are inputs.
 */
module Spawning {
  import opened Options
  import opened Entities

  /** One row of the colour table: colour, base points and cumulative threshold. */
  datatype Tier = Tier(colour: Colour, points: int, threshold: real)

  /**
   Cumulative probabilities 40%, 30%, 15%, 10% and 5%. Each threshold is the
   exact value of the `Double` nearest to the decimal literal 0.40, 0.70,
   0.85, 0.95 or 1.0, so comparisons with a drawn `r` go as they do on doubles.
   */
  const ColourTable: seq<Tier> := [
    Tier(Red, 1, 0.40000000000000002220446049250313080847263336181640625),
    Tier(Pink, 2, 0.6999999999999999555910790149937383830547332763671875),
    Tier(Green, 5, 0.84999999999999997779553950749686919152736663818359375),
    Tier(Blue, 8, 0.9499999999999999555910790149937383830547332763671875),
    Tier(Black, 10, 1.0)
  ]

  /** The number of x positions tried before a spawn is given up. */
  const MaxAttempts: nat := 20

  /** The candidate x positions drawn for one spawn, one per attempt. */
  type Draws = ds: seq<int> | |ds| == MaxAttempts witness seq(MaxAttempts, _ => 0)

  /** Swift's `first(where: { $0.threshold > r })`, as an index. */
  function FirstAbove(table: seq<Tier>, r: real): (i: Option<nat>)
    ensures i.Some? ==> i.value < |table| && table[i.value].threshold > r
    ensures i.Some? ==> forall j :: 0 <= j < i.value ==> table[j].threshold <= r
    ensures i.None? ==> forall j :: 0 <= j < |table| ==> table[j].threshold <= r
  {
    if |table| == 0 then None
    else if table[0].threshold > r then Some(0)
    else
      match FirstAbove(table[1..], r)
      case None => None
      case Some(k) => Some(k + 1)
  }

  /** `r` falls in the band of row `i`: at or above the previous threshold, below its own. */
  predicate InBand(i: nat, r: real)
    requires i < |ColourTable|
  {
    (i == 0 || ColourTable[i - 1].threshold <= r) && r < ColourTable[i].threshold
  }

  /**
   The colour draw. For every `r` in [0, 1) a row is chosen; it is the one
   row whose band holds `r`, and its points are one of 1, 2, 5, 8, 10. Only
   an `r` of 1 or more (which the random source never yields) selects none,
   and then no bubble is spawned.
   */
  function DrawColour(r: real): (t: Option<Tier>)
    ensures t.None? <==> r >= 1.0
    ensures t.Some? ==> exists i :: 0 <= i < |ColourTable| && t.value == ColourTable[i] && InBand(i, r)
    ensures forall i :: 0 <= i < |ColourTable| && InBand(i, r) ==> t == Some(ColourTable[i])
    ensures t.Some? ==> t.value.points in {1, 2, 5, 8, 10}
  {
    match FirstAbove(ColourTable, r)
    case None => assert ColourTable[4].threshold == 1.0; None
    case Some(i) => Some(ColourTable[i])
  }

  /**
   The `Double` written 0.70 lies just below seven tenths, so a draw equal to
   it is not below the Pink threshold and selects Green.
   */
  lemma DrawAtSevenTenths()
    ensures DrawColour(0.6999999999999999555910790149937383830547332763671875) == Some(ColourTable[2])
    ensures DrawColour(0.6999999999999999555910790149937383830547332763671875).value.colour == Green
  {
    assert InBand(2, 0.6999999999999999555910790149937383830547332763671875);
  }

  /** A bubble that the overlap test considers for a new bubble at `x`. */
  predicate Candidate(b: Bubble, x: int) {
    !b.isPopped && Abs(x - b.x) < Diameter
  }

  /**
   The loop of `findOverlappingBubbles` as a fold over the list: the
   candidate with the greatest creation time, the earliest such one on ties.
   */
  function Latest(bs: seq<Bubble>, x: int): (r: Option<Bubble>)
    ensures r.None? <==> forall i :: 0 <= i < |bs| ==> !Candidate(bs[i], x)
    ensures r.Some? ==> Candidate(r.value, x)
    ensures r.Some? ==> forall i :: 0 <= i < |bs| && Candidate(bs[i], x) ==>
                          bs[i].creationTime <= r.value.creationTime
    ensures r.Some? ==> exists i :: 0 <= i < |bs| && bs[i] == r.value &&
                          forall j :: 0 <= j < i && Candidate(bs[j], x) ==>
                            bs[j].creationTime < r.value.creationTime
  {
    if |bs| == 0 then None
    else
      var prev := Latest(bs[..|bs| - 1], x);
      var b := bs[|bs| - 1];
      if Candidate(b, x) && (prev.None? || b.creationTime > prev.value.creationTime) then Some(b)
      else prev
  }

  /**
   `findOverlappingBubbles`: the newest candidate was created less than
   `minAge` before `now`. `OverlapsIffSomeYoung` shows this is the same as
   some candidate being younger than `minAge`.
   */
  function Overlaps(bs: seq<Bubble>, x: int, now: int, minAge: int): bool {
    match Latest(bs, x)
    case None => false
    case Some(b) => now - b.creationTime < minAge
  }

  /**
   Looking only at the newest candidate decides the same as looking at all of
   them: a position overlaps exactly when some unpopped bubble within one
   diameter is younger than `minAge`.
   */
  lemma OverlapsIffSomeYoung(bs: seq<Bubble>, x: int, now: int, minAge: int)
    ensures Overlaps(bs, x, now, minAge) <==>
              exists i :: 0 <= i < |bs| && Candidate(bs[i], x) && now - bs[i].creationTime < minAge
  {
    var l := Latest(bs, x);
    if l.Some? {
      var i :| 0 <= i < |bs| && bs[i] == l.value &&
               forall j :: 0 <= j < i && Candidate(bs[j], x) ==> bs[j].creationTime < l.value.creationTime;
      if Overlaps(bs, x, now, minAge) {
        assert Candidate(bs[i], x) && now - bs[i].creationTime < minAge;
      }
    }
  }

  /** The scan of `findOverlappingBubbles` as a loop over the bubble list, keeping the newest candidate seen. */
  method FindOverlapping(bs: seq<Bubble>, x: int, now: int, minAge: int) returns (overlapping: bool)
    ensures overlapping == Overlaps(bs, x, now, minAge)
  {
    var latest: Option<Bubble> := None;
    var i := 0;
    while i < |bs|
      invariant 0 <= i <= |bs|
      invariant latest == Latest(bs[..i], x)
    {
      var b := bs[i];
      assert bs[..i + 1][..i] == bs[..i];
      if !b.isPopped {
        if Abs(x - b.x) < Diameter {
          if latest.None? || b.creationTime > latest.value.creationTime {
            latest := Some(b);
          }
        }
      }
      i := i + 1;
    }
    assert bs[..i] == bs;
    if latest.None? {
      return false;
    }
    overlapping := now - latest.value.creationTime < minAge;
  }

  /** The first drawn position that does not overlap, if any. */
  function FreeSlot(bs: seq<Bubble>, ds: seq<int>, now: int, minAge: int): (r: Option<int>)
    ensures r.None? <==> forall k :: 0 <= k < |ds| ==> Overlaps(bs, ds[k], now, minAge)
    ensures r.Some? ==> exists k :: 0 <= k < |ds| && ds[k] == r.value &&
                          !Overlaps(bs, ds[k], now, minAge) &&
                          forall j :: 0 <= j < k ==> Overlaps(bs, ds[j], now, minAge)
  {
    if |ds| == 0 then None
    else if !Overlaps(bs, ds[0], now, minAge) then Some(ds[0])
    else
      var r := FreeSlot(bs, ds[1..], now, minAge);
      assert r.Some? ==> exists k :: 0 <= k < |ds| - 1 && ds[1..][k] == r.value &&
                          !Overlaps(bs, ds[1..][k], now, minAge) &&
                          forall j :: 0 <= j < k ==> Overlaps(bs, ds[1..][j], now, minAge);
      r
  }

  /**
   The placement loop of `spawnBubbles`: try the drawn
   positions in order, at most `MaxAttempts` of them, stopping at the first
   one that does not overlap.
   */
  method Place(bs: seq<Bubble>, ds: Draws, now: int, minAge: int) returns (validPositionFound: bool, x: int)
    ensures validPositionFound <==> FreeSlot(bs, ds, now, minAge).Some?
    ensures validPositionFound ==> x == FreeSlot(bs, ds, now, minAge).value
  {
    var currentAttempt := 0;
    validPositionFound := false;
    x := 0;
    while currentAttempt < MaxAttempts && !validPositionFound
      invariant 0 <= currentAttempt <= MaxAttempts
      invariant !validPositionFound ==> forall k :: 0 <= k < currentAttempt ==> Overlaps(bs, ds[k], now, minAge)
      invariant validPositionFound ==>
                  && 0 < currentAttempt && x == ds[currentAttempt - 1]
                  && !Overlaps(bs, x, now, minAge)
                  && forall k :: 0 <= k < currentAttempt - 1 ==> Overlaps(bs, ds[k], now, minAge)
    {
      x := ds[currentAttempt];
      var overlapping := FindOverlapping(bs, x, now, minAge);
      if !overlapping {
        validPositionFound := true;
      }
      currentAttempt := currentAttempt + 1;
    }
    FreeSlotIsFirst(bs, ds, now, minAge, currentAttempt);
  }

  /** Whatever index first hits a free position is where `FreeSlot` stops. */
  lemma FreeSlotIsFirst(bs: seq<Bubble>, ds: seq<int>, now: int, minAge: int, n: nat)
    requires n <= |ds|
    requires forall k :: 0 <= k < n - 1 ==> Overlaps(bs, ds[k], now, minAge)
    ensures n > 0 && !Overlaps(bs, ds[n - 1], now, minAge) ==> FreeSlot(bs, ds, now, minAge) == Some(ds[n - 1])
  {
    if n > 0 && !Overlaps(bs, ds[n - 1], now, minAge) {
      var r := FreeSlot(bs, ds, now, minAge);
      var k :| 0 <= k < |ds| && ds[k] == r.value && !Overlaps(bs, ds[k], now, minAge) &&
               forall j :: 0 <= j < k ==> Overlaps(bs, ds[j], now, minAge);
      assert k == n - 1;
    }
  }
}
