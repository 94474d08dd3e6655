/**
 The headless engine of `GameManager` as one immutable state record and
 pure transitions. The public `startGame` call and every timer or main-queue
 callback of `GameManager` is a transition the environment may invoke: the
 start, the countdown tick, the spawn tick,
 the per-bubble expiry, the delayed removal of a popped bubble or of a point
 effect, and the queued block that saves the score once time is up.
 */
module Game {
  import opened Options
  import opened Entities
  import opened Registry
  import opened Scoring
  import opened Spawning

  /**
   The engine state. `effects` is `activePoints`; `scores` is the saved score
   store; `countdownActive` and `spawningActive` say whether the countdown
   timer and the spawn timer are scheduled; `pendingFinishes` counts the
   queued "save score and show game over" blocks not yet run.
   */
  datatype GameState = GameState(
    score: int,
    bubbles: seq<Bubble>,
    effects: seq<PointEffect>,
    timeRemaining: int,
    initialTimeLimit: int,
    maxBubbles: int,
    playerName: string,
    isGameOver: bool,
    lastColour: Option<Colour>,
    lastScore: Option<int>,
    countdownActive: bool,
    spawningActive: bool,
    pendingFinishes: nat,
    scores: seq<PlayerScore>)

  /** What one spawn tick draws from its environment. */
  datatype SpawnInput = SpawnInput(
    r: real,          // the colour draw, `Double.random(in: 0..<1)`
    draws: Draws,     // one candidate x per placement attempt
    now: int,         // the clock reading, also the new bubble's creation time
    minAge: int,      // the speed-dependent "dynamic min time"
    id: nat)          // the new bubble's UUID

  /** The callbacks the environment may invoke. */
  datatype Event =
    | OnStart
    | OnCountdown
    | OnFinish
    | OnSpawnTimer(input: SpawnInput)
    | OnPop(id: nat, effectId: nat, ex: int, ey: int)
    | OnExpire(id: nat)
    | OnRemoveBubble(id: nat)
    | OnRemoveEffect(id: nat)

  function BubbleIds(bs: seq<Bubble>): seq<nat> { Keys(bs, BubbleKey) }

  function EffectIds(es: seq<PointEffect>): seq<nat> { Keys(es, EffectKey) }

  /** The manager as constructed: a 60-second limit, at most 15 bubbles, over a given store. */
  function NewManager(scores: seq<PlayerScore>): (s: GameState)
    ensures Valid(s)
  {
    GameState(0, [], [], 60, 60, 15, "", false, None, None, false, false, 0, scores)
  }

  /**
   The invariant every reachable state keeps: the score and the clock are
   non-negative, the bubble count is within the cap, ids are unique, every
   award is positive, and the last colour and last award are remembered
   together.
   */
  predicate Valid(s: GameState) {
    && s.score >= 0
    && s.timeRemaining >= 0
    && |s.bubbles| <= s.maxBubbles
    && Distinct(BubbleIds(s.bubbles))
    && Distinct(EffectIds(s.effects))
    && (forall b :: b in s.bubbles ==> b.point >= 1)
    && (forall e :: e in s.effects ==> e.points >= 1)
    && (s.lastScore.Some? <==> s.lastColour.Some?)
    && (s.lastScore.Some? ==> s.lastScore.value >= 1)
  }

  /** There is an unpopped bubble with this id. */
  predicate Alive(bs: seq<Bubble>, id: nat) {
    exists i :: 0 <= i < |bs| && bs[i].id == id && !bs[i].isPopped
  }

  // ---------------------------------------------------------------- session

  /** `resetGame`: clears the session and takes the time limit from the clock. */
  function Reset(s: GameState): (r: GameState)
    ensures r.score == 0 && r.bubbles == [] && r.effects == [] && !r.isGameOver
    ensures r.lastColour == None && r.lastScore == None
    ensures r.initialTimeLimit == r.timeRemaining == s.timeRemaining
    ensures !r.countdownActive && !r.spawningActive
    ensures r.maxBubbles == s.maxBubbles && r.playerName == s.playerName
    ensures r.scores == s.scores && r.pendingFinishes == s.pendingFinishes
    ensures s.timeRemaining >= 0 && s.maxBubbles >= 0 ==> Valid(r)
  {
    s.(score := 0, bubbles := [], effects := [], isGameOver := false,
       lastColour := None, lastScore := None, initialTimeLimit := s.timeRemaining,
       countdownActive := false, spawningActive := false)
  }

  /**
   `startGame`: reset, then schedule the spawn timer and the countdown timer.
   The new session starts empty, with nothing remembered, both timers running
   and the current clock as its time limit.
   */
  function Start(s: GameState): (r: GameState)
    ensures r.countdownActive && r.spawningActive && !r.isGameOver
    ensures r.score == 0 && r.bubbles == [] && r.effects == []
    ensures r.lastColour == None && r.lastScore == None
    ensures r.initialTimeLimit == r.timeRemaining == s.timeRemaining
    ensures r.scores == s.scores && r.pendingFinishes == s.pendingFinishes
    ensures r.maxBubbles == s.maxBubbles && r.playerName == s.playerName
    ensures s.timeRemaining >= 0 && s.maxBubbles >= 0 ==> Valid(r)
  {
    Reset(s).(spawningActive := true, countdownActive := true)
  }

  /**
   The countdown timer's body: one second off while time is left; at zero
   both timers are invalidated and the save-and-game-over block is queued.
   */
  function Tick(s: GameState): (r: GameState)
    ensures s.timeRemaining >= 0 ==> r.timeRemaining >= 0
    ensures r.timeRemaining == s.timeRemaining || r.timeRemaining == s.timeRemaining - 1
    ensures r.countdownActive ==> s.countdownActive
    ensures !s.countdownActive ==> r == s
    ensures s.countdownActive && s.timeRemaining > 0 ==> r == s.(timeRemaining := s.timeRemaining - 1)
    ensures s.countdownActive && s.timeRemaining <= 0 ==>
              r == s.(countdownActive := false, spawningActive := false, pendingFinishes := s.pendingFinishes + 1)
  {
    if !s.countdownActive then s
    else if s.timeRemaining > 0 then s.(timeRemaining := s.timeRemaining - 1)
    else s.(countdownActive := false, spawningActive := false, pendingFinishes := s.pendingFinishes + 1)
  }

  /** The queued main-queue block: `saveScore()` then `isGameOver = true`. */
  function Finish(s: GameState): (r: GameState)
    ensures s.pendingFinishes == 0 ==> r == s
    ensures s.pendingFinishes > 0 ==>
              && r.scores == s.scores + [PlayerScore(s.playerName, s.score)]
              && r.isGameOver
              && r.pendingFinishes == s.pendingFinishes - 1
              && r.(scores := s.scores, isGameOver := s.isGameOver, pendingFinishes := s.pendingFinishes) == s
  {
    if s.pendingFinishes == 0 then s
    else s.(scores := s.scores + [PlayerScore(s.playerName, s.score)], isGameOver := true,
            pendingFinishes := s.pendingFinishes - 1)
  }

  // --------------------------------------------------------------- spawning

  /**
   The bubble a successful spawn appends: fresh id, unpopped, created now,
   coloured by the band `r` falls in, and placed at the first drawn x whose
   every unpopped neighbour within one diameter is at least `minAge` old.
   */
  predicate SpawnedAsDrawn(bs: seq<Bubble>, inp: SpawnInput, b: Bubble) {
    && b.id == inp.id && !b.isPopped && b.creationTime == inp.now
    && (exists i :: 0 <= i < |ColourTable| && InBand(i, inp.r) &&
          b.colour == ColourTable[i].colour && b.point == ColourTable[i].points)
    && (exists k :: 0 <= k < MaxAttempts && b.x == inp.draws[k] &&
          forall j :: 0 <= j < k ==> Overlaps(bs, inp.draws[j], inp.now, inp.minAge))
    && (forall i :: 0 <= i < |bs| && Candidate(bs[i], b.x) ==> inp.now - bs[i].creationTime >= inp.minAge)
  }

  /**
   `spawnBubbles`: draw a colour, place it, append it (or give up silently).
   `SpawnTick` states what the appended bubble is, via `SpawnedAsDrawn`.
   */
  function Spawn(s: GameState, inp: SpawnInput): GameState {
    match DrawColour(inp.r)
    case None => s
    case Some(t) =>
      match FreeSlot(s.bubbles, inp.draws, inp.now, inp.minAge)
      case None => s
      case Some(x) => s.(bubbles := s.bubbles + [Bubble(inp.id, x, t.colour, false, t.points, inp.now)])
  }

  /**
   The spawn timer's body: while it is scheduled and the list is below the
   cap, spawn. A tick appends at most one bubble, so it never takes the list
   above the cap; it appends exactly one whenever it is allowed to and some
   drawn position is free.
   */
  function SpawnTick(s: GameState, inp: SpawnInput): (r: GameState)
    ensures r == s.(bubbles := r.bubbles)
    ensures r.bubbles == s.bubbles || (|r.bubbles| == |s.bubbles| + 1 && r.bubbles[..|s.bubbles|] == s.bubbles)
    ensures |r.bubbles| > |s.bubbles| ==> s.spawningActive && |s.bubbles| < s.maxBubbles
    ensures |s.bubbles| <= s.maxBubbles ==> |r.bubbles| <= s.maxBubbles
    ensures |r.bubbles| > |s.bubbles| ==> SpawnedAsDrawn(s.bubbles, inp, r.bubbles[|s.bubbles|])
    ensures s.spawningActive && |s.bubbles| < s.maxBubbles && 0.0 <= inp.r < 1.0 &&
            (exists k :: 0 <= k < MaxAttempts && !Overlaps(s.bubbles, inp.draws[k], inp.now, inp.minAge))
            ==> |r.bubbles| == |s.bubbles| + 1
  {
    if s.spawningActive && |s.bubbles| < s.maxBubbles then
      var r := Spawn(s, inp);
      SpawnFacts(s, inp);
      r
    else s
  }

  lemma SpawnFacts(s: GameState, inp: SpawnInput)
    ensures Spawn(s, inp) == s.(bubbles := Spawn(s, inp).bubbles)
    ensures Spawn(s, inp).bubbles == s.bubbles ||
            (|Spawn(s, inp).bubbles| == |s.bubbles| + 1 && Spawn(s, inp).bubbles[..|s.bubbles|] == s.bubbles)
    ensures |Spawn(s, inp).bubbles| > |s.bubbles| ==>
              SpawnedAsDrawn(s.bubbles, inp, Spawn(s, inp).bubbles[|s.bubbles|])
    ensures 0.0 <= inp.r < 1.0 &&
            (exists k :: 0 <= k < MaxAttempts && !Overlaps(s.bubbles, inp.draws[k], inp.now, inp.minAge))
            ==> |Spawn(s, inp).bubbles| == |s.bubbles| + 1
  {
    var t := DrawColour(inp.r);
    var slot := FreeSlot(s.bubbles, inp.draws, inp.now, inp.minAge);
    if t.Some? && slot.Some? {
      var b := Spawn(s, inp).bubbles[|s.bubbles|];
      assert b == Bubble(inp.id, slot.value, t.value.colour, false, t.value.points, inp.now);
      OverlapsIffSomeYoung(s.bubbles, slot.value, inp.now, inp.minAge);
    }
  }

  /** An executable spawn tick that runs the placement loop. */
  method SpawnStep(s: GameState, inp: SpawnInput) returns (r: GameState)
    ensures r == SpawnTick(s, inp)
  {
    if !(s.spawningActive && |s.bubbles| < s.maxBubbles) {
      return s;
    }
    var selected := DrawColour(inp.r);
    if selected.None? {
      return s;
    }
    var validPositionFound, x := Place(s.bubbles, inp.draws, inp.now, inp.minAge);
    if !validPositionFound {
      return s;
    }
    var newBubble := Bubble(inp.id, x, selected.value.colour, false, selected.value.points, inp.now);
    r := s.(bubbles := s.bubbles + [newBubble]);
  }

  // ---------------------------------------------------------------- popping

  /** What one successful pop of bubble `id` does to the state. */
  predicate PoppedOnce(s: GameState, r: GameState, id: nat, effectId: nat, ex: int, ey: int) {
    && |r.bubbles| == |s.bubbles|
    && (forall j :: 0 <= j < |s.bubbles| ==>
          r.bubbles[j] == (if s.bubbles[j].id == id then s.bubbles[j].(isPopped := true) else s.bubbles[j]))
    && (forall j :: 0 <= j < |s.bubbles| && s.bubbles[j].id == id ==>
          var p := Award(s.bubbles[j].colour, s.bubbles[j].point, s.lastColour, s.lastScore);
          && r.score == s.score + p
          && r.lastColour == Some(s.bubbles[j].colour)
          && r.lastScore == Some(p)
          && r.effects == s.effects + [PointEffect(effectId, p, ex, ey)])
    && r.(bubbles := s.bubbles, score := s.score, effects := s.effects,
          lastColour := s.lastColour, lastScore := s.lastScore) == s
  }

  /**
   `popBubble` with `calculatePoints` and `createPointEffect`: when the bubble
   is present and unpopped, mark it popped, add the award to the score,
   remember its colour and award, and queue one point effect. Otherwise
   nothing changes.
   */
  function Pop(s: GameState, id: nat, effectId: nat, ex: int, ey: int): (r: GameState)
    ensures r != s ==> Alive(s.bubbles, id)
    ensures Distinct(BubbleIds(s.bubbles)) && Alive(s.bubbles, id) ==> PoppedOnce(s, r, id, effectId, ex, ey)
    ensures Distinct(BubbleIds(s.bubbles)) ==> (r == s <==> !Alive(s.bubbles, id))
  {
    match FirstIndex(BubbleIds(s.bubbles), id)
    case None => s
    case Some(i) =>
      if s.bubbles[i].isPopped then s
      else
        var b := s.bubbles[i];
        var p := Award(b.colour, b.point, s.lastColour, s.lastScore);
        s.(bubbles := s.bubbles[i := b.(isPopped := true)], score := s.score + p,
           lastColour := Some(b.colour), lastScore := Some(p),
           effects := s.effects + [PointEffect(effectId, p, ex, ey)])
  }

  /** Popping only flips `isPopped`, so the ids stay where they were. */
  lemma PopKeepsIds(s: GameState, id: nat, effectId: nat, ex: int, ey: int)
    ensures BubbleIds(Pop(s, id, effectId, ex, ey).bubbles) == BubbleIds(s.bubbles)
  {
  }

  /**
   Popping the same id twice scores once: the second pop finds the bubble
   already popped and changes nothing, whatever effect id and tap position
   it carries.
   */
  lemma PopIdempotent(s: GameState, id: nat, e1: nat, x1: int, y1: int, e2: nat, x2: int, y2: int)
    ensures Pop(Pop(s, id, e1, x1, y1), id, e2, x2, y2) == Pop(s, id, e1, x1, y1)
  {
    var s1 := Pop(s, id, e1, x1, y1);
    PopKeepsIds(s, id, e1, x1, y1);
    match FirstIndex(BubbleIds(s.bubbles), id)
    case None =>
    case Some(i) =>
      assert s1.bubbles[i].isPopped;
  }

  // ---------------------------------------------------------------- removal

  /**
   The expiry timer of a spawned bubble: when it fires, the bubble is removed
   only if it is still there and unpopped; a popped bubble is left to its own
   delayed removal.
   */
  function Expire(s: GameState, id: nat): (r: GameState)
    ensures r == s.(bubbles := r.bubbles)
    ensures Distinct(BubbleIds(s.bubbles)) ==>
              r.bubbles == (if Alive(s.bubbles, id) then Without(s.bubbles, BubbleKey, id) else s.bubbles)
  {
    match FirstIndex(BubbleIds(s.bubbles), id)
    case None => s
    case Some(i) =>
      if s.bubbles[i].isPopped then s
      else
        RemoveFirstIsWithout(s.bubbles, BubbleKey, id);
        s.(bubbles := RemoveAt(s.bubbles, i))
  }

  /** `scheduledBubbleRemoval`: delete the bubble with this id, if it is still listed. */
  function RemoveBubble(s: GameState, id: nat): (r: GameState)
    ensures r == s.(bubbles := r.bubbles)
    ensures Distinct(BubbleIds(s.bubbles)) ==> r.bubbles == Without(s.bubbles, BubbleKey, id)
  {
    match FirstIndex(BubbleIds(s.bubbles), id)
    case None => WithoutAbsent(s.bubbles, BubbleKey, id); s
    case Some(i) =>
      RemoveFirstIsWithout(s.bubbles, BubbleKey, id);
      s.(bubbles := RemoveAt(s.bubbles, i))
  }

  /** `scheduledPointEffectRemoval`: delete the effect with this id, if it is still listed. */
  function RemoveEffect(s: GameState, id: nat): (r: GameState)
    ensures r == s.(effects := r.effects)
    ensures Distinct(EffectIds(s.effects)) ==> r.effects == Without(s.effects, EffectKey, id)
  {
    match FirstIndex(EffectIds(s.effects), id)
    case None => WithoutAbsent(s.effects, EffectKey, id); s
    case Some(i) =>
      RemoveFirstIsWithout(s.effects, EffectKey, id);
      s.(effects := RemoveAt(s.effects, i))
  }

  // ------------------------------------------------------------------- runs

  function Step(s: GameState, e: Event): GameState {
    match e
    case OnStart => Start(s)
    case OnCountdown => Tick(s)
    case OnFinish => Finish(s)
    case OnSpawnTimer(inp) => SpawnTick(s, inp)
    case OnPop(id, effectId, ex, ey) => Pop(s, id, effectId, ex, ey)
    case OnExpire(id) => Expire(s, id)
    case OnRemoveBubble(id) => RemoveBubble(s, id)
    case OnRemoveEffect(id) => RemoveEffect(s, id)
  }

  function Run(s: GameState, es: seq<Event>): GameState
    decreases |es|
  {
    if |es| == 0 then s else Run(Step(s, es[0]), es[1..])
  }

  /** The fresh UUIDs a spawn and a pop create really are fresh. */
  predicate Admissible(s: GameState, e: Event) {
    match e
    case OnSpawnTimer(inp) => inp.id !in BubbleIds(s.bubbles)
    case OnPop(_, effectId, _, _) => effectId !in EffectIds(s.effects)
    case _ => true
  }

  predicate AdmissibleRun(s: GameState, es: seq<Event>)
    decreases |es|
  {
    |es| == 0 || (Admissible(s, es[0]) && AdmissibleRun(Step(s, es[0]), es[1..]))
  }

  /** No restart happens during the run. */
  predicate OneSession(es: seq<Event>) {
    forall i :: 0 <= i < |es| ==> !es[i].OnStart?
  }
}
