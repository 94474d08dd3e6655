/**
 Properties of whole runs of the engine: the invariant every transition
 keeps, the monotone score, the length of the countdown, the single
 game-over save per session, and what a restart forgets.
 */
module Session {
  import opened Options
  import opened Entities
  import opened Registry
  import opened Scoring
  import opened Spawning
  import opened Game

  // -------------------------------------------------------------- invariant

  lemma SpawnTickKeepsValid(s: GameState, inp: SpawnInput)
    requires Valid(s) && inp.id !in BubbleIds(s.bubbles)
    ensures Valid(SpawnTick(s, inp))
  {
    var r := SpawnTick(s, inp);
    if |r.bubbles| > |s.bubbles| {
      var b := r.bubbles[|s.bubbles|];
      assert r.bubbles == s.bubbles + [b];
      AppendFresh(s.bubbles, b, BubbleKey);
      var i :| 0 <= i < |ColourTable| && InBand(i, inp.r) &&
               b.colour == ColourTable[i].colour && b.point == ColourTable[i].points;
      assert b.point >= 1;
    }
  }

  lemma PopKeepsValid(s: GameState, id: nat, effectId: nat, ex: int, ey: int)
    requires Valid(s) && effectId !in EffectIds(s.effects)
    ensures Valid(Pop(s, id, effectId, ex, ey))
  {
    var r := Pop(s, id, effectId, ex, ey);
    PopKeepsIds(s, id, effectId, ex, ey);
    if Alive(s.bubbles, id) {
      var j :| 0 <= j < |s.bubbles| && s.bubbles[j].id == id && !s.bubbles[j].isPopped;
      var p := Award(s.bubbles[j].colour, s.bubbles[j].point, s.lastColour, s.lastScore);
      assert s.bubbles[j] in s.bubbles;
      assert p >= 1;
      AppendFresh(s.effects, PointEffect(effectId, p, ex, ey), EffectKey);
      forall b | b in r.bubbles ensures b.point >= 1 {
        var k :| 0 <= k < |r.bubbles| && r.bubbles[k] == b;
        assert s.bubbles[k] in s.bubbles;
      }
    }
  }

  lemma ExpireKeepsValid(s: GameState, id: nat)
    requires Valid(s)
    ensures Valid(Expire(s, id))
  {
    var r := Expire(s, id);
    WithoutKeys(s.bubbles, BubbleKey, id);
    assert |r.bubbles| <= |s.bubbles|;
    assert forall b :: b in r.bubbles ==> b in s.bubbles;
  }

  lemma RemoveBubbleKeepsValid(s: GameState, id: nat)
    requires Valid(s)
    ensures Valid(RemoveBubble(s, id))
  {
    var r := RemoveBubble(s, id);
    WithoutKeys(s.bubbles, BubbleKey, id);
    assert |r.bubbles| <= |s.bubbles|;
    assert forall b :: b in r.bubbles ==> b in s.bubbles;
  }

  lemma RemoveEffectKeepsValid(s: GameState, id: nat)
    requires Valid(s)
    ensures Valid(RemoveEffect(s, id))
  {
    var r := RemoveEffect(s, id);
    WithoutKeys(s.effects, EffectKey, id);
    assert forall e :: e in r.effects ==> e in s.effects;
  }

  /** Every admissible transition keeps the invariant. */
  lemma StepKeepsValid(s: GameState, e: Event)
    requires Valid(s) && Admissible(s, e)
    ensures Valid(Step(s, e))
  {
    match e
    case OnStart =>
    case OnCountdown =>
    case OnFinish =>
    case OnSpawnTimer(inp) => SpawnTickKeepsValid(s, inp);
    case OnPop(id, effectId, ex, ey) => PopKeepsValid(s, id, effectId, ex, ey);
    case OnExpire(id) => ExpireKeepsValid(s, id);
    case OnRemoveBubble(id) => RemoveBubbleKeepsValid(s, id);
    case OnRemoveEffect(id) => RemoveEffectKeepsValid(s, id);
  }

  /**
   Every state an admissible run reaches is valid; in particular the bubble
   list never grows beyond `maxBubbles`, which no transition changes.
   */
  lemma {:induction false} RunKeepsValid(s: GameState, es: seq<Event>)
    requires Valid(s) && AdmissibleRun(s, es)
    ensures Valid(Run(s, es))
    ensures Run(s, es).maxBubbles == s.maxBubbles
    ensures |Run(s, es).bubbles| <= s.maxBubbles
    decreases |es|
  {
    if |es| > 0 {
      StepKeepsValid(s, es[0]);
      RunKeepsValid(Step(s, es[0]), es[1..]);
    }
  }

  // ------------------------------------------------------------------ score

  lemma StepScoreMonotone(s: GameState, e: Event)
    requires Valid(s) && !e.OnStart?
    ensures Step(s, e).score >= s.score
  {
    match e
    case OnPop(id, effectId, ex, ey) =>
      if Alive(s.bubbles, id) {
        var j :| 0 <= j < |s.bubbles| && s.bubbles[j].id == id && !s.bubbles[j].isPopped;
        assert s.bubbles[j] in s.bubbles;
      }
    case _ =>
  }

  /** Within one session the score never decreases; only a restart sets it back to 0. */
  lemma {:induction false} ScoreNeverDecreases(s: GameState, es: seq<Event>)
    requires Valid(s) && AdmissibleRun(s, es) && OneSession(es)
    ensures Run(s, es).score >= s.score
    decreases |es|
  {
    if |es| > 0 {
      StepScoreMonotone(s, es[0]);
      StepKeepsValid(s, es[0]);
      assert OneSession(es[1..]) by {
        forall i | 0 <= i < |es| - 1 ensures !es[1..][i].OnStart? {
          assert es[1..][i] == es[i + 1];
        }
      }
      ScoreNeverDecreases(Step(s, es[0]), es[1..]);
    }
  }

  // -------------------------------------------------------------- countdown

  function Ticks(s: GameState, n: nat): GameState
    decreases n
  {
    if n == 0 then s else Ticks(Tick(s), n - 1)
  }

  /** While time is left, each countdown tick takes exactly one second off and changes nothing else. */
  lemma {:induction false} TicksDecrement(s: GameState, k: nat)
    requires s.countdownActive && k <= s.timeRemaining
    ensures Ticks(s, k) == s.(timeRemaining := s.timeRemaining - k)
    decreases k
  {
    if k > 0 {
      var s1 := Tick(s);
      assert s1 == s.(timeRemaining := s.timeRemaining - 1);
      TicksDecrement(s1, k - 1);
    }
  }

  /** A stopped countdown stays stopped: further ticks change nothing. */
  lemma {:induction false} TicksIdle(s: GameState, m: nat)
    requires !s.countdownActive
    ensures Ticks(s, m) == s
    decreases m
  {
    if m > 0 {
      TicksIdle(Tick(s), m - 1);
    }
  }

  /**
   The countdown from `startGame`: after exactly `timeRemaining` ticks the
   clock reads 0 and is still running; the next tick stops both timers and
   queues exactly one save-and-game-over block; every later tick is a no-op.
   */
  lemma CountdownLength(s: GameState, m: nat)
    requires s.timeRemaining >= 0
    ensures var g := Start(s);
            && Ticks(g, s.timeRemaining).timeRemaining == 0
            && Ticks(g, s.timeRemaining).countdownActive
            && Ticks(g, s.timeRemaining + 1) ==
                 g.(timeRemaining := 0, countdownActive := false, spawningActive := false,
                    pendingFinishes := s.pendingFinishes + 1)
            && Ticks(g, s.timeRemaining + 1 + m) == Ticks(g, s.timeRemaining + 1)
  {
    var g := Start(s);
    var t := s.timeRemaining;
    TicksDecrement(g, t);
    var z := Ticks(g, t);
    TicksAdd(g, t, 1);
    assert Ticks(z, 1) == Tick(z);
    TicksAdd(g, t + 1, m);
    TicksIdle(Ticks(g, t + 1), m);
  }

  lemma {:induction false} TicksAdd(s: GameState, a: nat, b: nat)
    ensures Ticks(s, a + b) == Ticks(Ticks(s, a), b)
    decreases a
  {
    if a > 0 {
      TicksAdd(Tick(s), a - 1, b);
    }
  }

  // ---------------------------------------------------------------- game over

  /** Saves still possible: the queued blocks plus one if the countdown is still running. */
  function SaveBudget(s: GameState): nat {
    s.pendingFinishes + (if s.countdownActive then 1 else 0)
  }

  lemma StepSaveBudget(s: GameState, e: Event)
    requires !e.OnStart?
    ensures s.scores <= Step(s, e).scores
    ensures |Step(s, e).scores| + SaveBudget(Step(s, e)) <= |s.scores| + SaveBudget(s)
  {
  }

  /**
   Within one session the score store only grows at its end, and by no more
   than the session's save budget.
   */
  lemma {:induction false} SavesWithinBudget(s: GameState, es: seq<Event>)
    requires OneSession(es)
    ensures s.scores <= Run(s, es).scores
    ensures |Run(s, es).scores| <= |s.scores| + SaveBudget(s)
    decreases |es|
  {
    if |es| > 0 {
      StepSaveBudget(s, es[0]);
      assert OneSession(es[1..]) by {
        forall i | 0 <= i < |es| - 1 ensures !es[1..][i].OnStart? {
          assert es[1..][i] == es[i + 1];
        }
      }
      SavesWithinBudget(Step(s, es[0]), es[1..]);
    }
  }

  /**
   Game over happens once: after `startGame` (with no block of an earlier
   session still queued) a session appends at most one record to the store,
   and once that save has run and the countdown has stopped, nothing before
   the next restart saves again.
   */
  lemma GameOverOnce(s: GameState, es: seq<Event>, after: GameState, more: seq<Event>)
    requires s.pendingFinishes == 0 && OneSession(es) && OneSession(more)
    requires after.pendingFinishes == 0 && !after.countdownActive
    ensures |Run(Start(s), es).scores| <= |s.scores| + 1
    ensures Run(after, more).scores == after.scores
  {
    SavesWithinBudget(Start(s), es);
    SavesWithinBudget(after, more);
  }

  /** The finishing save makes the session's score visible to `getHighScore`. */
  lemma FinishedScoreVisible(s: GameState)
    requires s.pendingFinishes > 0
    ensures HighScore(Finish(s).scores) >= s.score
    ensures Finish(s).isGameOver
  {
    var r := Finish(s);
    assert r.scores[|r.scores| - 1].score == s.score;
  }

  /**
   Once both timers are stopped nothing but a restart brings them back: the
   clock stays put and no bubble is spawned (every id left was there
   before), though pops and removals are still processed.
   */
  lemma {:induction false} NoSpawnAfterStop(s: GameState, es: seq<Event>)
    requires !s.countdownActive && !s.spawningActive && OneSession(es)
    ensures !Run(s, es).countdownActive && !Run(s, es).spawningActive
    ensures Run(s, es).timeRemaining == s.timeRemaining
    ensures |Run(s, es).bubbles| <= |s.bubbles|
    ensures forall k :: k in BubbleIds(Run(s, es).bubbles) ==> k in BubbleIds(s.bubbles)
    decreases |es|
  {
    if |es| > 0 {
      var s1 := Step(s, es[0]);
      assert !es[0].OnStart?;
      StoppedStepKeepsIds(s, es[0]);
      assert |s1.bubbles| <= |s.bubbles| by {
        match es[0]
        case OnExpire(id) =>
          if FirstIndex(BubbleIds(s.bubbles), id).Some? {}
        case _ =>
      }
      assert OneSession(es[1..]) by {
        forall i | 0 <= i < |es| - 1 ensures !es[1..][i].OnStart? {
          assert es[1..][i] == es[i + 1];
        }
      }
      NoSpawnAfterStop(s1, es[1..]);
    }
  }

  /** With spawning stopped, a step other than a restart brings in no new bubble id. */
  lemma StoppedStepKeepsIds(s: GameState, e: Event)
    requires !s.spawningActive && !e.OnStart?
    ensures forall k :: k in BubbleIds(Step(s, e).bubbles) ==> k in BubbleIds(s.bubbles)
  {
    match e
    case OnPop(id, effectId, ex, ey) =>
      PopKeepsIds(s, id, effectId, ex, ey);
    case OnExpire(id) =>
      KeysOfSubset(Step(s, e).bubbles, s.bubbles, BubbleKey);
    case OnRemoveBubble(id) =>
      KeysOfSubset(Step(s, e).bubbles, s.bubbles, BubbleKey);
    case _ =>
  }

  // ------------------------------------------------------------------ chains

  /** Pops of distinct bubbles that are all alive and all of colour `c` in `s`. */
  predicate SameColourPops(s: GameState, es: seq<Event>, c: Colour) {
    && (forall i :: 0 <= i < |es| ==> es[i].OnPop? && Alive(s.bubbles, es[i].id))
    && (forall i, j :: 0 <= i < |s.bubbles| && 0 <= j < |es| && es[j].OnPop? && s.bubbles[i].id == es[j].id ==>
          s.bubbles[i].colour == c)
    && (forall i, j :: 0 <= i < j < |es| && es[i].OnPop? && es[j].OnPop? ==> es[i].id != es[j].id)
  }

  lemma {:induction false} ChainAwardShift(v: int, k: nat)
    ensures ChainAward(ChainPoints(v), k) == ChainAward(v, k + 1)
    decreases k
  {
    if k > 0 {
      ChainAwardShift(v, k - 1);
    }
  }

  /**
   Chain scoring over a run: continuing a chain whose last award was `v`
   with `k` pops of the same colour leaves the remembered award at the
   `k`-th successively truncated step of the chain, and the score rises by at
   least `k` times `v`.
   */
  lemma SameColourChain(s: GameState, es: seq<Event>, c: Colour, v: int)
    requires Distinct(BubbleIds(s.bubbles))
    requires s.lastColour == Some(c) && s.lastScore == Some(v) && v >= 0
    requires SameColourPops(s, es, c)
    ensures Run(s, es).lastScore == Some(ChainAward(v, |es|))
    ensures Run(s, es).lastColour == Some(c)
    ensures Run(s, es).score >= s.score + |es| * v
  {
    RunIsPopRun(s, es);
    PopChain(s, es, c, v);
  }

  /** A run made only of pops, with each pop applied directly. */
  function PopRun(s: GameState, es: seq<Event>): GameState
    requires forall i :: 0 <= i < |es| ==> es[i].OnPop?
    decreases |es|
  {
    if |es| == 0 then s
    else
      var e := es[0];
      assert forall i :: 0 <= i < |es| - 1 ==> es[1..][i] == es[i + 1];
      PopRun(Pop(s, e.id, e.effectId, e.ex, e.ey), es[1..])
  }

  lemma {:induction false} RunIsPopRun(s: GameState, es: seq<Event>)
    requires forall i :: 0 <= i < |es| ==> es[i].OnPop?
    ensures Run(s, es) == PopRun(s, es)
    decreases |es|
  {
    if |es| > 0 {
      var e := es[0];
      assert forall i :: 0 <= i < |es| - 1 ==> es[1..][i] == es[i + 1];
      RunIsPopRun(Pop(s, e.id, e.effectId, e.ex, e.ey), es[1..]);
    }
  }

  /** The chain induction, over the pops applied directly. */
  lemma {:induction false} PopChain(s: GameState, es: seq<Event>, c: Colour, v: int)
    requires Distinct(BubbleIds(s.bubbles))
    requires s.lastColour == Some(c) && s.lastScore == Some(v) && v >= 0
    requires SameColourPops(s, es, c)
    ensures PopRun(s, es).lastScore == Some(ChainAward(v, |es|))
    ensures PopRun(s, es).lastColour == Some(c)
    ensures PopRun(s, es).score >= s.score + |es| * v
    decreases |es|
  {
    if |es| > 0 {
      var p := ChainPoints(v);
      var s1 := ChainStep(s, es, c, v);
      PopChain(s1, es[1..], c, p);
      AwardStep(v, |es[1..]|, |es|, PopRun(s1, es[1..]).lastScore);
      ScoreBound(|es|, |es[1..]|, v, p, s.score, s1.score, PopRun(s1, es[1..]).score);
    }
  }

  /*
   The next two lemmas are arithmetic steps of the `PopChain` induction. Their
   parameters are the very terms of the recursive call's postcondition, so
   that the prover closes each step by matching instead of searching through
   the unfolded run.
   */

  /** The award step of the chain induction: `m` steps from the next award are `m + 1` steps from `v`. */
  lemma AwardStep(v: int, m: nat, k: nat, got: Option<int>)
    requires k == m + 1 && got == Some(ChainAward(ChainPoints(v), m))
    ensures got == Some(ChainAward(v, k))
  {
    ChainAwardShift(v, m);
  }

  /** The score step of the chain induction: one pop worth `p >= v`, then `m` more worth at least `p` each. */
  lemma ScoreBound(k: nat, m: nat, v: int, p: int, before: int, mid: int, after: int)
    requires k == m + 1 && v <= p
    requires mid == before + p && after >= mid + m * p
    ensures after >= before + k * v
  {
    assert m * v <= m * p;
  }

  /** One pop of a same-colour run continues the chain and leaves the rest of the run a same-colour run. */
  lemma ChainStep(s: GameState, es: seq<Event>, c: Colour, v: int) returns (s1: GameState)
    requires Distinct(BubbleIds(s.bubbles))
    requires s.lastColour == Some(c) && s.lastScore == Some(v) && v >= 0
    requires SameColourPops(s, es, c) && |es| > 0
    ensures PopRun(s, es) == PopRun(s1, es[1..])
    ensures && s1.lastScore == Some(ChainPoints(v)) && s1.lastColour == Some(c)
            && s1.score == s.score + ChainPoints(v)
            && ChainPoints(v) >= v
            && Distinct(BubbleIds(s1.bubbles))
            && SameColourPops(s1, es[1..], c)
  {
    var e := es[0];
    s1 := Pop(s, e.id, e.effectId, e.ex, e.ey);
    assert forall i :: 0 <= i < |es| - 1 ==> es[1..][i] == es[i + 1];
    var j :| 0 <= j < |s.bubbles| && s.bubbles[j].id == e.id && !s.bubbles[j].isPopped;
    ChainPointsExact(v);
    assert PoppedOnce(s, s1, e.id, e.effectId, e.ex, e.ey);
    PopKeepsIds(s, e.id, e.effectId, e.ex, e.ey);
    ChainTail(s, s1, es, c);
  }

  lemma ChainTail(s: GameState, s1: GameState, es: seq<Event>, c: Colour)
    requires SameColourPops(s, es, c) && |es| > 0
    requires |s1.bubbles| == |s.bubbles|
    requires forall j :: 0 <= j < |s.bubbles| ==>
               s1.bubbles[j] == (if s.bubbles[j].id == es[0].id then s.bubbles[j].(isPopped := true) else s.bubbles[j])
    ensures SameColourPops(s1, es[1..], c)
  {
    var rest := es[1..];
    forall i | 0 <= i < |rest| ensures rest[i].OnPop? && Alive(s1.bubbles, rest[i].id) {
      assert rest[i] == es[i + 1];
      var k :| 0 <= k < |s.bubbles| && s.bubbles[k].id == rest[i].id && !s.bubbles[k].isPopped;
      assert s1.bubbles[k] == s.bubbles[k];
    }
    forall i, jj | 0 <= i < |s1.bubbles| && 0 <= jj < |rest| && rest[jj].OnPop? && s1.bubbles[i].id == rest[jj].id
      ensures s1.bubbles[i].colour == c
    {
      assert rest[jj] == es[jj + 1];
      assert s1.bubbles[i].colour == s.bubbles[i].colour;
    }
    forall i, jj | 0 <= i < jj < |rest| && rest[i].OnPop? && rest[jj].OnPop? ensures rest[i].id != rest[jj].id {
      assert rest[i] == es[i + 1] && rest[jj] == es[jj + 1];
    }
  }

  // ---------------------------------------------------------------- restart

  /**
   A restart forgets the previous session entirely: the state after
   `startGame` depends only on the settings, the player name, the store and
   any still-queued save block, never on the previous session's score,
   bubbles, effects or chain.
   */
  lemma RestartForgetsSession(s1: GameState, s2: GameState)
    requires s1.timeRemaining == s2.timeRemaining && s1.maxBubbles == s2.maxBubbles
    requires s1.playerName == s2.playerName && s1.scores == s2.scores
    requires s1.pendingFinishes == s2.pendingFinishes
    ensures Start(s1) == Start(s2)
    ensures Start(s1).initialTimeLimit == s1.timeRemaining
  {
  }

  /**
   Two starts in a row give the same state as one start, and so the same
   next tick.
   */
  lemma RestartIdempotent(s: GameState)
    ensures Start(Start(s)) == Start(s)
    ensures Tick(Start(Start(s))) == Tick(Start(s))
  {
  }

  /**
   The time limit is taken from the clock: restarting after a countdown
   that ran out (clock at 0, settings untouched) gives a session whose very
   first tick ends it.
   */
  lemma RestartAfterTimeUp(s: GameState)
    requires s.timeRemaining == 0
    ensures Start(s).initialTimeLimit == 0
    ensures !Tick(Start(s)).countdownActive
    ensures Tick(Start(s)).pendingFinishes == s.pendingFinishes + 1
  {
  }
}
