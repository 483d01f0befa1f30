/**
 * NeatPacmanBehavior: the training behaviour. Besides the shared inputs
 * and decision it keeps a stall guard across calls and reports a fitness
 * score to its NEAT client on every tick it decides.
 */
module Neat {
  import opened Wrappers
  import opened Directions
  import opened World
  import opened Searching
  import opened Sensing

  /** The NEAT client: its network, and the fitness last passed to setScore. */
  class Client {
    const calculate: seq<real> -> seq<real>
    var score: int

    constructor (calculate: seq<real> -> seq<real>)
      ensures this.calculate == calculate && score == 0
    {
      this.calculate := calculate;
      score := 0;
    }
  }

  /** Ticks without a score increase that the stall guard tolerates: 60 * 10. */
  const StallLimit := 600

  /**
   * One call of the stall guard: (lastScore, numberUpdatesSinceLastScore,
   * stalled) after it. A strict score increase is remembered and restarts
   * the count; the count is compared before it is incremented.
   */
  function StallStep(lastScore: int, count: int, newScore: int): (r: (int, int, bool))
    ensures r.0 >= lastScore && (r.0 != lastScore <==> newScore > lastScore)
    ensures newScore > lastScore ==> r.0 == newScore && r.1 == 1 && !r.2
    ensures r.2 <==> newScore <= lastScore && count > StallLimit
  {
    var (last, n) := if newScore > lastScore then (newScore, 0) else (lastScore, count);
    (last, n + 1, n > 60 * 10)
  }

  /** The guard's state after a run of calls that see the level scores `scores`. */
  function StallRun(lastScore: int, count: int, scores: seq<int>): (int, int)
    decreases |scores|
  {
    if scores == [] then (lastScore, count)
    else
      var r := StallStep(lastScore, count, scores[0]);
      StallRun(r.0, r.1, scores[1..])
  }

  /**
   * While the score does not rise, every call counts one more tick, and the
   * call that finds `count + i` ticks behind it stops the agent exactly
   * when that number exceeds the limit.
   */
  lemma {:induction false} IdleCallsCount(lastScore: int, count: int, scores: seq<int>)
    requires forall i :: 0 <= i < |scores| ==> scores[i] <= lastScore
    ensures StallRun(lastScore, count, scores) == (lastScore, count + |scores|)
    ensures forall i :: 0 <= i < |scores| ==>
              var before := StallRun(lastScore, count, scores[..i]);
              before == (lastScore, count + i) &&
              (StallStep(before.0, before.1, scores[i]).2 <==> count + i > StallLimit)
    decreases |scores|
  {
    if scores != [] {
      IdleCallsCount(lastScore, count + 1, scores[1..]);
      forall i | 0 < i < |scores|
        ensures StallRun(lastScore, count, scores[..i]) == StallRun(lastScore, count + 1, scores[1..][..i - 1])
      {
        assert scores[..i][0] == scores[0] && scores[..i][1..] == scores[1..][..i - 1];
      }
      assert scores[..0] == [];
    }
  }

  /**
   * After a call that raised the score, the agent survives 600 calls
   * without a further rise and is stopped on the 601st.
   */
  lemma StallAfterRise(lastScore: int, count: int, rise: int, scores: seq<int>)
    requires rise > lastScore && |scores| == StallLimit + 1
    requires forall i :: 0 <= i < |scores| ==> scores[i] <= rise
    ensures var after := StallStep(lastScore, count, rise);
            forall i :: 0 <= i < |scores| ==>
              var before := StallRun(after.0, after.1, scores[..i]);
              StallStep(before.0, before.1, scores[i]).2 <==> i == StallLimit
  {
    IdleCallsCount(rise, 1, scores);
  }

  /**
   * The integer part of the fitness: the level score and the modifier, 50
   * per pellet, 100 per power pellet, 200 per ghost eaten, 500 for
   * reaching the next level and -100 for dying.
   */
  function BaseScore(levelScore: int, scoreModifier: int, pellets: int, powerPellets: int, ghosts: int,
                     advanced: bool, alive: bool): int
  {
    levelScore + scoreModifier + 50 * pellets + 100 * powerPellets + 200 * ghosts
    + (if advanced then 500 else 0) - (if alive then 0 else 100)
  }

  /** Java's cast of a double to int: truncation toward zero. */
  function Truncate(x: real): (r: int)
    ensures x >= 0.0 ==> r as real <= x < r as real + 1.0
    ensures x < 0.0 ==> r as real - 1.0 < x <= r as real
  {
    if x >= 0.0 then x.Floor else -((-x).Floor)
  }

  /**
   * The time terms, two compound assignments to the int score: past 1000
   * ticks a penalty of 0.1 per further tick, then a reward of 0.5 per tick
   * alive, each truncated toward zero. Together the two truncations lose
   * less than two points against exact arithmetic.
   */
  function TimeTerms(score: int, ticks: int): (r: int)
    ensures var exact := score as real - (if ticks > 1000 then (ticks - 1000) as real * 0.1 else 0.0) + ticks as real * 0.5;
            exact - 2.0 < r as real < exact + 2.0
  {
    var penalised := if ticks > 1000 then Truncate(score as real - (ticks - 1000) as real * 0.1) else score;
    Truncate(penalised as real + ticks as real * 0.5)
  }

  /**
   * Up to 1000 ticks only the reward applies: half a point per tick,
   * truncated toward zero, so a half point is dropped when the sum is not
   * negative and rounded up towards zero when it is.
   */
  lemma EarlyTicksReward(score: int, ticks: int)
    requires 0 <= ticks <= 1000
    ensures 2 * score + ticks >= 0 ==> TimeTerms(score, ticks) == score + ticks / 2
    ensures 2 * score + ticks < 0 ==> TimeTerms(score, ticks) == score + (ticks + 1) / 2
  {
    var x := score as real + ticks as real * 0.5;
    assert x == (score + ticks / 2) as real + (ticks % 2) as real * 0.5;
  }

  class NeatPacmanBehavior {
    const client: Client
    var pacman: PacmanEntity?
    var searcher: Searcher?
    /** Never changed after construction. */
    const scoreModifier: int
    var numberUpdatesSinceLastScore: int
    var lastScore: int

    /** The searcher exists exactly when Pac-Man is known, and searches Pac-Man's maze. */
    ghost predicate Valid()
      reads this
    {
      (pacman == null <==> searcher == null) && (pacman != null ==> searcher.maze == pacman.maze)
    }

    constructor (client: Client)
      ensures Valid() && this.client == client && pacman == null
      ensures scoreModifier == 0 && numberUpdatesSinceLastScore == 0 && lastScore == 0
    {
      this.client := client;
      pacman := null;
      searcher := null;
      scoreModifier := 0;
      numberUpdatesSinceLastScore := 0;
      lastScore := 0;
    }

    /** The Pac-Man this call acts on: the one remembered from the first call. */
    ghost function Agent(entity: PacmanEntity): PacmanEntity
      reads this
    {
      if pacman == null then entity else pacman
    }

    /** The lazy initialisation: the first call remembers the entity and makes a searcher for its maze. */
    method Remember(entity: PacmanEntity)
      requires Valid()
      modifies this`pacman, this`searcher
      ensures Valid() && pacman == old(Agent(entity))
      ensures old(pacman) != null ==> searcher == old(searcher)
      ensures old(pacman) == null ==> fresh(searcher)
    {
      if pacman == null {
        pacman := entity;
        searcher := new Searcher(entity.maze);
      }
    }

    /** The stall guard's bookkeeping for one call that sees the level score `newScore`. */
    method CountTick(newScore: int) returns (stalled: bool)
      modifies this`lastScore, this`numberUpdatesSinceLastScore
      ensures (lastScore, numberUpdatesSinceLastScore, stalled) ==
              StallStep(old(lastScore), old(numberUpdatesSinceLastScore), newScore)
    {
      if newScore > lastScore {
        lastScore := newScore;
        numberUpdatesSinceLastScore := 0;
      }
      var count := numberUpdatesSinceLastScore;
      numberUpdatesSinceLastScore := numberUpdatesSinceLastScore + 1;
      stalled := count > 60 * 10;
    }

    /** The fitness, added up step by step as the source does. */
    method Fitness(p: PacmanEntity) returns (score: int)
      ensures score == TimeTerms(BaseScore(p.maze.score, scoreModifier, p.pelletsEaten, p.powerPelletsEaten,
                                           p.ghostsEaten, p.advancedToNextLevel, p.alive),
                                 p.ticksAlive)
    {
      score := p.maze.score + scoreModifier;
      score := score + p.pelletsEaten * 50;
      score := score + p.powerPelletsEaten * 100;
      score := score + p.ghostsEaten * 200;
      if p.advancedToNextLevel {
        score := score + 500;
      }
      if !p.alive {
        score := score - 100;
      }
      if p.ticksAlive > 1000 {
        score := Truncate(score as real - (p.ticksAlive - 1000) as real * 0.1);
      }
      score := Truncate(score as real + p.ticksAlive as real * 0.5);
    }

    /**
     * getDirection. The stall guard counts the tick; a stalled agent is
     * killed and told UP with no score reported. Otherwise the network
     * chooses among the 24 inputs and, unless the choice fails, the fitness
     * is reported.
     */
    method GetDirection(entity: PacmanEntity)
      returns (r: Result<Direction, string>, ghost stalled: bool, ghost inputs: seq<real>)
      requires Valid() && Agent(entity).maze.Valid()
      requires InGrid(Agent(entity).maze.tiles, Agent(entity).position)
      modifies this, client, Agent(entity)
      ensures Valid() && pacman == old(Agent(entity))
      ensures old(pacman) != null ==> searcher == old(searcher)
      ensures old(pacman) == null ==> fresh(searcher)
      ensures (lastScore, numberUpdatesSinceLastScore, stalled) ==
              StallStep(old(lastScore), old(numberUpdatesSinceLastScore), pacman.maze.score)
      ensures stalled ==> r == Success(UP) && !pacman.alive && client.score == old(client.score)
      ensures stalled ==> pacman.position == old(Agent(entity).position) && pacman.direction == old(Agent(entity).direction)
      ensures stalled ==> pacman.movable == old(Agent(entity).movable) &&
                          pacman.pelletsEaten == old(Agent(entity).pelletsEaten) &&
                          pacman.powerPelletsEaten == old(Agent(entity).powerPelletsEaten) &&
                          pacman.ghostsEaten == old(Agent(entity).ghostsEaten) &&
                          pacman.advancedToNextLevel == old(Agent(entity).advancedToNextLevel) &&
                          pacman.ticksAlive == old(Agent(entity).ticksAlive)
      ensures !stalled ==> unchanged(pacman) && Sensed(ViewOf(pacman), inputs) &&
                           r == Choose(pacman.direction, client.calculate(inputs))
      ensures !stalled && r.Success? ==>
                client.score == TimeTerms(BaseScore(pacman.maze.score, scoreModifier, pacman.pelletsEaten,
                                                    pacman.powerPelletsEaten, pacman.ghostsEaten,
                                                    pacman.advancedToNextLevel, pacman.alive),
                                          pacman.ticksAlive)
      ensures !stalled && r.Failure? ==> client.score == old(client.score)
    {
      Remember(entity);
      var p := pacman;
      var stall := CountTick(p.maze.score);
      stalled := stall;
      if stall {
        inputs := [];
        p.Kill();
        return Success(UP), stalled, inputs;
      }
      r, inputs := Respond(searcher, p);
    }

    /** The ticks that are not stalled: steer, then report the fitness unless the choice failed. */
    method Respond(searcher: Searcher, p: PacmanEntity)
      returns (r: Result<Direction, string>, ghost inputs: seq<real>)
      requires searcher.maze == p.maze && p.maze.Valid() && InGrid(p.maze.tiles, p.position)
      modifies client
      ensures Sensed(ViewOf(p), inputs) && r == Choose(p.direction, client.calculate(inputs))
      ensures r.Success? ==>
                client.score == TimeTerms(BaseScore(p.maze.score, scoreModifier, p.pelletsEaten, p.powerPelletsEaten,
                                                    p.ghostsEaten, p.advancedToNextLevel, p.alive),
                                          p.ticksAlive)
      ensures r.Failure? ==> client.score == old(client.score)
    {
      r, inputs := Steer(searcher, p, client.calculate);
      if r.Success? {
        var score := Fitness(p);
        client.score := score;
      }
    }
  }
}
