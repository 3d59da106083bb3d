/** The planner's tuning constants, fixed when the agent is built. */
module Config {

  datatype Params = Params(
    gamma: real,            // discount factor
    iterations: nat,        // cap on value-iteration sweeps
    eps: real,              // convergence threshold
    pelletReward: real,
    capsuleReward: real,
    ghostReward: real,      // base of the hazard reward
    stopReward: real,       // value of standing still
    ghostStepBound: nat,    // rounds of hazard expansion
    ghostTimerBound: nat,   // ghosts edible for at least this long are ignored
    directionProb: real     // probability that the intended move happens
  )

  /** The agent's settings; the rewards are derived from the discount as the agent does. */
  function SourceParams(directionProb: real): (ps: Params)
    ensures ps.gamma == 0.25 && ps.iterations == 200
    ensures ps.pelletReward == 2.0 && ps.capsuleReward == 8.0 && ps.ghostReward == -256.0
    ensures ps.stopReward == -10000000000000000.0 && ps.eps == 0.00000000000000000001
    ensures ps.ghostStepBound == 1 && ps.ghostTimerBound == 3
    ensures ps.directionProb == directionProb
  {
    var gamma := 0.25;
    Params(
      gamma := gamma,
      iterations := 200,
      eps := 0.00000000000000000001,
      pelletReward := 0.5 / gamma,
      capsuleReward := 0.5 / (gamma * gamma),
      ghostReward := -1.0 / (gamma * gamma * gamma * gamma),
      stopReward := -10000000000000000.0,
      ghostStepBound := 1,
      ghostTimerBound := 3,
      directionProb := directionProb)
  }
}
