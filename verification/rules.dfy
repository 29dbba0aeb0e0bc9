/** Constants of the game's rules shared by the agent and the simulator. */
module Rules {
  /** Sun a harvest (COMPLETE) costs; the agent's harvest strategy declines below it. */
  const ChopCost := 4
}
