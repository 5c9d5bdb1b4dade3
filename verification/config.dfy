/** The game constants of resources/js/pages/games/config.ts that the engine reads. */
module GameConfig {

  datatype Config = Config(rows: int, cols: int, appleRate: int, resumeGracePeriod: int)

  /** `config.rows`, `config.cols`, `config.appleRate`, `config.resumeGracePeriod`. */
  const Default := Config(20, 30, 10, 3)

  /**
   * The configurations the engine is meant for: the spawn ranges of
   * `chooseStartPos` are non-empty and the counters are non-negative.
   */
  predicate Valid(c: Config) {
    c.rows >= 3 && c.cols >= 4 && c.appleRate >= 0 && c.resumeGracePeriod >= 0
  }
}
