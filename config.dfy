/** The fixed parameters of the lifecycle engine (the `CONFIG` object of app.js). */
module Config {
  /** Time an untouched active task survives before it drops into purgatory: 24 hours in ms. */
  const PURGATORY_MS: int := 24 * 60 * 60 * 1000
  /** Time since the last touch after which a task in purgatory dies: 48 hours in ms. */
  const DEATH_MS: int := 48 * 60 * 60 * 1000

  const POINTS_COMPLETE: int := 10
  const POINTS_DEATH: int := -5
  const POINTS_RESURRECT: int := -2

  /** Heat at or below which the angel issues its mild warning. */
  const WARN_COOL_THRESHOLD: real := 0.5
  /** Heat at or below which the angel issues its urgent warning. */
  const WARN_COLD_THRESHOLD: real := 0.25
}
