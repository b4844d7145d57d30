/** The heat of a task: a decay signal derived from the time since its last
    touch (app.js `getHeatLevel`), and the label and emoji buckets shown for it
    (`getHeatLabel`, `getHeatEmoji`). */
module Heat {
  import opened Config

  /** Heat above which a task is shown as hot. */
  const HOT_THRESHOLD: real := 0.75

  /** The elapsed times at which heat crosses 0.75 and 0.25 (12 and 36 hours). */
  const HOT_ELAPSED_MS: int := 12 * 60 * 60 * 1000
  const COLD_ELAPSED_MS: int := 36 * 60 * 60 * 1000

  function Min(x: real, y: real): (m: real) { if x <= y then x else y }
  function Max(x: real, y: real): (m: real) { if x >= y then x else y }

  /** `max(0, min(1, 1 - elapsed / DEATH_MS))`: 1 for a task just touched (or
      stamped in the future), falling linearly to 0 at the death window. */
  function HeatLevel(elapsed: int): (h: real)
    ensures 0.0 <= h <= 1.0
    ensures elapsed <= 0 ==> h == 1.0
    ensures elapsed >= DEATH_MS ==> h == 0.0
    ensures 0 <= elapsed <= DEATH_MS ==> h * DEATH_MS as real == (DEATH_MS - elapsed) as real
  {
    Max(0.0, Min(1.0, 1.0 - elapsed as real / DEATH_MS as real))
  }

  /** Heat never rises while a task is left alone. */
  lemma HeatNonIncreasing(e1: int, e2: int)
    requires e1 <= e2
    ensures HeatLevel(e2) <= HeatLevel(e1)
  {
    if 0 <= e1 && e2 <= DEATH_MS {
      assert HeatLevel(e2) * DEATH_MS as real <= HeatLevel(e1) * DEATH_MS as real;
    }
  }

  /** Each heat threshold the engine compares against is a fixed elapsed time:
      0.75 is 12 hours, 0.5 (the cool warning) is 24 hours and 0.25 (the cold
      warning) is 36 hours after the last touch. */
  lemma HeatThresholds(elapsed: int)
    ensures HeatLevel(elapsed) > HOT_THRESHOLD <==> elapsed < HOT_ELAPSED_MS
    ensures HeatLevel(elapsed) <= WARN_COOL_THRESHOLD <==> elapsed >= PURGATORY_MS
    ensures HeatLevel(elapsed) <= WARN_COLD_THRESHOLD <==> elapsed >= COLD_ELAPSED_MS
  {
    var h := HeatLevel(elapsed);
    if 0 <= elapsed <= DEATH_MS {
      assert h * DEATH_MS as real == (DEATH_MS - elapsed) as real;
    }
  }

  function HeatLabel(heat: real): (name: string)
    ensures name in {"Hot", "Warm", "Cold", "Freezing"}
  {
    if heat > HOT_THRESHOLD then "Hot"
    else if heat > WARN_COOL_THRESHOLD then "Warm"
    else if heat > WARN_COLD_THRESHOLD then "Cold"
    else "Freezing"
  }

  function HeatEmoji(heat: real): (emoji: string)
    ensures emoji in {"\U{1F525}", "\U{1F321}\U{FE0F}", "\U{1F976}", "\U{1F480}"}
  {
    if heat > HOT_THRESHOLD then "\U{1F525}"
    else if heat > WARN_COOL_THRESHOLD then "\U{1F321}\U{FE0F}"
    else if heat > WARN_COLD_THRESHOLD then "\U{1F976}"
    else "\U{1F480}"
  }

  /** What a task shows, by the time since its last touch: hot for the first
      12 hours, warm until 24, cold until 36 and freezing from then on. The
      label and the emoji always pick the same band. */
  lemma HeatBandsByElapsed(elapsed: int)
    ensures HeatLabel(HeatLevel(elapsed)) ==
      if elapsed < HOT_ELAPSED_MS then "Hot"
      else if elapsed < PURGATORY_MS then "Warm"
      else if elapsed < COLD_ELAPSED_MS then "Cold"
      else "Freezing"
    ensures HeatEmoji(HeatLevel(elapsed)) ==
      if elapsed < HOT_ELAPSED_MS then "\U{1F525}"
      else if elapsed < PURGATORY_MS then "\U{1F321}\U{FE0F}"
      else if elapsed < COLD_ELAPSED_MS then "\U{1F976}"
      else "\U{1F480}"
  {
    HeatThresholds(elapsed);
  }
}
