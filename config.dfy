// The three difficulty presets of the game (the `config` object).
module Config {
  datatype Difficulty = Easy | Medium | Hard

  /** Board dimensions and mine count of one preset. */
  datatype Preset = Preset(rows: nat, cols: nat, mines: nat)

  /** `config[difficulty]`: every preset leaves at least one mine-free cell,
    * which is what lets mine placement finish after the first click. */
  function Settings(d: Difficulty): (p: Preset)
    ensures 0 < p.rows && 0 < p.cols
    ensures 0 < p.mines < p.rows * p.cols
  {
    match d
    case Easy => Preset(9, 9, 10)
    case Medium => Preset(16, 16, 40)
    case Hard => Preset(16, 30, 99)
  }
}
