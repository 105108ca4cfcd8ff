/** The keyword arguments of `parse_db`, plus the case mapping behind
    `line == line.upper()`, which the model takes as a parameter because
    Unicode upper-casing is outside it. */
module Settings {

  datatype Config = Config(
    thresholdDistance: int,         // horizontal gap above which a `|` column separator is inserted
    headerHeight: int,              // leading lines of the first page that are dropped
    titleHeight: int,               // truncated word height that marks a sport-name title
    compositionNames: seq<string>,  // roster labels that switch the current composition
    upper: string -> string)        // `str.upper`

  const MainRoster: string := "Основной состав"
  const ReserveRoster: string := "Молодежный (резервный) состав"

  /** The defaults of `parse_db`'s signature. */
  function DefaultConfig(upper: string -> string): Config {
    Config(20, 7, 12, [MainRoster, ReserveRoster], upper)
  }
}
