/** Stage 2 of `parse_db`: the state machine that runs over every
    reconstructed line, in document order.

- Footer lines are skipped.
- A sport-name header sets the current sport name; a roster label sets the
  current composition.
- Once neither is "default" any more, data lines are appended to one
  accumulating string.
- A line that starts with a 16-digit EKP number closes the current block with
  a `" | name | composition"` marker and a block separator, and opens a new
  block.
 */
module Classify {
  import opened Results
  import opened Strings
  import opened Settings

  /** The initial value of both `sport_name` and `sport_composition`. */
  const Default: string := "default"

  /** Page-number footer marker. */
  const FooterMark: string := "Стр."

  /** Digits of an EKP registration number. */
  const EkpLength: nat := 16

  /** The variables the loop threads through the lines and pages. */
  datatype ParserState = ParserState(
    sportName: string,
    sportComposition: string,
    sportNames: seq<string>,   // titles collected by the title scan, in order
    out: string)               // `final_string`

  const Initial: ParserState := ParserState(Default, Default, [], "")

  /** Both the sport name and the composition have been set. */
  predicate Active(st: ParserState) {
    st.sportComposition != Default && st.sportName != Default
  }

  predicate IsFooter(raw: string) {
    Contains(raw, FooterMark)
  }

  /** `line == line.upper() and "|" not in line and line.strip() in sport_names`. */
  predicate IsSportHeader(cfg: Config, names: seq<string>, line: string) {
    line == cfg.upper(line) && '|' !in line && Strip(line) in names
  }

  predicate IsComposition(cfg: Config, line: string) {
    line in cfg.compositionNames
  }

  /** `re.match(r'(\d{16})', line)` succeeds. */
  predicate StartsWithEkp(line: string) {
    |line| >= EkpLength && forall k :: 0 <= k < EkpLength ==> IsDigit(line[k])
  }

  /** The line reaches the data branch (lines 71-80 of the parser). */
  predicate IsData(cfg: Config, st: ParserState, raw: string) {
    && !IsFooter(raw)
    && !IsSportHeader(cfg, st.sportNames, Strip(raw))
    && !IsComposition(cfg, Strip(raw))
    && Active(st)
  }

  /** Closes the current block with its sport name and composition. */
  function CloseBlock(name: string, composition: string): string {
    " | " + name + " | " + composition + "\n\n\n"
  }

  /** Opens a block with the EKP number and the rest of its line. */
  function OpenBlock(number: string, rest: string): string {
    " | " + number + " | " + rest + "\n"
  }

  function DataRow(line: string): string {
    " | " + line + "\n"
  }

  /** Appended after the page's second-to-last line (it has no newline). */
  function PageEndMarker(name: string, composition: string): string {
    " " + name + " | " + composition + " "
  }

  /** One iteration of `for line in processed_lines`; `page` is the whole
      `processed_lines` list, consulted for its second-to-last entry. */
  function ClassifyLine(cfg: Config, page: seq<string>, raw: string, st: ParserState): (r: Result<ParserState>)
    // titles are never touched here, and output is only ever appended to
    ensures r.Ok? ==> r.value.sportNames == st.sportNames && st.out <= r.value.out
    // nothing is emitted while either value is still the default
    ensures !Active(st) ==> r.Ok? && r.value.out == st.out
    // the only escaping error: `processed_lines[-2]` on a one-line page
    ensures r.Err? <==> IsData(cfg, st, raw) && !StartsWithEkp(Strip(raw)) && |page| < 2
    ensures r.Err? ==> r.fault == NoSecondToLastLine
  {
    if IsFooter(raw) then Ok(st)
    else
      var line := Strip(raw);
      if IsSportHeader(cfg, st.sportNames, line) then Ok(st.(sportName := line))
      else if IsComposition(cfg, line) then Ok(st.(sportComposition := line))
      else if Active(st) then
        if StartsWithEkp(line) then
          var number := line[..EkpLength];
          Ok(st.(out := st.out + CloseBlock(st.sportName, st.sportComposition)
                        + OpenBlock(number, Strip(line[|number|..]))))
        else
          var out := st.out + DataRow(line);
          if |page| < 2 then Err(NoSecondToLastLine)
          else if line == page[|page| - 2] then
            Ok(st.(out := out + PageEndMarker(st.sportName, st.sportComposition)))
          else Ok(st.(out := out))
      else Ok(st)
  }

  /** Footers, sport-name headers and roster labels are never emitted: a
      footer leaves the state as it is, a header only switches the sport
      name, a roster label only switches the composition. */
  lemma {:induction false} ControlLinesNotEmitted(cfg: Config, page: seq<string>, raw: string, st: ParserState)
    ensures IsFooter(raw) ==> ClassifyLine(cfg, page, raw, st) == Ok(st)
    ensures !IsFooter(raw) && IsSportHeader(cfg, st.sportNames, Strip(raw))
      ==> ClassifyLine(cfg, page, raw, st) == Ok(st.(sportName := Strip(raw)))
    ensures !IsFooter(raw) && !IsSportHeader(cfg, st.sportNames, Strip(raw)) && IsComposition(cfg, Strip(raw))
      ==> ClassifyLine(cfg, page, raw, st) == Ok(st.(sportComposition := Strip(raw)))
  {
  }

  /** While inactive, a line that switches neither value changes nothing at all. */
  lemma {:induction false} InactiveLineKeepsState(cfg: Config, page: seq<string>, raw: string, st: ParserState)
    requires !Active(st)
    requires !IsSportHeader(cfg, st.sportNames, Strip(raw)) && !IsComposition(cfg, Strip(raw))
    ensures ClassifyLine(cfg, page, raw, st) == Ok(st)
  {
  }

  /** An EKP line closes the current block with its sport name and
      composition and opens one keyed by the line's first 16 characters. */
  lemma {:induction false} EkpLineOpensBlock(cfg: Config, page: seq<string>, raw: string, st: ParserState)
    requires IsData(cfg, st, raw) && StartsWithEkp(Strip(raw))
    ensures var line := Strip(raw);
      ClassifyLine(cfg, page, raw, st)
        == Ok(st.(out := st.out + CloseBlock(st.sportName, st.sportComposition)
                       + OpenBlock(line[..EkpLength], Strip(line[EkpLength..]))))
  {
  }

  /** Any other data line is appended as a row of the open block (followed by
      the page-end marker when it equals the page's second-to-last line);
      nothing but the output changes. */
  lemma {:induction false} DataLineAppended(cfg: Config, page: seq<string>, raw: string, st: ParserState)
    requires IsData(cfg, st, raw) && !StartsWithEkp(Strip(raw)) && |page| >= 2
    ensures var r := ClassifyLine(cfg, page, raw, st);
      && r.Ok?
      && r.value.(out := st.out) == st
      && r.value.out == st.out + DataRow(Strip(raw))
           + (if Strip(raw) == page[|page| - 2] then PageEndMarker(st.sportName, st.sportComposition) else "")
  {
  }

  /** The classification loop over one page's lines from index `k`. */
  function ClassifyPage(cfg: Config, page: seq<string>, k: nat, st: ParserState): (r: Result<ParserState>)
    requires k <= |page|
    ensures r.Ok? ==> r.value.sportNames == st.sportNames && st.out <= r.value.out
    // only a single-line page can raise
    ensures r.Err? ==> r.fault == NoSecondToLastLine && |page| == 1
    decreases |page| - k
  {
    if k == |page| then Ok(st)
    else
      var next :- ClassifyLine(cfg, page, page[k], st);
      ClassifyPage(cfg, page, k + 1, next)
  }

  /** Lines that neither name a sport nor a roster leave an inactive state
      exactly as it was: nothing is emitted before both are known. */
  lemma {:induction false} InactivePageEmitsNothing(cfg: Config, page: seq<string>, k: nat, st: ParserState)
    requires k <= |page| && !Active(st)
    requires forall j :: k <= j < |page| ==>
      !IsSportHeader(cfg, st.sportNames, Strip(page[j])) && !IsComposition(cfg, Strip(page[j]))
    ensures ClassifyPage(cfg, page, k, st) == Ok(st)
    decreases |page| - k
  {
    if k < |page| {
      InactiveLineKeepsState(cfg, page, page[k], st);
      InactivePageEmitsNothing(cfg, page, k + 1, st);
    }
  }

  /** The composition is only ever set to a stripped line, so it never gains
      a blank at either end. */
  lemma {:induction false} LineKeepsCompositionTrimmed(cfg: Config, page: seq<string>, raw: string, st: ParserState)
    requires Trimmed(st.sportComposition)
    ensures var r := ClassifyLine(cfg, page, raw, st);
      r.Ok? ==> Trimmed(r.value.sportComposition)
  {
  }

  lemma {:induction false} PageKeepsCompositionTrimmed(cfg: Config, page: seq<string>, k: nat, st: ParserState)
    requires k <= |page| && Trimmed(st.sportComposition)
    ensures var r := ClassifyPage(cfg, page, k, st);
      r.Ok? ==> Trimmed(r.value.sportComposition)
    decreases |page| - k
  {
    if k < |page| {
      LineKeepsCompositionTrimmed(cfg, page, page[k], st);
      var next := ClassifyLine(cfg, page, page[k], st);
      if next.Ok? {
        PageKeepsCompositionTrimmed(cfg, page, k + 1, next.value);
      }
    }
  }

  /** The header test's second `strip()` is a no-op on the already stripped line. */
  lemma {:induction false} HeaderTestOnStrippedLine(cfg: Config, names: seq<string>, raw: string)
    ensures IsSportHeader(cfg, names, Strip(raw)) <==>
      (Strip(raw) == cfg.upper(Strip(raw)) && '|' !in Strip(raw) && Strip(raw) in names)
  {
    StripIdempotent(raw);
  }
}
