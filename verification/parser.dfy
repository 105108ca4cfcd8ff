/** `parse_db` end to end: for each of the first fifty pages, the title scan
    and line reconstruction of Layout feed the classification fold of
    Classify; the accumulated string is then assembled into records.

    The pages are given as their word lists (what `page.extract_words()`
    returns); reading the PDF is outside the model. An exception that escapes
    `parse_db` is an `Err`. */
module PdfParser {
  import opened Results
  import opened Strings
  import opened Settings
  import opened Layout
  import opened Classify
  import opened Assembly

  /** `pdf.pages[0:50]`. */
  const MaxPages: nat := 50

  function FirstPages(pages: seq<seq<Word>>): (r: seq<seq<Word>>)
    ensures r <= pages
    ensures |r| <= MaxPages
    ensures |pages| <= MaxPages ==> r == pages
    ensures |pages| > MaxPages ==> r == pages[..MaxPages]
  {
    if |pages| <= MaxPages then pages else pages[..MaxPages]
  }

  /** One iteration of the page loop: the title scan runs over the page's
      words first (its names are known before any of the page's lines are
      classified), then the page's lines are classified. */
  function ProcessPage(cfg: Config, words: seq<Word>, index: nat, st: ParserState): (r: Result<ParserState>)
    // titles are only ever added, output only ever extended
    ensures r.Ok? ==> st.sportNames <= r.value.sportNames && st.out <= r.value.out
    // the title scan's error comes first and is the only source of its fault
    ensures r.Err? && r.fault == TitleScanOutOfRange <==>
      PageTitles(words, cfg.titleHeight, 0, st.sportNames).Err?
    // otherwise only `processed_lines[-2]` on a one-line page can raise
    ensures r.Err? && r.fault != TitleScanOutOfRange ==>
      r.fault == NoSecondToLastLine && |PageLines(words, cfg.thresholdDistance, cfg.headerHeight, index)| == 1
  {
    var names :- PageTitles(words, cfg.titleHeight, 0, st.sportNames);
    var lines := PageLines(words, cfg.thresholdDistance, cfg.headerHeight, index);
    ClassifyPage(cfg, lines, 0, st.(sportNames := names))
  }

  /** The page loop from page number `index` on. */
  function RunPages(cfg: Config, pages: seq<seq<Word>>, index: nat, st: ParserState): (r: Result<ParserState>)
    ensures r.Ok? ==> st.sportNames <= r.value.sportNames && st.out <= r.value.out
    decreases |pages|
  {
    if pages == [] then Ok(st)
    else
      var next :- ProcessPage(cfg, pages[0], index, st);
      RunPages(cfg, pages[1..], index + 1, next)
  }

  /** Every state the page loop reaches from `Initial` holds a composition
      with no blank at either end ("default", or a stripped roster label), as
      block opening (`Assembly.EkpLineKeepsEkp`) needs. */
  lemma {:induction false} CompositionStaysTrimmed(cfg: Config, pages: seq<seq<Word>>, index: nat, st: ParserState)
    requires Trimmed(st.sportComposition)
    ensures var r := RunPages(cfg, pages, index, st);
      r.Ok? ==> Trimmed(r.value.sportComposition)
    decreases |pages|
  {
    if pages != [] {
      var names := PageTitles(pages[0], cfg.titleHeight, 0, st.sportNames);
      if names.Ok? {
        var lines := PageLines(pages[0], cfg.thresholdDistance, cfg.headerHeight, index);
        PageKeepsCompositionTrimmed(cfg, lines, 0, st.(sportNames := names.value));
        var next := ProcessPage(cfg, pages[0], index, st);
        if next.Ok? {
          CompositionStaysTrimmed(cfg, pages[1..], index + 1, next.value);
        }
      }
    }
  }

  lemma {:induction false} InitialCompositionTrimmed()
    ensures Trimmed(Initial.sportComposition)
  {
    assert Initial.sportComposition == "default";
  }

  /** `final_string` after the page loop. */
  function Accumulate(cfg: Config, pages: seq<seq<Word>>): Result<string> {
    var st :- RunPages(cfg, FirstPages(pages), 0, Initial);
    Ok(st.out)
  }

  function ParseDb(cfg: Config, pages: seq<seq<Word>>): (r: Result<seq<Record>>)
    // an exception escapes exactly when one escapes the page loop
    ensures r.Ok? <==> Accumulate(cfg, pages).Ok?
    // at most one record per block of the accumulated string
    ensures r.Ok? ==> |r.value| <= |Blocks(Accumulate(cfg, pages).value)|
  {
    var out :- Accumulate(cfg, pages);
    Ok(Assemble(out))
  }

  /** Every record comes from a well-formed block of the accumulated string,
      and every well-formed block gives one. */
  lemma {:induction false} ParseDbRecordsAreBlocks(cfg: Config, pages: seq<seq<Word>>, rec: Record)
    ensures ParseDb(cfg, pages).Ok? ==>
      var blocks := Blocks(Accumulate(cfg, pages).value);
      rec in ParseDb(cfg, pages).value <==>
        exists j :: 0 <= j < |blocks| && BlockToRecord(blocks[j]) == Some(rec)
  {
    if ParseDb(cfg, pages).Ok? {
      AssembleExact(Accumulate(cfg, pages).value, rec);
    }
  }

  /** A document without pages gives no records and raises nothing. */
  lemma {:induction false} EmptyDocument(cfg: Config)
    ensures ParseDb(cfg, []) == Ok([])
  {
    assert Accumulate(cfg, []) == Ok("");
    EmptyOutputNoRecords();
  }

  /** Pages after the fiftieth are never looked at. */
  lemma {:induction false} PagesBeyondFiftyIgnored(cfg: Config, pages: seq<seq<Word>>, more: seq<seq<Word>>)
    requires |pages| == MaxPages
    ensures ParseDb(cfg, pages + more) == ParseDb(cfg, pages)
  {
    if more != [] {
      assert (pages + more)[..MaxPages] == pages;
    } else {
      assert pages + more == pages;
    }
  }

  /** A page whose lines are all neither titles nor roster labels, met while
      no sport and composition are known yet, adds nothing to the output. */
  lemma {:induction false} InactivePageAddsNothing(cfg: Config, words: seq<Word>, index: nat, st: ParserState)
    requires !Active(st)
    requires PageTitles(words, cfg.titleHeight, 0, st.sportNames).Ok?
    requires var names := PageTitles(words, cfg.titleHeight, 0, st.sportNames).value;
      var lines := PageLines(words, cfg.thresholdDistance, cfg.headerHeight, index);
      forall j :: 0 <= j < |lines| ==>
        !IsSportHeader(cfg, names, Strip(lines[j])) && !IsComposition(cfg, Strip(lines[j]))
    ensures ProcessPage(cfg, words, index, st).Ok?
    ensures ProcessPage(cfg, words, index, st).value.out == st.out
  {
    var names := PageTitles(words, cfg.titleHeight, 0, st.sportNames).value;
    var lines := PageLines(words, cfg.thresholdDistance, cfg.headerHeight, index);
    var st' := st.(sportNames := names);
    InactivePageEmitsNothing(cfg, lines, 0, st');
  }
}
