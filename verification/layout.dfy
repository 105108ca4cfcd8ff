/** Stage 1 of `parse_db`: one page's positioned words become text lines.

- Words are grouped into visual lines; a line closes at the page's last word
  or where the next word's `top` differs.
- A `|` token follows every word whose gap to the next word exceeds the
  threshold.
- A look-around of up to eight words collects runs of title-height words into
  the list of sport names.
- The first page loses its leading header lines.
 */
module Layout {
  import opened Results
  import opened Strings

  /** One entry of `page.extract_words()`; `height` is the already truncated `int(height)`. */
  datatype Word = Word(text: string, x0: int, x1: int, top: int, height: int)

  /** An element of `current_line`: a word's text or the literal `|` column separator. */
  datatype Token = WordToken(text: string) | Bar

  // ---------------------------------------------------------------------------
  // Line reconstruction

  /** A `|` is inserted after word `i`. */
  predicate Gap(w: seq<Word>, threshold: int, i: nat)
    requires i < |w|
  {
    i < |w| - 1 && w[i + 1].x0 - w[i].x1 > threshold
  }

  /** Word `i` closes its line. */
  predicate EndsLine(w: seq<Word>, i: nat)
    requires i < |w|
  {
    i == |w| - 1 || w[i].top != w[i + 1].top
  }

  /** What word `i` contributes to its line. */
  function WordTokens(w: seq<Word>, threshold: int, i: nat): seq<Token>
    requires i < |w|
  {
    [WordToken(w[i].text)] + (if Gap(w, threshold, i) then [Bar] else [])
  }

  /** The word loop from index `i`, with `current` the open line. */
  function LinesFrom(w: seq<Word>, threshold: int, i: nat, current: seq<Token>): (lines: seq<seq<Token>>)
    requires i <= |w|
    ensures forall k :: 0 <= k < |lines| ==> lines[k] != []
    decreases |w| - i
  {
    if i == |w| then []
    else
      var line := current + WordTokens(w, threshold, i);
      if EndsLine(w, i) then [line] + LinesFrom(w, threshold, i + 1, [])
      else LinesFrom(w, threshold, i + 1, line)
  }

  function Lines(w: seq<Word>, threshold: int): seq<seq<Token>> {
    LinesFrom(w, threshold, 0, [])
  }

  /** The tokens of words `s .. e-1`, in order. */
  function TokensOf(w: seq<Word>, threshold: int, s: nat, e: nat): seq<Token>
    requires s <= e <= |w|
    decreases e - s
  {
    if s == e then [] else WordTokens(w, threshold, s) + TokensOf(w, threshold, s + 1, e)
  }

  function Flatten(lines: seq<seq<Token>>): seq<Token> {
    if lines == [] then [] else lines[0] + Flatten(lines[1..])
  }

  /** No word in `s .. i-1` closes a line. */
  predicate NoBreak(w: seq<Word>, s: nat, i: nat)
    requires s <= i <= |w|
  {
    forall k :: s <= k < i ==> !EndsLine(w, k)
  }

  /** Words `s .. e-1` form exactly one visual line: the last of them closes
      it and none before does. */
  predicate IsLine(w: seq<Word>, s: nat, e: nat) {
    s < e <= |w| && EndsLine(w, e - 1) && NoBreak(w, s, e - 1)
  }

  /** `spans` cuts words `s .. |w|-1` into consecutive visual lines. */
  predicate CoversFrom(w: seq<Word>, s: nat, spans: seq<(nat, nat)>) {
    && s <= |w|
    && (spans == [] <==> s == |w|)
    && (spans != [] ==> spans[0].0 == s && spans[|spans| - 1].1 == |w|)
    && (forall k :: 0 <= k < |spans| ==> IsLine(w, spans[k].0, spans[k].1))
    && (forall k :: 0 < k < |spans| ==> spans[k - 1].1 == spans[k].0)
  }

  ghost function SpansFrom(w: seq<Word>, s: nat, i: nat): seq<(nat, nat)>
    requires s <= i <= |w|
    decreases |w| - i
  {
    if i == |w| then []
    else if EndsLine(w, i) then [(s, i + 1)] + SpansFrom(w, i + 1, i + 1)
    else SpansFrom(w, s, i + 1)
  }

  lemma {:induction false} TokensOfSnoc(w: seq<Word>, threshold: int, s: nat, i: nat)
    requires s <= i < |w|
    ensures TokensOf(w, threshold, s, i) + WordTokens(w, threshold, i) == TokensOf(w, threshold, s, i + 1)
    decreases i - s
  {
    var last := WordTokens(w, threshold, i);
    if s < i {
      TokensOfSnoc(w, threshold, s + 1, i);
      var head := WordTokens(w, threshold, s);
      assert TokensOf(w, threshold, s, i) == head + TokensOf(w, threshold, s + 1, i);
      assert TokensOf(w, threshold, s, i + 1) == head + TokensOf(w, threshold, s + 1, i + 1);
      assert (head + TokensOf(w, threshold, s + 1, i)) + last
        == head + (TokensOf(w, threshold, s + 1, i) + last);
    } else {
      assert TokensOf(w, threshold, i, i + 1) == last + TokensOf(w, threshold, i + 1, i + 1);
      assert [] + last == last + [];
    }
  }

  /** A line in front of a cover of what follows it is a cover. */
  lemma {:induction false} CoversCons(w: seq<Word>, s: nat, e: nat, rest: seq<(nat, nat)>)
    requires IsLine(w, s, e) && CoversFrom(w, e, rest)
    ensures CoversFrom(w, s, [(s, e)] + rest)
  {
    var spans := [(s, e)] + rest;
    forall k | 0 <= k < |spans|
      ensures IsLine(w, spans[k].0, spans[k].1)
    {
      if k > 0 { assert spans[k] == rest[k - 1]; }
    }
    forall k | 0 < k < |spans|
      ensures spans[k - 1].1 == spans[k].0
    {
      if k > 1 {
        assert spans[k - 1] == rest[k - 2] && spans[k] == rest[k - 1];
      }
    }
  }

  lemma {:induction false} SpansCover(w: seq<Word>, s: nat, i: nat)
    requires s <= i <= |w| && NoBreak(w, s, i) && (i == |w| ==> s == i)
    ensures CoversFrom(w, s, SpansFrom(w, s, i))
    decreases |w| - i
  {
    if i < |w| && EndsLine(w, i) {
      SpansCover(w, i + 1, i + 1);
      assert IsLine(w, s, i + 1);
      CoversCons(w, s, i + 1, SpansFrom(w, i + 1, i + 1));
    } else if i < |w| {
      SpansCover(w, s, i + 1);
    }
  }

  /** Line `k` holds the tokens of the words of span `k`. */
  predicate Matches(w: seq<Word>, threshold: int, lines: seq<seq<Token>>, spans: seq<(nat, nat)>) {
    && |lines| == |spans|
    && forall k :: 0 <= k < |lines| ==>
         spans[k].0 <= spans[k].1 <= |w| && lines[k] == TokensOf(w, threshold, spans[k].0, spans[k].1)
  }

  lemma {:induction false} MatchesCons(w: seq<Word>, threshold: int, line: seq<Token>, lines: seq<seq<Token>>,
                                       span: (nat, nat), spans: seq<(nat, nat)>)
    requires Matches(w, threshold, lines, spans)
    requires span.0 <= span.1 <= |w| && line == TokensOf(w, threshold, span.0, span.1)
    ensures Matches(w, threshold, [line] + lines, [span] + spans)
  {
    var ls := [line] + lines;
    var ss := [span] + spans;
    forall k | 0 <= k < |ls|
      ensures ss[k].0 <= ss[k].1 <= |w| && ls[k] == TokensOf(w, threshold, ss[k].0, ss[k].1)
    {
      if k > 0 {
        assert ls[k] == lines[k - 1] && ss[k] == spans[k - 1];
      }
    }
  }

  /** The word loop and the span cutter close lines at the same words. */
  lemma {:induction false} LinesMatchSpans(w: seq<Word>, threshold: int, s: nat, i: nat)
    requires s <= i <= |w| && (i == |w| ==> s == i)
    ensures Matches(w, threshold, LinesFrom(w, threshold, i, TokensOf(w, threshold, s, i)), SpansFrom(w, s, i))
    decreases |w| - i
  {
    if i < |w| {
      TokensOfSnoc(w, threshold, s, i);
      var line := TokensOf(w, threshold, s, i + 1);
      if EndsLine(w, i) {
        assert TokensOf(w, threshold, i + 1, i + 1) == [];
        LinesMatchSpans(w, threshold, i + 1, i + 1);
        var rest := LinesFrom(w, threshold, i + 1, []);
        var restSpans := SpansFrom(w, i + 1, i + 1);
        assert LinesFrom(w, threshold, i, TokensOf(w, threshold, s, i)) == [line] + rest;
        assert SpansFrom(w, s, i) == [(s, i + 1)] + restSpans;
        MatchesCons(w, threshold, line, rest, (s, i + 1), restSpans);
      } else {
        LinesMatchSpans(w, threshold, s, i + 1);
      }
    }
  }

  /** Lines are closed exactly at the page's last word and wherever `top`
      changes: the reconstructed lines are the token runs of a partition of
      the words into visual lines, and an empty page has no lines. */
  lemma {:induction false} LinesFollowTopChanges(w: seq<Word>, threshold: int)
    ensures exists spans: seq<(nat, nat)> ::
      && CoversFrom(w, 0, spans)
      && |spans| == |Lines(w, threshold)|
      && (forall k :: 0 <= k < |spans| ==> Lines(w, threshold)[k] == TokensOf(w, threshold, spans[k].0, spans[k].1))
    ensures Lines(w, threshold) == [] <==> w == []
  {
    SpansCover(w, 0, 0);
    LinesMatchSpans(w, threshold, 0, 0);
    var spans := SpansFrom(w, 0, 0);
    assert CoversFrom(w, 0, spans);
  }

  lemma {:induction false} FlattenCons(line: seq<Token>, rest: seq<seq<Token>>)
    ensures Flatten([line] + rest) == line + Flatten(rest)
  {
    assert ([line] + rest)[1..] == rest;
  }

  lemma {:induction false} FlattenLinesFrom(w: seq<Word>, threshold: int, i: nat, current: seq<Token>)
    requires i <= |w| && (i == |w| ==> current == [])
    ensures Flatten(LinesFrom(w, threshold, i, current)) == current + TokensOf(w, threshold, i, |w|)
    decreases |w| - i
  {
    if i < |w| {
      var line := current + WordTokens(w, threshold, i);
      var tail := TokensOf(w, threshold, i + 1, |w|);
      assert TokensOf(w, threshold, i, |w|) == WordTokens(w, threshold, i) + tail;
      assert line + tail == current + (WordTokens(w, threshold, i) + tail);
      if EndsLine(w, i) {
        FlattenLinesFrom(w, threshold, i + 1, []);
        var rest := LinesFrom(w, threshold, i + 1, []);
        assert LinesFrom(w, threshold, i, current) == [line] + rest;
        FlattenCons(line, rest);
      } else {
        assert LinesFrom(w, threshold, i, current) == LinesFrom(w, threshold, i + 1, line);
        FlattenLinesFrom(w, threshold, i + 1, line);
      }
    }
  }

  /** Reads a token stream back as (word text, followed by `|`) pairs. */
  function Annotate(ts: seq<Token>): seq<(string, bool)>
    decreases |ts|
  {
    if ts == [] then []
    else if ts[0].Bar? then Annotate(ts[1..])
    else if |ts| > 1 && ts[1].Bar? then [(ts[0].text, true)] + Annotate(ts[2..])
    else [(ts[0].text, false)] + Annotate(ts[1..])
  }

  lemma {:induction false} AnnotateTokensOf(w: seq<Word>, threshold: int, s: nat, e: nat)
    requires s <= e <= |w|
    ensures var a := Annotate(TokensOf(w, threshold, s, e));
      |a| == e - s && forall k :: 0 <= k < e - s ==> a[k] == (w[s + k].text, Gap(w, threshold, s + k))
    decreases e - s
  {
    if s < e {
      var rest := TokensOf(w, threshold, s + 1, e);
      var ts := TokensOf(w, threshold, s, e);
      var head := (w[s].text, Gap(w, threshold, s));
      AnnotateTokensOf(w, threshold, s + 1, e);
      assert ts == WordTokens(w, threshold, s) + rest;
      assert rest == [] || rest[0].WordToken?;
      if Gap(w, threshold, s) {
        assert ts[2..] == rest;
      } else {
        assert ts[1..] == rest;
      }
      var a := Annotate(ts);
      var tail := Annotate(rest);
      assert a == [head] + tail;
      forall k | 0 <= k < e - s
        ensures a[k] == (w[s + k].text, Gap(w, threshold, s + k))
      {
        if k > 0 {
          assert a[k] == tail[k - 1];
        }
      }
    }
  }

  /** Lines keep every word of the page, in order, and a `|` follows word `i`
      exactly when `i` is not the last word and the gap to word `i+1` exceeds
      the threshold; the lines together hold exactly those tokens, with no
      stray or doubled `|`. */
  lemma {:induction false} LinesPreserveWordsAndGaps(w: seq<Word>, threshold: int)
    ensures Flatten(Lines(w, threshold)) == TokensOf(w, threshold, 0, |w|)
    ensures var a := Annotate(Flatten(Lines(w, threshold)));
      |a| == |w| && forall i :: 0 <= i < |w| ==> a[i] == (w[i].text, Gap(w, threshold, i))
  {
    FlattenLinesFrom(w, threshold, 0, []);
    AnnotateTokensOf(w, threshold, 0, |w|);
    assert Flatten(Lines(w, threshold)) == TokensOf(w, threshold, 0, |w|);
  }

  // ---------------------------------------------------------------------------
  // Rendering and header drop

  function TokenText(t: Token): string {
    match t
    case WordToken(x) => x
    case Bar => "|"
  }

  function TokenTexts(ts: seq<Token>): seq<string> {
    seq(|ts|, k requires 0 <= k < |ts| => TokenText(ts[k]))
  }

  /** `' '.join(current_line)`. */
  function RenderLine(ts: seq<Token>): string {
    Join(" ", TokenTexts(ts))
  }

  function RenderLines(lines: seq<seq<Token>>): seq<string> {
    seq(|lines|, k requires 0 <= k < |lines| => RenderLine(lines[k]))
  }

  /** Two same-row words farther apart than the threshold render as one line
      with a `|` between them. */
  lemma {:induction false} GapScenario(a: Word, b: Word, threshold: int)
    requires a.top == b.top && b.x0 - a.x1 > threshold
    ensures Lines([a, b], threshold) == [[WordToken(a.text), Bar, WordToken(b.text)]]
    ensures RenderLines(Lines([a, b], threshold)) == [a.text + " | " + b.text]
  {
    GapLines(a, b, threshold);
    GapRendered(a.text, b.text);
  }

  /** Two words on one line with a wide gap form one line of three tokens. */
  lemma {:induction false} GapLines(a: Word, b: Word, threshold: int)
    requires a.top == b.top && b.x0 - a.x1 > threshold
    ensures Lines([a, b], threshold) == [[WordToken(a.text), Bar, WordToken(b.text)]]
  {
    var w := [a, b];
    var line := [WordToken(a.text), Bar, WordToken(b.text)];
    assert WordTokens(w, threshold, 0) == [WordToken(a.text), Bar];
    assert WordTokens(w, threshold, 1) == [WordToken(b.text)];
    assert [] + WordTokens(w, threshold, 0) == [WordToken(a.text), Bar];
    assert [WordToken(a.text), Bar] + WordTokens(w, threshold, 1) == line;
    assert LinesFrom(w, threshold, 2, []) == [];
    assert LinesFrom(w, threshold, 1, [WordToken(a.text), Bar]) == [line];
  }

  /** That line renders as the two texts around a spaced bar. */
  lemma {:induction false} GapRendered(x: string, y: string)
    ensures RenderLines([[WordToken(x), Bar, WordToken(y)]]) == [x + " | " + y]
  {
    var line := [WordToken(x), Bar, WordToken(y)];
    var texts := [x, "|", y];
    assert TokenTexts(line) == texts;
    assert texts[1..] == ["|", y] && texts[1..][1..] == [y];
    assert Join(" ", ["|", y]) == "|" + " " + y;
    assert Join(" ", texts) == x + " " + ("|" + " " + y);
    assert x + " " + ("|" + " " + y) == x + " | " + y;
  }

  /** `processed_lines[header_height:]` on the first page (index 0) only. */
  function DropHeader(lines: seq<string>, page: nat, headerHeight: int): (r: seq<string>)
    ensures |r| <= |lines|
    ensures page != 0 ==> r == lines
    ensures page == 0 ==> r == lines[|lines| - |r|..]
    ensures page == 0 && 0 <= headerHeight ==> |r| == if headerHeight <= |lines| then |lines| - headerHeight else 0
    ensures page == 0 && headerHeight < 0 ==> |r| == if |lines| <= -headerHeight then |lines| else -headerHeight
  {
    if page != 0 then lines
    else if headerHeight >= 0 then lines[if headerHeight <= |lines| then headerHeight else |lines|..]
    else lines[if |lines| + headerHeight >= 0 then |lines| + headerHeight else 0..]
  }

  /** The page's `processed_lines` as the classification loop sees them. */
  function PageLines(w: seq<Word>, threshold: int, headerHeight: int, page: nat): seq<string> {
    DropHeader(RenderLines(Lines(w, threshold)), page, headerHeight)
  }

  // ---------------------------------------------------------------------------
  // Title scan

  const TitleLookahead: nat := 8

  /** Python `w[k]`: a negative index counts from the end of the list. */
  function PyIndex(w: seq<Word>, k: int): Word
    requires -|w| <= k < |w|
  {
    if k >= 0 then w[k] else w[|w| + k]
  }

  /** The run goes on at offset `j`: the word `j` ahead has the title height
      and the word `j` behind (wrapping below zero) does not. */
  predicate Continues(w: seq<Word>, height: int, i: nat, j: nat) {
    i + j < |w| && w[i + j].height == height && PyIndex(w, i - j).height != height
  }

  /** The inner `for j in range(1, 9)` loop from offset `j`, with `name` the run so far. */
  function ScanTitle(w: seq<Word>, height: int, i: nat, j: nat, name: string): Result<Option<string>>
    requires 1 <= j <= TitleLookahead + 1 && i + j <= |w|
    decreases TitleLookahead + 1 - j
  {
    if j > TitleLookahead then Ok(None)
    else if i + j >= |w| then Err(TitleScanOutOfRange)
    else if Continues(w, height, i, j) then ScanTitle(w, height, i, j + 1, name + " " + w[i + j].text)
    else if PyIndex(w, i - j).height != height then Ok(Some(name))
    else Ok(None)
  }

  function Texts(ws: seq<Word>): seq<string> {
    seq(|ws|, k requires 0 <= k < |ws| => ws[k].text)
  }

  /** The texts of words `i .. i+n-1`, joined with spaces. */
  function TitleText(w: seq<Word>, i: nat, n: nat): string
    requires 1 <= n && i + n <= |w|
  {
    Join(" ", Texts(w[i..i + n]))
  }

  lemma {:induction false} TitleTextSnoc(w: seq<Word>, i: nat, n: nat)
    requires 1 <= n && i + n < |w|
    ensures TitleText(w, i, n + 1) == TitleText(w, i, n) + " " + w[i + n].text
  {
    assert Texts(w[i..i + n + 1]) == Texts(w[i..i + n]) + [w[i + n].text];
    JoinSnoc(" ", Texts(w[i..i + n]), w[i + n].text);
  }

  /** Every offset in `j0 .. j-1` is on the page and continues the run. */
  predicate RunsTo(w: seq<Word>, height: int, i: nat, j0: nat, j: nat) {
    forall k :: j0 <= k < j ==> Continues(w, height, i, k)
  }

  lemma {:induction false} RunsToExtend(w: seq<Word>, height: int, i: nat, j0: nat, j: nat)
    requires i + j0 < |w| && Continues(w, height, i, j0) && RunsTo(w, height, i, j0 + 1, j)
    ensures RunsTo(w, height, i, j0, j)
  {
    forall k | j0 <= k < j
      ensures Continues(w, height, i, k)
    {
      if k > j0 {
        assert j0 + 1 <= k < j;
      }
    }
  }

  lemma {:induction false} RunsToHead(w: seq<Word>, height: int, i: nat, j0: nat, j: nat)
    ensures RunsTo(w, height, i, j0, j) && j0 < j ==> Continues(w, height, i, j0)
  {
  }

  /** The scan breaks at offset `j` and records the run. */
  predicate TitleStopsAt(w: seq<Word>, height: int, i: nat, j0: nat, j: nat) {
    && j0 <= j <= TitleLookahead && i + j < |w|
    && RunsTo(w, height, i, j0, j)
    && !Continues(w, height, i, j)
    && PyIndex(w, i - j).height != height
  }

  /** The scan reaches offset `j` and `words[i+j]` is past the end of the page. */
  predicate TitleOverrunsAt(w: seq<Word>, height: int, i: nat, j0: nat, j: nat) {
    j0 <= j <= TitleLookahead && |w| <= i + j && RunsTo(w, height, i, j0, j)
  }

  /** A continuing offset `j0` overruns exactly where the next offset `j1` does. */
  lemma {:induction false} OverrunFromNext(w: seq<Word>, height: int, i: nat, j0: nat, j1: nat)
    requires i + j0 < |w| && Continues(w, height, i, j0) && j1 == j0 + 1
    ensures (exists j: nat :: TitleOverrunsAt(w, height, i, j0, j)) <==> (exists j: nat :: TitleOverrunsAt(w, height, i, j1, j))
  {
    if j: nat :| TitleOverrunsAt(w, height, i, j1, j) {
      RunsToExtend(w, height, i, j0, j);
      assert TitleOverrunsAt(w, height, i, j0, j);
    }
    if j: nat :| TitleOverrunsAt(w, height, i, j0, j) {
      assert j != j0;
      assert TitleOverrunsAt(w, height, i, j1, j);
    }
  }

  /** A continuing offset `j0` stops at the same offsets as `j0 + 1`. */
  lemma {:induction false} StopsFromNext(w: seq<Word>, height: int, i: nat, j0: nat)
    requires i + j0 < |w| && Continues(w, height, i, j0)
    ensures forall j: nat :: TitleStopsAt(w, height, i, j0, j) <==> TitleStopsAt(w, height, i, j0 + 1, j)
  {
    forall j: nat
      ensures TitleStopsAt(w, height, i, j0, j) <==> TitleStopsAt(w, height, i, j0 + 1, j)
    {
      if TitleStopsAt(w, height, i, j0, j) {
        assert j != j0;
      }
      if TitleStopsAt(w, height, i, j0 + 1, j) {
        RunsToExtend(w, height, i, j0, j);
      }
    }
  }

  /** When offset `j0` does not continue the run, the scan cannot overrun,
      and it can stop only at `j0` itself, exactly when the backward word
      lacks the title height. */
  lemma {:induction false} BrokenRunEnds(w: seq<Word>, height: int, i: nat, j0: nat)
    requires j0 <= TitleLookahead && i + j0 < |w| && !Continues(w, height, i, j0)
    ensures forall j: nat :: !TitleOverrunsAt(w, height, i, j0, j)
    ensures forall j: nat :: TitleStopsAt(w, height, i, j0, j) <==> j == j0 && PyIndex(w, i - j0).height != height
  {
    forall j: nat | j0 < j
      ensures !RunsTo(w, height, i, j0, j)
    {
      RunsToHead(w, height, i, j0, j);
    }
  }

  /** The title scan raises exactly when it runs off the page before breaking,
      and records a name exactly when it breaks at an offset whose backward
      word lacks the title height; that name is the run's words joined with
      spaces. */
  lemma {:induction false} ScanTitleCharacterized(w: seq<Word>, height: int, i: nat, j0: nat, name: string)
    requires 1 <= j0 <= TitleLookahead + 1 && i + j0 <= |w|
    requires name == TitleText(w, i, j0)
    ensures var r := ScanTitle(w, height, i, j0, name);
      && (r.Err? <==> exists j: nat :: TitleOverrunsAt(w, height, i, j0, j))
      && (r.Ok? && r.value.Some? ==> exists j: nat :: TitleStopsAt(w, height, i, j0, j) && r.value.value == TitleText(w, i, j))
      && (forall j: nat :: TitleStopsAt(w, height, i, j0, j) ==> r == Ok(Some(TitleText(w, i, j))))
    decreases TitleLookahead + 1 - j0
  {
    if j0 > TitleLookahead {
    } else if i + j0 >= |w| {
      assert TitleOverrunsAt(w, height, i, j0, j0);
    } else if Continues(w, height, i, j0) {
      TitleTextSnoc(w, i, j0);
      ScanTitleCharacterized(w, height, i, j0 + 1, name + " " + w[i + j0].text);
      assert ScanTitle(w, height, i, j0, name) == ScanTitle(w, height, i, j0 + 1, name + " " + w[i + j0].text);
      OverrunFromNext(w, height, i, j0, j0 + 1);
      StopsFromNext(w, height, i, j0);
    } else {
      BrokenRunEnds(w, height, i, j0);
    }
  }

  /** A word at the top of the page looks behind at the page's LAST word,
      because `words[0 - 1]` wraps around: a one-word title in first position
      is recorded or not depending on how the page ends. */
  lemma {:induction false} PageStartTitleLooksAtPageEnd(w: seq<Word>, height: int)
    requires |w| >= 2 && w[1].height != height
    ensures ScanTitle(w, height, 0, 1, w[0].text)
      == if w[|w| - 1].height != height then Ok(Some(w[0].text)) else Ok(None)
  {
  }

  /** The title part of the word loop from index `i`: `names` only grows. */
  function PageTitles(w: seq<Word>, height: int, i: nat, names: seq<string>): (r: Result<seq<string>>)
    requires i <= |w|
    ensures r.Ok? ==> names <= r.value
    ensures r.Err? ==> r.fault == TitleScanOutOfRange
    ensures r.Err? <==> exists k :: i <= k < |w| && w[k].height == height && ScanTitle(w, height, k, 1, w[k].text).Err?
    ensures r.Ok? ==> forall k, t ::
      (i <= k < |w| && w[k].height == height && ScanTitle(w, height, k, 1, w[k].text) == Ok(Some(t))) ==> t in r.value
    ensures r.Ok? ==> forall t :: t in r.value[|names|..] ==>
      exists k :: i <= k < |w| && w[k].height == height && ScanTitle(w, height, k, 1, w[k].text) == Ok(Some(t))
    decreases |w| - i
  {
    if i == |w| then Ok(names)
    else if w[i].height != height then PageTitles(w, height, i + 1, names)
    else
      var scan := ScanTitle(w, height, i, 1, w[i].text);
      if scan.Err? then Err(scan.fault)
      else
        var grown := if scan.value.Some? then names + [scan.value.value] else names;
        var r := PageTitles(w, height, i + 1, grown);
        assert r.Ok? && scan.value.Some? ==> scan.value.value in r.value by {
          if r.Ok? && scan.value.Some? {
            assert r.value[|grown| - 1] == grown[|grown| - 1];
          }
        }
        r
  }

  /** A page whose last word has the title height always raises: the scan at
      that word reads `words[i+1]` past the end of the page. */
  lemma {:induction false} LastTitleWordRaises(w: seq<Word>, height: int, names: seq<string>)
    requires |w| > 0 && w[|w| - 1].height == height
    ensures PageTitles(w, height, 0, names) == Err(TitleScanOutOfRange)
  {
    assert ScanTitle(w, height, |w| - 1, 1, w[|w| - 1].text).Err?;
  }
}
