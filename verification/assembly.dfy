/** Stage 3 of `parse_db`: the accumulated string is cut into blocks at
    "\n\n\n", and every block that splits on `|` into at least eight segments
    becomes one 11-field record; shorter blocks are skipped. */
module Assembly {
  import opened Results
  import opened Strings
  import opened Classify
  import opened Settings

  /** The output tuple, in the order `parse_db` builds it. */
  datatype Record = Record(
    sportName: string,
    sportComposition: string,
    ekpNumber: string,
    dateStart: string,
    dateEnd: string,
    city: string,
    discipline: string,
    competitionClass: string,
    country: string,
    maxPeopleCount: string,
    gendersAndAges: string)

  const BlockSeparator: string := "\n\n\n"

  /** `new[7]` is the highest fixed index read, so a block needs eight segments. */
  const MinSegments: nat := 8

  /** `final_string.strip().split("\n\n\n")`. */
  function Blocks(out: string): seq<string> {
    Split(Strip(out), BlockSeparator)
  }

  /** `line.strip()[1:].split("|")`: the leading character (the block's first
      `|`) is dropped before splitting. */
  function Segments(block: string): seq<string> {
    Split(Tail1(Strip(block)), "|")
  }

  /** `" ".join(x.strip().split("|"))`. */
  function Rejoin(x: string): string {
    Join(" ", Split(Strip(x), "|"))
  }

  /** `new[8:-2]` for a list of at least eight segments. */
  function DisciplineSegments(segs: seq<string>): seq<string>
    requires |segs| >= MinSegments
  {
    if |segs| - 2 > MinSegments then segs[MinSegments..|segs| - 2] else []
  }

  function Discipline(segs: seq<string>): string
    requires |segs| >= MinSegments
  {
    var parts := DisciplineSegments(segs);
    Join(" ", seq(|parts|, k requires 0 <= k < |parts| => Rejoin(parts[k])))
  }

  /** The tuple built from the segments of a block, in `parse_db`'s order. */
  function RecordOf(segs: seq<string>): Record
    requires |segs| >= MinSegments
  {
    Record(
      sportName := Strip(segs[|segs| - 2]),
      sportComposition := Strip(segs[|segs| - 1]),
      ekpNumber := Strip(segs[0]),
      dateStart := Strip(segs[2]),
      dateEnd := Strip(segs[6]),
      city := Strip(segs[7]),
      discipline := Discipline(segs),
      competitionClass := Strip(segs[1]),
      country := Strip(segs[3]),
      maxPeopleCount := Strip(segs[4]),
      gendersAndAges := Strip(segs[5]))
  }

  /** The body of the `try`: None is the `except` branch that skips the block. */
  function BlockToRecord(block: string): (r: Option<Record>)
    // a block is kept exactly when it has at least seven `|` after its first character
    ensures r.Some? <==> CountChar(Tail1(Strip(block)), '|') >= MinSegments - 1
    ensures r.Some? <==> |Segments(block)| >= MinSegments
  {
    var segs := Segments(block);
    SplitCount(Tail1(Strip(block)), '|');
    if |segs| < MinSegments then None else Some(RecordOf(segs))
  }

  /** Which segment feeds which field: the first eight by position, the last
      two from the end, the discipline from everything in between. */
  lemma {:induction false} FieldMapping(block: string)
    ensures BlockToRecord(block).Some? ==>
      var segs := Segments(block);
      var rec := BlockToRecord(block).value;
      && rec.ekpNumber == Strip(segs[0])
      && rec.competitionClass == Strip(segs[1])
      && rec.dateStart == Strip(segs[2])
      && rec.country == Strip(segs[3])
      && rec.maxPeopleCount == Strip(segs[4])
      && rec.gendersAndAges == Strip(segs[5])
      && rec.dateEnd == Strip(segs[6])
      && rec.city == Strip(segs[7])
      && rec.sportName == Strip(segs[|segs| - 2])
      && rec.sportComposition == Strip(segs[|segs| - 1])
      && rec.discipline == Discipline(segs)
  {
    if BlockToRecord(block).Some? {
      assert BlockToRecord(block).value == RecordOf(Segments(block));
    }
  }

  /** Number of blocks the `except` branch skips. */
  function Skipped<T>(parse: string -> Option<T>, blocks: seq<string>): nat {
    if blocks == [] then 0
    else (if parse(blocks[0]).None? then 1 else 0) + Skipped(parse, blocks[1..])
  }

  /** The assembly loop over the blocks, for any per-block parse. */
  function Collect<T>(parse: string -> Option<T>, blocks: seq<string>): (r: seq<T>)
    // every skipped block costs exactly one record
    ensures |r| + Skipped(parse, blocks) == |blocks|
  {
    if blocks == [] then []
    else
      var rest := Collect(parse, blocks[1..]);
      match parse(blocks[0])
      case None => rest
      case Some(rec) => [rec] + rest
  }

  /** Every collected value was parsed from some block. */
  lemma {:induction false} CollectedComeFromBlocks<T>(parse: string -> Option<T>, blocks: seq<string>, rec: T)
    requires rec in Collect(parse, blocks)
    ensures exists j :: 0 <= j < |blocks| && parse(blocks[j]) == Some(rec)
  {
    var rest := Collect(parse, blocks[1..]);
    if rec in rest {
      CollectedComeFromBlocks(parse, blocks[1..], rec);
      var j :| 0 <= j < |blocks[1..]| && parse(blocks[1..][j]) == Some(rec);
      assert blocks[1..][j] == blocks[j + 1];
    }
  }

  /** Every block that parses contributes its value. */
  lemma {:induction false} ParsedBlocksAreCollected<T>(parse: string -> Option<T>, blocks: seq<string>, j: nat)
    requires j < |blocks| && parse(blocks[j]).Some?
    ensures parse(blocks[j]).value in Collect(parse, blocks)
  {
    if j > 0 {
      assert blocks[j] == blocks[1..][j - 1];
      ParsedBlocksAreCollected(parse, blocks[1..], j - 1);
    }
  }

  /** A single block contributes its value, or nothing when it is skipped. */
  lemma {:induction false} CollectOne<T>(parse: string -> Option<T>, b: string)
    ensures Collect(parse, [b]) == if parse(b).Some? then [parse(b).value] else []
  {
    assert [b][1..] == [];
  }

  /** Values come out in block order: collecting two runs of blocks is
      collecting each and concatenating. */
  lemma {:induction false} CollectAppend<T>(parse: string -> Option<T>, a: seq<string>, b: seq<string>)
    ensures Collect(parse, a + b) == Collect(parse, a) + Collect(parse, b)
    decreases |a|
  {
    if a == [] {
      assert a + b == b;
    } else {
      assert (a + b)[0] == a[0];
      assert (a + b)[1..] == a[1..] + b;
      CollectAppend(parse, a[1..], b);
    }
  }

  /** `parse_db`'s result from the accumulated string. */
  function Assemble(out: string): (r: seq<Record>)
    ensures |r| <= |Blocks(out)|
  {
    Collect(BlockToRecord, Blocks(out))
  }

  /** The result holds exactly the records of the well-formed blocks. */
  lemma {:induction false} AssembleExact(out: string, rec: Record)
    ensures rec in Assemble(out) <==>
      exists j :: 0 <= j < |Blocks(out)| && BlockToRecord(Blocks(out)[j]) == Some(rec)
  {
    var blocks := Blocks(out);
    if rec in Assemble(out) {
      CollectedComeFromBlocks(BlockToRecord, blocks, rec);
    }
    if exists j :: 0 <= j < |blocks| && BlockToRecord(blocks[j]) == Some(rec) {
      var j :| 0 <= j < |blocks| && BlockToRecord(blocks[j]) == Some(rec);
      ParsedBlocksAreCollected(BlockToRecord, blocks, j);
    }
  }

  // ---------------------------------------------------------------------------
  // Properties

  /** A field that survives the round trip: no `|`, no blank at either end. */
  predicate Clean(f: string) {
    '|' !in f && Strip(f) == f
  }

  /** The 11 fields in block order. */
  function Fields(rec: Record): seq<string> {
    [rec.ekpNumber, rec.competitionClass, rec.dateStart, rec.country, rec.maxPeopleCount,
     rec.gendersAndAges, rec.dateEnd, rec.city, rec.discipline, rec.sportName, rec.sportComposition]
  }

  /** The block a record would be read from. */
  function RecordBlock(rec: Record): string {
    "|" + Join("|", Fields(rec))
  }

  lemma {:induction false} SplitPartsLackSeparator(s: string, c: char)
    ensures forall k :: 0 <= k < |Split(s, [c])| ==> c !in Split(s, [c])[k]
    decreases |s|
  {
    if |s| >= 1 {
      SplitPartsLackSeparator(s[1..], c);
      if s[..1] != [c] {
        assert s[0] != c by { assert s[..1] == [s[0]]; }
        var rest := Split(s[1..], [c]);
        var parts := Split(s, [c]);
        assert parts == [[s[0]] + rest[0]] + rest[1..];
        forall k | 0 <= k < |parts|
          ensures c !in parts[k]
        {
          if k > 0 {
            assert parts[k] == rest[k];
          }
        }
      } else {
        assert s[|[c]|..] == s[1..];
      }
    }
  }

  /** The inner `" ".join(x.strip().split("|"))` never changes a segment:
      segments of a split on `|` contain no `|`. */
  lemma {:induction false} RejoinIsStrip(x: string)
    requires '|' !in x
    ensures Rejoin(x) == Strip(x)
  {
    var t := Strip(x);
    StripKeepsOut(x, '|');
    SplitWithoutSeparator(t, '|');
    assert Split(t, "|") == [t];
  }

  /** `new[8:-2]` are the segments strictly between the eighth and the
      second-to-last. */
  lemma {:induction false} DisciplineSegmentsAreMiddle(segs: seq<string>)
    requires |segs| >= MinSegments
    ensures var parts := DisciplineSegments(segs);
      && |parts| == (if |segs| > MinSegments + 2 then |segs| - MinSegments - 2 else 0)
      && forall k :: 0 <= k < |parts| ==> parts[k] == segs[MinSegments + k]
  {
  }

  /** For segments free of `|` the discipline is the stripped middle
      segments joined with spaces. */
  lemma {:induction false} DisciplineOfCleanSegments(segs: seq<string>)
    requires |segs| >= MinSegments
    requires forall k :: 0 <= k < |segs| ==> '|' !in segs[k]
    ensures var parts := DisciplineSegments(segs);
      Discipline(segs) == Join(" ", seq(|parts|, k requires 0 <= k < |parts| => Strip(parts[k])))
  {
    var parts := DisciplineSegments(segs);
    DisciplineSegmentsAreMiddle(segs);
    forall k | 0 <= k < |parts|
      ensures Rejoin(parts[k]) == Strip(parts[k])
    {
      assert '|' !in segs[MinSegments + k];
      RejoinIsStrip(parts[k]);
    }
    assert seq(|parts|, k requires 0 <= k < |parts| => Rejoin(parts[k]))
        == seq(|parts|, k requires 0 <= k < |parts| => Strip(parts[k]));
  }

  /** The discipline of a kept block is its stripped middle segments joined
      with spaces: the inner re-split on `|` never changes anything. */
  lemma {:induction false} DisciplineIsStrippedMiddle(block: string)
    requires |Segments(block)| >= MinSegments
    ensures var segs := Segments(block);
      var parts := DisciplineSegments(segs);
      Discipline(segs) == Join(" ", seq(|parts|, k requires 0 <= k < |parts| => Strip(parts[k])))
  {
    SplitPartsLackSeparator(Tail1(Strip(block)), '|');
    DisciplineOfCleanSegments(Segments(block));
  }

  /** Every field survives the round trip. */
  predicate CleanFields(rec: Record) {
    forall k :: 0 <= k < |Fields(rec)| ==> Clean(Fields(rec)[k])
  }

  lemma {:induction false} TrimmedBlock(rec: Record)
    requires CleanFields(rec)
    ensures Trimmed(RecordBlock(rec))
  {
    var fs := Fields(rec);
    var comp := fs[10];
    JoinLast("|", fs);
    var j := Join("|", fs[..10]);
    var b := RecordBlock(rec);
    assert b == "|" + (j + "|" + comp);
    assert Clean(fs[10]);
    assert Trimmed(Strip(comp));
    if comp == [] {
      assert b[|b| - 1] == '|';
    } else {
      assert b[|b| - 1] == comp[|comp| - 1];
    }
  }

  /** A record's block splits back into its fields. */
  lemma {:induction false} SegmentsOfRecordBlock(rec: Record)
    requires CleanFields(rec)
    ensures Segments(RecordBlock(rec)) == Fields(rec)
  {
    var fs := Fields(rec);
    var b := RecordBlock(rec);
    assert Strip(b) == b by {
      TrimmedBlock(rec);
      assert [] + b + [] == b;
      StripUnique([], b, []);
    }
    assert Tail1(b) == Join("|", fs);
    assert Split(Join("|", fs), "|") == fs by {
      forall k | 0 <= k < |fs|
        ensures '|' !in fs[k]
      {
        assert Clean(fs[k]);
      }
      JoinThenSplit(fs, '|');
    }
  }

  /** With exactly one middle segment, a clean one, the discipline is that segment. */
  lemma {:induction false} DisciplineOfSingleMiddle(segs: seq<string>)
    requires |segs| == MinSegments + 3 && Clean(segs[MinSegments])
    ensures Discipline(segs) == segs[MinSegments]
  {
    var d := segs[MinSegments];
    DisciplineSegmentsAreMiddle(segs);
    assert DisciplineSegments(segs) == [d];
    RejoinIsStrip(d);
    assert Discipline(segs) == Join(" ", [Rejoin(d)]);
  }

  /** A record's fields read back as the record. */
  lemma {:induction false} RecordOfFields(rec: Record)
    requires CleanFields(rec)
    ensures RecordOf(Fields(rec)) == rec
  {
    var fs := Fields(rec);
    assert Clean(fs[8]);
    DisciplineOfSingleMiddle(fs);
    var r := RecordOf(fs);
    assert r.discipline == rec.discipline;
    assert Clean(fs[0]) && Clean(fs[1]) && Clean(fs[2]) && Clean(fs[3]);
    assert Clean(fs[4]) && Clean(fs[5]) && Clean(fs[6]) && Clean(fs[7]);
    assert Clean(fs[9]) && Clean(fs[10]);
  }

  /** Reading a record back from the block it formats to gives the record,
      for fields without `|` and without surrounding blanks. */
  lemma {:induction false} BlockRoundTrip(rec: Record)
    requires CleanFields(rec)
    ensures BlockToRecord(RecordBlock(rec)) == Some(rec)
  {
    SegmentsOfRecordBlock(rec);
    RecordOfFields(rec);
  }

  /** In a block that opens with a blank and a `|`, the first segment runs up
      to the next `|`. */
  lemma {:induction false} FirstSegmentUpTo(b: string, q: nat)
    requires 2 <= q < |b| && IsSpace(b[0]) && b[1] == '|' && b[q] == '|' && '|' !in b[2..q]
    ensures Segments(b)[0] == b[2..q]
  {
    StripKeepsNonBlank(b, 1);
    StripKeepsNonBlank(b, q);
    StripSlice(b);
    assert StripStart(b) == 1;
    var e := StripEnd(b);
    Tail1OfSlice(b, 1, e);
    SliceAround(b, 2, q, e);
    SplitAfterPrefix(b[2..q], '|', b[q + 1..e]);
  }

  /** The first segment of a block opened by an EKP line. */
  lemma {:induction false} OpenedBlockFirstSegment(number: string, x: string)
    requires |number| == EkpLength && StartsWithEkp(number)
    ensures Segments(" | " + number + " | " + x)[0] == " " + number + " "
  {
    var b := " | " + number + " | " + x;
    var p := " " + number + " ";
    assert b[2..20] == p;
    assert '|' !in p by {
      forall k | 0 <= k < |p|
        ensures p[k] != '|'
      {
        if 1 <= k <= EkpLength { assert p[k] == number[k - 1]; }
      }
    }
    FirstSegmentUpTo(b, 20);
  }

  /** The block an EKP line opens keeps the line's first 16 characters as its
      EKP field, whatever the block goes on to hold. Every such block reads
      ` | number | x`: one followed by more output is
      `OpenBlock(number, rest) + tail` with `x == rest + "\n" + tail`, and the
      last block of the output, whose final newline `strip()` removed, is
      ` | number | rest`. */
  lemma {:induction false} OpenedBlockKeepsEkp(line: string, x: string)
    requires StartsWithEkp(line)
    ensures var number := line[..EkpLength];
      var r := BlockToRecord(" | " + number + " | " + x);
      r.Some? ==> r.value.ekpNumber == number
  {
    var number := line[..EkpLength];
    var b := " | " + number + " | " + x;
    OpenedBlockFirstSegment(number, x);
    assert Trimmed(number) by {
      assert IsDigit(number[0]) && IsDigit(number[EkpLength - 1]);
    }
    StripUnique(" ", number, " ");
    if BlockToRecord(b).Some? {
      FieldMapping(b);
    }
  }

  /** A block separator at `m` that is not preceded by a line break, with
      something non-blank before it (at `h`) and after it (at `g`), opens a
      block of its own: the first part of what follows it up to the stripped
      end. */
  lemma {:induction false} BlocksAcross(s: string, h: nat, m: nat, g: nat)
    requires h < m && m + |BlockSeparator| <= g < |s|
    requires s[m..m + |BlockSeparator|] == BlockSeparator && s[m - 1] != '\n'
    requires !IsSpace(s[h]) && !IsSpace(s[g])
    ensures g < StripEnd(s)
    ensures Split(s[m + |BlockSeparator|..StripEnd(s)], BlockSeparator)[0] in Blocks(s)
  {
    StripAroundSeparator(s, h, m, g);
    PartAfterSeparator(Strip(s), s[StripStart(s)..m], s[m + |BlockSeparator|..StripEnd(s)]);
  }

  /** The stripped text of `BlocksAcross` is the part before the separator,
      the separator and the part after it. */
  lemma {:induction false} StripAroundSeparator(s: string, h: nat, m: nat, g: nat)
    requires h < m && m + |BlockSeparator| <= g < |s|
    requires s[m..m + |BlockSeparator|] == BlockSeparator && s[m - 1] != '\n'
    requires !IsSpace(s[h]) && !IsSpace(s[g])
    ensures var a := StripStart(s);
      var e := StripEnd(s);
      && a < m && g < e
      && Strip(s) == s[a..m] + BlockSeparator + s[m + |BlockSeparator|..e]
      && s[a..m][m - a - 1] !in BlockSeparator
  {
    StripKeepsNonBlank(s, h);
    StripKeepsNonBlank(s, g);
    CutAtSeparator(s, StripStart(s), m, StripEnd(s));
  }

  /** A slice with a separator inside it, not preceded by a line break. */
  lemma {:induction false} CutAtSeparator(s: string, a: nat, m: nat, e: nat)
    requires a < m && m + |BlockSeparator| <= e <= |s|
    requires s[m..m + |BlockSeparator|] == BlockSeparator && s[m - 1] != '\n'
    ensures s[a..e] == s[a..m] + BlockSeparator + s[m + |BlockSeparator|..e]
    ensures s[a..m][m - a - 1] !in BlockSeparator
  {
    SliceThree(s, a, m, m + |BlockSeparator|, e);
    assert s[a..m][m - a - 1] == s[m - 1];
  }

  /** The first part of what follows a separator is one of the parts, when the
      text before the separator does not end in a line break. */
  lemma {:induction false} PartAfterSeparator(st: string, left: string, right: string)
    requires st == left + BlockSeparator + right
    requires left != [] && left[|left| - 1] !in BlockSeparator
    ensures Split(right, BlockSeparator)[0] in Split(st, BlockSeparator)
  {
    SplitAround(left, BlockSeparator, right);
    var l := Split(left, BlockSeparator);
    assert (l + Split(right, BlockSeparator))[|l|] == Split(right, BlockSeparator)[0];
  }

  /** ` | number | ` holds no line break. */
  lemma {:induction false} EkpPrefixUnbroken(number: string)
    requires |number| == EkpLength && StartsWithEkp(number)
    ensures '\n' !in " | " + number + " | "
  {
    var p := " | " + number + " | ";
    forall k | 0 <= k < |p|
      ensures p[k] != '\n'
    {
      if 3 <= k < 3 + EkpLength { assert p[k] == number[k - 3]; }
    }
  }

  /** Text `y` after a block separator, starting with a line-break-free `p`
      and holding a non-blank beyond it, opens a block that starts with `p`,
      provided the separator's left neighbour is no line break and something
      non-blank comes before it. */
  lemma {:induction false} BlockAfterSeparator(x: string, y: string, p: string, h: nat, g: nat)
    requires h < |x| && !IsSpace(x[h]) && x[|x| - 1] != '\n'
    requires |p| <= g < |y| && !IsSpace(y[g]) && y[..|p|] == p && '\n' !in p
    ensures exists z :: p + z in Blocks(x + BlockSeparator + y)
  {
    var s := x + BlockSeparator + y;
    var m := |x|;
    var n := m + |BlockSeparator|;
    assert s[m..n] == BlockSeparator && s[m - 1] != '\n' && !IsSpace(s[h]) && !IsSpace(s[n + g]) by {
      assert s[m - 1] == x[|x| - 1] && s[h] == x[h] && s[n + g] == y[g];
    }
    BlocksAcross(s, h, m, n + g);
    var e := StripEnd(s);
    PrefixedFirstPart(x, y, p, e);
    assert p + Split(s[n..e][|p|..], BlockSeparator)[0] in Blocks(s);
  }

  /** After a separator, a line-break-free `p` in front of the text stays in
      front of the first part. */
  lemma {:induction false} PrefixedFirstPart(x: string, y: string, p: string, e: nat)
    requires |x| + |BlockSeparator| + |p| <= e <= |x| + |BlockSeparator| + |y|
    requires y[..|p|] == p && '\n' !in p
    ensures var right := (x + BlockSeparator + y)[|x| + |BlockSeparator|..e];
      Split(right, BlockSeparator)[0] == p + Split(right[|p|..], BlockSeparator)[0]
  {
    var u := x + BlockSeparator;
    var right := (u + y)[|u|..e];
    assert right == p + right[|p|..] by {
      SliceOfSecond(u, y, e);
      assert right[..|p|] == y[..|p|];
    }
    SplitFirstAfterFree(p, BlockSeparator, right[|p|..]);
  }

  /** The text appended for an EKP line (the closing marker, the separator
      and the opening row) puts a block that starts ` | number | ` into
      `Blocks`, whatever was emitted before it and whatever follows, as long
      as something non-blank follows `number | ` (the rest of the line, or
      later output). */
  lemma {:induction false} EmittedBlockOpens(pre: string, name: string, composition: string, line: string, post: string)
    requires StartsWithEkp(line) && Trimmed(composition)
    requires Strip(line[EkpLength..]) != [] || !AllSpace(post)
    ensures var number := line[..EkpLength];
      var out := pre + CloseBlock(name, composition) + OpenBlock(number, Strip(line[EkpLength..])) + post;
      exists x :: " | " + number + " | " + x in Blocks(out)
  {
    var number := line[..EkpLength];
    var rest := Strip(line[EkpLength..]);
    var open := OpenBlock(number, rest);
    var x := pre + " | " + name + " | " + composition;
    var y := open + post;
    var p := " | " + number + " | ";
    assert pre + CloseBlock(name, composition) + open + post == x + BlockSeparator + y;
    assert x[|x| - 1] == (if composition == [] then ' ' else composition[|composition| - 1]);
    assert x[|pre| + 1] == '|';
    assert y[..|p|] == p;
    var g: nat;
    if rest != [] {
      g := |p| + |rest| - 1;
      assert y[g] == rest[|rest| - 1];
    } else {
      var i :| 0 <= i < |post| && !IsSpace(post[i]);
      g := |open| + i;
      assert y[g] == post[i];
    }
    EkpPrefixUnbroken(number);
    BlockAfterSeparator(x, y, p, |pre| + 1, g);
  }

  /** Block opening, end to end: an EKP line met while active leaves in the
      output a block ` | number | x`, numbered by the line's first 16
      characters, whose record (if the block is kept) is in `parse_db`'s result
      with that EKP number. */
  lemma {:induction false} EkpLineKeepsEkp(cfg: Config, page: seq<string>, raw: string, st: ParserState, post: string)
    requires IsData(cfg, st, raw) && StartsWithEkp(Strip(raw)) && Trimmed(st.sportComposition)
    requires Strip(Strip(raw)[EkpLength..]) != [] || !AllSpace(post)
    ensures ClassifyLine(cfg, page, raw, st).Ok?
    ensures var line := Strip(raw);
      var number := line[..EkpLength];
      var out := ClassifyLine(cfg, page, raw, st).value.out + post;
      exists x :: var blk := " | " + number + " | " + x;
        && blk in Blocks(out)
        && (BlockToRecord(blk).Some? ==>
              BlockToRecord(blk).value in Assemble(out) && BlockToRecord(blk).value.ekpNumber == number)
  {
    var line := Strip(raw);
    var number := line[..EkpLength];
    var rest := Strip(line[EkpLength..]);
    EkpLineOpensBlock(cfg, page, raw, st);
    var out := st.out + CloseBlock(st.sportName, st.sportComposition) + OpenBlock(number, rest) + post;
    assert ClassifyLine(cfg, page, raw, st).value.out + post == out;
    EmittedBlockOpens(st.out, st.sportName, st.sportComposition, line, post);
    var x :| " | " + number + " | " + x in Blocks(out);
    var blk := " | " + number + " | " + x;
    OpenedBlockKeepsEkp(line, x);
    if BlockToRecord(blk).Some? {
      var j :| 0 <= j < |Blocks(out)| && Blocks(out)[j] == blk;
      AssembleExact(out, BlockToRecord(blk).value);
    }
  }

  lemma {:induction false} CountAbsent(x: string, c: char)
    requires c !in x
    ensures CountChar(x, c) == 0
    decreases |x|
  {
    if |x| > 0 {
      CountAbsent(x[1..], c);
    }
  }

  /** A block with fewer than seven `|` after its first character is skipped. */
  lemma {:induction false} FewBarsSkipped(block: string, bars: string)
    requires 1 <= |bars| && |block| <= |bars| && block == bars[..|block|] && bars[0] == '|'
    requires CountChar(bars[1..], '|') < MinSegments - 1
    ensures BlockToRecord(block).None?
  {
    if block != [] {
      assert block[0] == '|';
      StripKeepsNonBlank(block, 0);
      var e := StripEnd(block);
      Tail1OfSlice(block, 0, e);
      FewBarsInPrefix(block, bars, e);
    }
  }

  /** The `|` counted after the first character of a prefix of `bars`. */
  lemma {:induction false} FewBarsInPrefix(block: string, bars: string, e: nat)
    requires 1 <= e <= |block| <= |bars| && block == bars[..|block|]
    ensures CountChar(block[1..e], '|') <= CountChar(bars[1..], '|')
  {
    assert block[1..e] == bars[1..][..e - 1];
    CountSlice(bars[1..], 0, e - 1, '|');
  }

  /** The first block of a string that opens with one blank and a non-blank
      ends no later than a separator at `m`. */
  lemma {:induction false} FirstBlockBound(s: string, m: nat)
    requires |s| >= 2 && IsSpace(s[0]) && !IsSpace(s[1])
    requires 1 <= m && m + 3 <= |s| && s[m..m + 3] == BlockSeparator
    ensures var first := Blocks(s)[0];
      1 + |first| <= m + 3 && first == s[1..1 + |first|]
  {
    StripFromSecond(s);
    var e := StripEnd(s);
    SplitFirstPart(s[1..e], BlockSeparator, m - 1);
    FirstPartInSlice(s, e, m, Blocks(s)[0]);
  }

  /** `strip()` of a string opening with one blank and a non-blank starts at
      index 1. */
  lemma {:induction false} StripFromSecond(s: string)
    requires |s| >= 2 && IsSpace(s[0]) && !IsSpace(s[1])
    ensures 1 < StripEnd(s) && Strip(s) == s[1..StripEnd(s)]
  {
    StripKeepsNonBlank(s, 1);
    StripSlice(s);
    assert StripStart(s) == 1;
  }

  /** The slicing behind `FirstBlockBound`: a prefix of `s[1..e]` that ends no
      later than a separator inside it is a slice of `s` ending by `m + 3`. */
  lemma {:induction false} FirstPartInSlice(s: string, e: nat, m: nat, first: string)
    requires 1 <= m && m + 3 <= |s| && s[m..m + 3] == BlockSeparator && 1 <= e <= |s|
    requires |first| <= e - 1 && first == s[1..e][..|first|]
    requires m - 1 + 3 <= e - 1 && s[1..e][m - 1..m - 1 + 3] == BlockSeparator ==> |first| <= m - 1
    ensures 1 + |first| <= m + 3 && first == s[1..1 + |first|]
  {
    if e >= m + 3 {
      SliceOfSlice(s, 1, e, m - 1, m + 2);
    }
    SliceOfSlice(s, 1, e, 0, |first|);
  }

  /** The closing marker carries exactly one `|` after its leading one. */
  lemma {:induction false} MarkerBars(name: string, composition: string, rest: string)
    requires '|' !in name && '|' !in composition
    ensures var s := " | " + name + " | " + composition + BlockSeparator + rest;
      var m := 6 + |name| + |composition|;
      && m + 3 <= |s| && s[m..m + 3] == BlockSeparator
      && s[1] == '|' && CountChar(s[2..m + 3], '|') == 1
  {
    var p := " " + name + " ";
    var q := " " + composition + BlockSeparator;
    var s := " | " + name + " | " + composition + BlockSeparator + rest;
    var m := 6 + |name| + |composition|;
    assert s[2..m + 3] == p + "|" + q;
    CountAbsent(p, '|');
    CountAbsent(q, '|');
    CountConcat(p, "|", '|');
    CountConcat(p + "|", q, '|');
  }

  /** A skipped first block contributes nothing. */
  lemma {:induction false} CollectSkipsHead<T>(parse: string -> Option<T>, blocks: seq<string>)
    requires blocks != [] && parse(blocks[0]).None?
    ensures Collect(parse, blocks) == Collect(parse, blocks[1..])
  {
  }

  /** When nothing was emitted before the first EKP line, the output opens
      with the closing marker that line appends, ` | name | composition`; that
      block has two segments and never yields a record. (A row emitted before
      it shares the block and can make it a record: see
      `RowBeforeMarkerYieldsRecord`.) */
  lemma {:induction false} LeadingMarkerDropped(name: string, composition: string, rest: string)
    requires '|' !in name && '|' !in composition
    ensures var s := CloseBlock(name, composition) + rest;
      Assemble(s) == Collect(BlockToRecord, Blocks(s)[1..])
  {
    var s := " | " + name + " | " + composition + BlockSeparator + rest;
    assert CloseBlock(name, composition) + rest == s;
    var m := 6 + |name| + |composition|;
    MarkerBars(name, composition, rest);
    assert s[0] == ' ';
    FirstBlockBound(s, m);
    var bars := s[1..m + 3];
    assert bars[1..] == s[2..m + 3];
    var first := Blocks(s)[0];
    assert first == bars[..|first|];
    FewBarsSkipped(first, bars);
    CollectSkipsHead(BlockToRecord, Blocks(s));
  }

  /** A lone data row is a single block. */
  lemma {:induction false} DataRowBlocks(row: string)
    requires row != [] && Trimmed(row) && '\n' !in row
    ensures Blocks(DataRow(row)) == ["| " + row]
  {
    DataRowStripped(row);
    BarRowUnbroken(row);
    SplitWithoutSeparatorStart("| " + row, BlockSeparator);
  }

  /** Stripping a data row leaves the bar and the row. */
  lemma {:induction false} DataRowStripped(row: string)
    requires row != [] && Trimmed(row)
    ensures Strip(DataRow(row)) == "| " + row
  {
    var t := "| " + row;
    assert DataRow(row) == " " + t + "\n";
    assert t[|t| - 1] == row[|row| - 1];
    StripUnique(" ", t, "\n");
  }

  /** A bar in front of a row free of line breaks adds none. */
  lemma {:induction false} BarRowUnbroken(row: string)
    requires '\n' !in row
    ensures '\n' !in "| " + row
  {
    var t := "| " + row;
    forall k | 0 <= k < |t|
      ensures t[k] != '\n'
    {
      if k >= 2 { assert t[k] == row[k - 2]; }
    }
  }

  /** A block that is a bar followed by a trimmed row with seven `|` is kept. */
  lemma {:induction false} BarRowKept(row: string)
    requires row != [] && Trimmed(row) && CountChar(row, '|') >= MinSegments - 1
    ensures BlockToRecord("| " + row).Some?
  {
    var t := "| " + row;
    BarRowStripped(row);
    var u := Tail1(Strip(t));
    assert u == [' '] + row;
    CountCons(' ', row, '|');
    assert CountChar(u, '|') >= MinSegments - 1;
  }

  lemma {:induction false} BarRowStripped(row: string)
    requires row != [] && Trimmed(row)
    ensures Strip("| " + row) == "| " + row
  {
    var t := "| " + row;
    assert [] + t + [] == t;
    assert Trimmed(t) by {
      assert t[|t| - 1] == row[|row| - 1];
    }
    StripUnique([], t, []);
  }

  /** A data row emitted with no EKP line after it is a block of its own, and
      with seven `|` in it that block yields a record: the number of records
      is not bounded by the number of EKP lines. (When an EKP line follows, the
      row shares the first block with the closing marker instead: see
      `RowBeforeMarkerYieldsRecord`.) */
  lemma {:induction false} DataRowAloneYieldsRecord(row: string)
    requires Trimmed(row) && '\n' !in row && CountChar(row, '|') >= MinSegments - 1
    ensures |Assemble(DataRow(row))| == 1
  {
    assert row != [];
    DataRowBlocks(row);
    BarRowKept(row);
    assert Skipped(BlockToRecord, ["| " + row]) == 0;
  }

  /** A data row emitted before the first EKP line shares the first block with
      the closing marker that line appends; with five `|` in the row that block
      is kept and its record comes first in the result, so the marker block is
      not always dropped. */
  lemma {:induction false} RowBeforeMarkerYieldsRecord(row: string, name: string, composition: string, rest: string)
    requires CountChar(row, '|') >= MinSegments - 3
    requires '\n' !in row && '\n' !in name && '\n' !in composition
    requires composition != [] && !IsSpace(composition[|composition| - 1])
    ensures var out := DataRow(row) + CloseBlock(name, composition) + rest;
      && Blocks(out)[0] == "| " + row + "\n | " + name + " | " + composition
      && BlockToRecord(Blocks(out)[0]).Some?
      && Assemble(out) != []
      && Assemble(out)[0] == BlockToRecord(Blocks(out)[0]).value
  {
    var out := DataRow(row) + CloseBlock(name, composition) + rest;
    RowMarkerFirstBlock(row, name, composition, rest);
    RowMarkerBlockKept(row, name, composition);
    var blocks := Blocks(out);
    assert Collect(BlockToRecord, blocks)
      == [BlockToRecord(blocks[0]).value] + Collect(BlockToRecord, blocks[1..]);
  }

  /** The first block of a data row followed by the closing marker runs from
      the row's `|` to the end of the marker. */
  lemma {:induction false} RowMarkerFirstBlock(row: string, name: string, composition: string, rest: string)
    requires '\n' !in row && '\n' !in name && '\n' !in composition
    requires composition != [] && !IsSpace(composition[|composition| - 1])
    ensures Blocks(DataRow(row) + CloseBlock(name, composition) + rest)[0]
      == "| " + row + "\n | " + name + " | " + composition
  {
    var a := "| " + row;
    var b := " | " + name + " | " + composition;
    assert DataRow(row) + CloseBlock(name, composition) + rest == " " + a + "\n" + b + BlockSeparator + rest;
    assert "| " + row + "\n | " + name + " | " + composition == a + "\n" + b;
    assert '\n' !in a && '\n' !in b by {
      assert forall k :: 0 <= k < |a| ==> a[k] == '|' || a[k] == ' ' || a[k] in row;
      assert forall k :: 0 <= k < |b| ==> b[k] == '|' || b[k] == ' ' || b[k] in name || b[k] in composition;
    }
    assert b[|b| - 1] == composition[|composition| - 1];
    TwoLineFirstBlock(a, b, rest);
  }

  /** Two separator-free lines after a leading blank, then a block separator,
      make the first block. */
  lemma {:induction false} TwoLineFirstBlock(a: string, b: string, rest: string)
    requires a != [] && !IsSpace(a[0]) && '\n' !in a
    requires |b| >= 2 && !IsSpace(b[|b| - 1]) && '\n' !in b
    ensures Blocks(" " + a + "\n" + b + BlockSeparator + rest)[0] == a + "\n" + b
  {
    var c := a + "\n" + b;
    assert !IsSpace(c[0]) && !IsSpace(c[|c| - 1]) && |c| == |a| + 1 + |b| by {
      assert c[0] == a[0] && c[|c| - 1] == b[|b| - 1];
    }
    assert " " + a + "\n" + b + BlockSeparator + rest == " " + c + BlockSeparator + rest;
    var st := Strip(" " + c + BlockSeparator + rest);
    StripBeforeSeparator(c, rest);
    TwoLineFirstPart(st, a, b);
  }

  /** `TwoLineFirstBlock` once stripped: the two lines, then nothing or a
      separator. */
  lemma {:induction false} TwoLineFirstPart(st: string, a: string, b: string)
    requires '\n' !in a && '\n' !in b && |b| >= 2
    requires var n := |a| + 1 + |b|;
      && |st| >= n && st[..n] == a + "\n" + b
      && (|st| == n || (|st| >= n + |BlockSeparator| && st[n..n + |BlockSeparator|] == BlockSeparator))
    ensures Split(st, BlockSeparator)[0] == a + "\n" + b
  {
    var n := |a| + 1 + |b|;
    var tail := st[n..];
    assert st == a + "\n" + b + tail;
    assert tail == [] || tail[..|BlockSeparator|] == BlockSeparator;
    MarkerFirstBlock(a, b, tail);
  }

  /** A blank, then text `c` with non-blank ends, then a block separator:
      `strip()` keeps `c` whole, followed by either nothing or the separator. */
  lemma {:induction false} StripBeforeSeparator(c: string, rest: string)
    requires c != [] && !IsSpace(c[0]) && !IsSpace(c[|c| - 1])
    ensures var st := Strip(" " + c + BlockSeparator + rest);
      && |st| >= |c| && st[..|c|] == c
      && (|st| == |c| || (|st| >= |c| + |BlockSeparator| && st[|c|..|c| + |BlockSeparator|] == BlockSeparator))
  {
    var out := " " + c + BlockSeparator + rest;
    var n := |c| + 1;
    assert out[1] == c[0] && out[n - 1] == c[|c| - 1];
    assert out[n] == '\n' && out[n + 1] == '\n' && out[n + 2] == '\n';
    StripKeepsNonBlank(out, 1);
    StripKeepsNonBlank(out, n - 1);
    assert StripStart(out) == 1;
    var e := StripEnd(out);
    assert !IsSpace(out[e - 1]) by {
      assert Strip(out)[|Strip(out)| - 1] == out[e - 1];
    }
    assert e == n || e >= n + 3;
    StrippedCore(out, c, rest, e);
  }

  /** The slicing behind `StripBeforeSeparator`. */
  lemma {:induction false} StrippedCore(out: string, c: string, rest: string, e: nat)
    requires out == " " + c + BlockSeparator + rest
    requires e == |c| + 1 || |c| + 1 + |BlockSeparator| <= e <= |out|
    ensures var st := out[1..e];
      && |st| >= |c| && st[..|c|] == c
      && (|st| == |c| || (|st| >= |c| + |BlockSeparator| && st[|c|..|c| + |BlockSeparator|] == BlockSeparator))
  {
    SliceOfSlice(out, 1, e, 0, |c|);
    assert out[1..1 + |c|] == c;
    if e > |c| + 1 {
      SliceOfSlice(out, 1, e, |c|, |c| + |BlockSeparator|);
      assert out[1 + |c|..1 + |c| + |BlockSeparator|] == BlockSeparator;
    }
  }

  /** Text with one line break in it, followed by nothing or by a block
      separator, is the whole first part of the split. */
  lemma {:induction false} MarkerFirstBlock(a: string, b: string, tail: string)
    requires '\n' !in a && '\n' !in b && |b| >= 2
    requires tail == [] || (|tail| >= |BlockSeparator| && tail[..|BlockSeparator|] == BlockSeparator)
    ensures Split(a + "\n" + b + tail, BlockSeparator)[0] == a + "\n" + b
  {
    var u := "\n" + b + tail;
    assert a + "\n" + b + tail == a + u;
    SplitFirstAfterFree(a, BlockSeparator, u);
    LineBreakThenFree(b, tail);
    if tail != [] {
      SeparatorFirstPartEmpty(tail);
    }
  }

  /** A single line break before separator-free text does not end the first
      part. */
  lemma {:induction false} LineBreakThenFree(b: string, tail: string)
    requires '\n' !in b && |b| >= 2
    ensures Split("\n" + b + tail, BlockSeparator)[0] == "\n" + b + Split(tail, BlockSeparator)[0]
  {
    var u := "\n" + b + tail;
    var x := Split(tail, BlockSeparator)[0];
    assert Split(u[1..], BlockSeparator)[0] == b + x by {
      assert u[1..] == b + tail;
      SplitFirstAfterFree(b, BlockSeparator, tail);
    }
    assert Split(u, BlockSeparator)[0] == [u[0]] + Split(u[1..], BlockSeparator)[0] by {
      assert u[..|BlockSeparator|] != BlockSeparator by {
        assert u[1] == b[0];
        assert b[0] in b;
      }
      SplitStep(u, BlockSeparator);
    }
    assert [u[0]] + (b + x) == "\n" + b + x;
  }

  /** A string that starts with the separator has an empty first part. */
  lemma {:induction false} SeparatorFirstPartEmpty(t: string)
    requires |t| >= |BlockSeparator| && t[..|BlockSeparator|] == BlockSeparator
    ensures Split(t, BlockSeparator)[0] == ""
  {
  }

  /** A data row followed by the closing marker, with five `|` in the row,
      makes a block that is kept. */
  lemma {:induction false} RowMarkerBlockKept(row: string, name: string, composition: string)
    requires CountChar(row, '|') >= MinSegments - 3
    requires composition != [] && !IsSpace(composition[|composition| - 1])
    ensures BlockToRecord("| " + row + "\n | " + name + " | " + composition).Some?
  {
    var p := " " + row + "\n ";
    var q := " " + name + " ";
    var c := " " + composition;
    var t := p + "|" + q + "|" + c;
    var b := "|" + t;
    assert b == "| " + row + "\n | " + name + " | " + composition;
    assert b[|b| - 1] == composition[|composition| - 1];
    BarOpenedKept(t);
    RowAndMarkerBars(row, name, composition);
  }

  /** A block `|` + `t` ending in a non-blank reads `t` as its segment text. */
  lemma {:induction false} BarOpenedKept(t: string)
    requires t != [] && !IsSpace(t[|t| - 1])
    ensures Tail1(Strip("|" + t)) == t
  {
    var b := "|" + t;
    assert b[|b| - 1] == t[|t| - 1];
    assert [] + b + [] == b;
    StripUnique([], b, []);
  }

  /** A row followed by the closing marker carries two `|` more than the row. */
  lemma {:induction false} RowAndMarkerBars(row: string, name: string, composition: string)
    ensures var p := " " + row + "\n ";
      var q := " " + name + " ";
      var c := " " + composition;
      CountChar(p + "|" + q + "|" + c, '|') >= CountChar(row, '|') + 2
  {
    var p := " " + row + "\n ";
    var q := " " + name + " ";
    var c := " " + composition;
    CountCons(' ', row + "\n ", '|');
    assert [' '] + (row + "\n ") == p;
    CountConcat(row, "\n ", '|');
    CountConcat(p, "|", '|');
    CountConcat(p + "|", q, '|');
    CountConcat(p + "|" + q, "|", '|');
    CountConcat(p + "|" + q + "|", c, '|');
  }

  /** Nothing accumulated, nothing returned. */
  lemma {:induction false} EmptyOutputNoRecords()
    ensures Assemble("") == []
  {
    assert Strip("") == "";
    assert Blocks("") == [""];
    assert Segments("") == [""];
  }
}
