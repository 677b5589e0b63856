/**
 * The input rules of jhonsonX.cpp: LoadFile reads an edge file and
 * LoadSourceInfo a source file, each either in DIMACS form (a `p edge`
 * header, `e` records, 1-based node ids) or in a plain form (a bare header,
 * bare records, 0-based ids). Lines arrive already split into tokens; the
 * character-level lexing of fgets/sscanf is not part of this model.
 */
module Loaders {
  import opened Wrappers

  datatype Token = Word(text: string) | Num(value: int)

  type Line = seq<Token>

  datatype Format = Dimacs | Plain

  /** The first non-comment line: its format and its two counts. */
  datatype Header = Header(format: Format, first: int, second: int)

  /** The three fatal conditions, "wrong format #1", the count check and "wrong format #3". */
  datatype LoadError = MalformedHeader | NonPositiveCounts | RecordCountMismatch

  /** One edge record, with 0-based endpoints. */
  datatype EdgeRecord = EdgeRecord(u: int, v: int, w: int)

  /** What LoadFile hands back: node_num, edge_num, edges_flat and weights. */
  datatype EdgeFile = EdgeFile(nodeNum: int, edgeNum: int, edgesFlat: seq<int>, weights: seq<int>)

  /** What LoadSourceInfo hands back. */
  datatype SourceInfo = SourceInfo(sources: seq<int>, boundaries: seq<int>)

  // ---------------------------------------------------------------------------
  // Line classification
  // ---------------------------------------------------------------------------

  /** The line's first character is c. */
  predicate StartsWith(line: Line, c: char)
  {
    |line| > 0 && line[0].Word? && |line[0].text| > 0 && line[0].text[0] == c
  }

  predicate IsComment(line: Line)
  {
    StartsWith(line, 'c')
  }

  /** `p edge %d %d` when the line starts with 'p', `%d %d` otherwise. */
  function ReadHeader(line: Line): (r: Option<Header>)
    ensures r.Some? ==> !IsComment(line)
    ensures r.Some? ==> (r.value.format == Dimacs <==> StartsWith(line, 'p'))
  {
    if StartsWith(line, 'p') then
      if |line| >= 4 && line[0] == Word("p") && line[1] == Word("edge") && line[2].Num? && line[3].Num?
      then Some(Header(Dimacs, line[2].value, line[3].value))
      else None
    else if |line| >= 2 && line[0].Num? && line[1].Num?
    then Some(Header(Plain, line[0].value, line[1].value))
    else None
  }

  /** Both loaders demand a positive first count and a non-negative second one. */
  predicate CountsAccepted(h: Header)
  {
    h.first > 0 && h.second >= 0
  }

  /** An `e %d %d %d` line in DIMACS form (endpoints shifted to 0-based), `%d %d %d` in plain form. */
  function ReadEdgeRecord(format: Format, line: Line): (r: Option<EdgeRecord>)
    ensures r.Some? ==> !IsComment(line)
  {
    match format
    case Dimacs =>
      if |line| >= 4 && line[0] == Word("e") && line[1].Num? && line[2].Num? && line[3].Num?
      then Some(EdgeRecord(line[1].value - 1, line[2].value - 1, line[3].value))
      else None
    case Plain =>
      if |line| >= 3 && line[0].Num? && line[1].Num? && line[2].Num?
      then Some(EdgeRecord(line[0].value, line[1].value, line[2].value))
      else None
  }

  /** An `e %d` line in DIMACS form (shifted to 0-based), `%d` in plain form. */
  function ReadLabel(format: Format, line: Line): (r: Option<int>)
    ensures r.Some? ==> !IsComment(line)
  {
    match format
    case Dimacs =>
      if |line| >= 2 && line[0] == Word("e") && line[1].Num? then Some(line[1].value - 1) else None
    case Plain =>
      if |line| >= 1 && line[0].Num? then Some(line[0].value) else None
  }

  function OptionToSeq<T>(o: Option<T>): seq<T>
  {
    match o
    case Some(x) => [x]
    case None => []
  }

  // ---------------------------------------------------------------------------
  // Whole-file readings
  // ---------------------------------------------------------------------------

  /** The lines that are not comments, in order. */
  function NonComment(lines: seq<Line>): (r: seq<Line>)
    ensures forall i :: 0 <= i < |r| ==> !IsComment(r[i])
  {
    if |lines| == 0 then []
    else NonComment(lines[..|lines| - 1])
         + (if IsComment(lines[|lines| - 1]) then [] else [lines[|lines| - 1]])
  }

  /** The records of the lines that read as edge records; the others are skipped. */
  function EdgeRecords(format: Format, lines: seq<Line>): seq<EdgeRecord>
  {
    if |lines| == 0 then []
    else EdgeRecords(format, lines[..|lines| - 1]) + OptionToSeq(ReadEdgeRecord(format, lines[|lines| - 1]))
  }

  /** The labels of the lines that read as labels; the others are skipped. */
  function LabelRecords(format: Format, lines: seq<Line>): seq<int>
  {
    if |lines| == 0 then []
    else LabelRecords(format, lines[..|lines| - 1]) + OptionToSeq(ReadLabel(format, lines[|lines| - 1]))
  }

  /** edges_flat: the endpoints of record e at positions 2e and 2e+1. */
  function EdgesFlat(recs: seq<EdgeRecord>): (r: seq<int>)
    ensures |r| == 2 * |recs|
    ensures forall e :: 0 <= e < |recs| ==> r[2 * e] == recs[e].u && r[2 * e + 1] == recs[e].v
  {
    if |recs| == 0 then []
    else EdgesFlat(recs[..|recs| - 1]) + [recs[|recs| - 1].u, recs[|recs| - 1].v]
  }

  /** weights: the weight of record e at position e. */
  function Weights(recs: seq<EdgeRecord>): (r: seq<int>)
    ensures |r| == |recs|
    ensures forall e :: 0 <= e < |recs| ==> r[e] == recs[e].w
  {
    if |recs| == 0 then []
    else Weights(recs[..|recs| - 1]) + [recs[|recs| - 1].w]
  }

  /**
   * The edge file as LoadFile reads it. The first non-comment line is the
   * header; the records are the later lines that parse. A file with no
   * header leaves the expected count at -1, so the final count check fails.
   */
  function LoadEdgeFile(lines: seq<Line>): (r: Result<EdgeFile, LoadError>)
    ensures r.Success? ==> r.value.nodeNum > 0 && r.value.edgeNum >= 0
    ensures r.Success? ==> |r.value.edgesFlat| == 2 * r.value.edgeNum && |r.value.weights| == r.value.edgeNum
  {
    var body := NonComment(lines);
    if |body| == 0 then Failure(RecordCountMismatch)
    else match ReadHeader(body[0])
      case None => Failure(MalformedHeader)
      case Some(h) =>
        if !CountsAccepted(h) then Failure(NonPositiveCounts)
        else
          var recs := EdgeRecords(h.format, body[1..]);
          if |recs| != h.second then Failure(RecordCountMismatch)
          else Success(EdgeFile(h.first, h.second, EdgesFlat(recs), Weights(recs)))
  }

  /**
   * The source file as LoadSourceInfo reads it: source_num + boundary_num
   * labels, the first source_num of them the sources and the rest the
   * boundaries.
   */
  function LoadSourceFile(lines: seq<Line>): (r: Result<SourceInfo, LoadError>)
    ensures r.Success? ==> |r.value.sources| > 0
  {
    var body := NonComment(lines);
    if |body| == 0 then Failure(RecordCountMismatch)
    else match ReadHeader(body[0])
      case None => Failure(MalformedHeader)
      case Some(h) =>
        if !CountsAccepted(h) then Failure(NonPositiveCounts)
        else
          var labels := LabelRecords(h.format, body[1..]);
          if |labels| != h.first + h.second then Failure(RecordCountMismatch)
          else Success(SourceInfo(labels[..h.first], labels[h.first..]))
  }

  // ---------------------------------------------------------------------------
  // Lemmas about the readings
  // ---------------------------------------------------------------------------

  lemma {:induction false} NonCommentConcat(a: seq<Line>, b: seq<Line>)
    ensures NonComment(a + b) == NonComment(a) + NonComment(b)
  {
    if |b| == 0 {
      assert a + b == a;
    } else {
      var b' := b[..|b| - 1];
      assert (a + b)[..|a + b| - 1] == a + b';
      NonCommentConcat(a, b');
    }
  }

  lemma NonCommentStep(lines: seq<Line>, k: int)
    requires 0 <= k < |lines|
    ensures NonComment(lines[..k + 1])
            == NonComment(lines[..k]) + (if IsComment(lines[k]) then [] else [lines[k]])
  {
    assert lines[..k + 1][..k] == lines[..k];
  }

  lemma EdgeRecordsSnoc(format: Format, xs: seq<Line>, l: Line)
    ensures EdgeRecords(format, xs + [l]) == EdgeRecords(format, xs) + OptionToSeq(ReadEdgeRecord(format, l))
  {
    assert (xs + [l])[..|xs|] == xs;
  }

  lemma LabelRecordsSnoc(format: Format, xs: seq<Line>, l: Line)
    ensures LabelRecords(format, xs + [l]) == LabelRecords(format, xs) + OptionToSeq(ReadLabel(format, l))
  {
    assert (xs + [l])[..|xs|] == xs;
  }

  /** A comment line anywhere in a file changes nothing about how either loader reads it. */
  lemma CommentLinesIgnored(pre: seq<Line>, c: Line, post: seq<Line>)
    requires IsComment(c)
    ensures LoadEdgeFile(pre + [c] + post) == LoadEdgeFile(pre + post)
    ensures LoadSourceFile(pre + [c] + post) == LoadSourceFile(pre + post)
  {
    NonCommentConcat(pre + [c], post);
    NonCommentConcat(pre, [c]);
    NonCommentConcat(pre, post);
    assert NonComment([c]) == NonComment([]) + [];
    assert NonComment(pre + [c] + post) == NonComment(pre + post);
  }

  /**
   * If the header's counts are refused no record is looked at: a node count
   * (or source count) at most 0, or an edge count (or boundary count) below
   * 0, fails both loaders with NonPositiveCounts whatever follows.
   */
  lemma NonPositiveCountsRejected(header: Line, rest: seq<Line>)
    requires ReadHeader(header).Some? && !CountsAccepted(ReadHeader(header).value)
    requires !IsComment(header)
    ensures LoadEdgeFile([header] + rest) == Failure(NonPositiveCounts)
    ensures LoadSourceFile([header] + rest) == Failure(NonPositiveCounts)
  {
    NonCommentConcat([header], rest);
    assert NonComment([header]) == NonComment([]) + [header];
  }

  /** A header that does not parse fails both loaders, whatever follows. */
  lemma MalformedHeaderRejected(header: Line, rest: seq<Line>)
    requires ReadHeader(header).None? && !IsComment(header)
    ensures LoadEdgeFile([header] + rest) == Failure(MalformedHeader)
    ensures LoadSourceFile([header] + rest) == Failure(MalformedHeader)
  {
    NonCommentConcat([header], rest);
    assert NonComment([header]) == NonComment([]) + [header];
  }

  // ---------------------------------------------------------------------------
  // Writing files that the loaders read back
  // ---------------------------------------------------------------------------

  function DimacsHeader(first: int, second: int): Line
  {
    [Word("p"), Word("edge"), Num(first), Num(second)]
  }

  function PlainHeader(first: int, second: int): Line
  {
    [Num(first), Num(second)]
  }

  /** A record as a line; DIMACS endpoints are written 1-based. */
  function RecordLine(format: Format, x: EdgeRecord): Line
  {
    match format
    case Dimacs => [Word("e"), Num(x.u + 1), Num(x.v + 1), Num(x.w)]
    case Plain => [Num(x.u), Num(x.v), Num(x.w)]
  }

  function LabelLine(format: Format, x: int): Line
  {
    match format
    case Dimacs => [Word("e"), Num(x + 1)]
    case Plain => [Num(x)]
  }

  function EdgeLines(format: Format, recs: seq<EdgeRecord>): seq<Line>
  {
    if |recs| == 0 then []
    else EdgeLines(format, recs[..|recs| - 1]) + [RecordLine(format, recs[|recs| - 1])]
  }

  function LabelLines(format: Format, labels: seq<int>): seq<Line>
  {
    if |labels| == 0 then []
    else LabelLines(format, labels[..|labels| - 1]) + [LabelLine(format, labels[|labels| - 1])]
  }

  function FileHeader(format: Format, first: int, second: int): Line
  {
    match format
    case Dimacs => DimacsHeader(first, second)
    case Plain => PlainHeader(first, second)
  }

  lemma {:induction false} EdgeLinesHaveNoComment(format: Format, recs: seq<EdgeRecord>)
    ensures NonComment(EdgeLines(format, recs)) == EdgeLines(format, recs)
  {
    if |recs| > 0 {
      var init := recs[..|recs| - 1];
      EdgeLinesHaveNoComment(format, init);
      var ls := EdgeLines(format, recs);
      assert ls[..|ls| - 1] == EdgeLines(format, init);
      assert !IsComment(ls[|ls| - 1]);
    }
  }

  lemma SnocSplit<T>(s: seq<T>)
    requires |s| > 0
    ensures s == s[..|s| - 1] + [s[|s| - 1]]
  {
  }

  /** A record written as a line reads back as the same record, in either format. */
  lemma RecordLineReadBack(format: Format, x: EdgeRecord)
    ensures ReadEdgeRecord(format, RecordLine(format, x)) == Some(x)
  {
    match format
    case Dimacs =>
      assert RecordLine(format, x)[0] == Word("e");
    case Plain =>
  }

  lemma {:induction false} EdgeLinesReadBack(format: Format, recs: seq<EdgeRecord>)
    ensures EdgeRecords(format, EdgeLines(format, recs)) == recs
  {
    if |recs| > 0 {
      var init, last := recs[..|recs| - 1], recs[|recs| - 1];
      EdgeLinesReadBack(format, init);
      EdgeRecordsSnoc(format, EdgeLines(format, init), RecordLine(format, last));
      RecordLineReadBack(format, last);
      calc {
        EdgeRecords(format, EdgeLines(format, recs));
        EdgeRecords(format, EdgeLines(format, init) + [RecordLine(format, last)]);
        EdgeRecords(format, EdgeLines(format, init)) + [last];
        { SnocSplit(recs); }
        recs;
      }
    }
  }

  lemma {:induction false} LabelLinesHaveNoComment(format: Format, labels: seq<int>)
    ensures NonComment(LabelLines(format, labels)) == LabelLines(format, labels)
  {
    if |labels| > 0 {
      var init := labels[..|labels| - 1];
      LabelLinesHaveNoComment(format, init);
      var ls := LabelLines(format, labels);
      assert ls[..|ls| - 1] == LabelLines(format, init);
      assert !IsComment(ls[|ls| - 1]);
    }
  }

  /** A label written as a line reads back as the same label, in either format. */
  lemma LabelLineReadBack(format: Format, x: int)
    ensures ReadLabel(format, LabelLine(format, x)) == Some(x)
  {
    match format
    case Dimacs =>
      assert LabelLine(format, x)[0] == Word("e");
    case Plain =>
  }

  lemma {:induction false} LabelLinesReadBack(format: Format, labels: seq<int>)
    ensures LabelRecords(format, LabelLines(format, labels)) == labels
  {
    if |labels| > 0 {
      var init, last := labels[..|labels| - 1], labels[|labels| - 1];
      LabelLinesReadBack(format, init);
      LabelRecordsSnoc(format, LabelLines(format, init), LabelLine(format, last));
      LabelLineReadBack(format, last);
      calc {
        LabelRecords(format, LabelLines(format, labels));
        LabelRecords(format, LabelLines(format, init) + [LabelLine(format, last)]);
        LabelRecords(format, LabelLines(format, init)) + [last];
        { SnocSplit(labels); }
        labels;
      }
    }
  }

  lemma HeaderReadBack(format: Format, first: int, second: int)
    ensures !IsComment(FileHeader(format, first, second))
    ensures ReadHeader(FileHeader(format, first, second)) == Some(Header(format, first, second))
  {
    match format
    case Dimacs =>
      assert DimacsHeader(first, second)[0] == Word("p");
    case Plain =>
  }

  /**
   * Which lines read as a record: exactly those that begin with the record
   * written out (`e` and three numbers in DIMACS form, three numbers in plain
   * form); whatever follows on the line is ignored.
   */
  lemma RecordLineExactly(format: Format, line: Line, x: EdgeRecord)
    ensures ReadEdgeRecord(format, line) == Some(x) <==> RecordLine(format, x) <= line
  {
  }

  /** Which lines read as a label: exactly those that begin with the label written out. */
  lemma LabelLineExactly(format: Format, line: Line, x: int)
    ensures ReadLabel(format, line) == Some(x) <==> LabelLine(format, x) <= line
  {
  }

  /** Which lines read as a header: exactly those that begin with `p edge` and two numbers, or with two numbers. */
  lemma HeaderLineExactly(line: Line, h: Header)
    ensures ReadHeader(line) == Some(h) <==> FileHeader(h.format, h.first, h.second) <= line
  {
  }

  lemma {:induction false} EdgeRecordsConcat(format: Format, a: seq<Line>, b: seq<Line>)
    ensures EdgeRecords(format, a + b) == EdgeRecords(format, a) + EdgeRecords(format, b)
  {
    if |b| == 0 {
      assert a + b == a;
    } else {
      var b' := b[..|b| - 1];
      assert (a + b)[..|a + b| - 1] == a + b';
      EdgeRecordsConcat(format, a, b');
    }
  }

  lemma {:induction false} LabelRecordsConcat(format: Format, a: seq<Line>, b: seq<Line>)
    ensures LabelRecords(format, a + b) == LabelRecords(format, a) + LabelRecords(format, b)
  {
    if |b| == 0 {
      assert a + b == a;
    } else {
      var b' := b[..|b| - 1];
      assert (a + b)[..|a + b| - 1] == a + b';
      LabelRecordsConcat(format, a, b');
    }
  }

  /** The non-comment lines of a file with one more non-comment line l after pre. */
  lemma BodyWithLine(pre: seq<Line>, l: Line, post: seq<Line>)
    requires !IsComment(l)
    ensures NonComment(pre + [l] + post) == NonComment(pre) + [l] + NonComment(post)
    ensures NonComment(pre + post) == NonComment(pre) + NonComment(post)
  {
    NonCommentConcat(pre + [l], post);
    NonCommentConcat(pre, [l]);
    NonCommentConcat(pre, post);
    assert NonComment([l]) == NonComment([]) + [l];
  }

  /** Taking a line out of a body after its header does not change the header, and leaves body[1..] split around it. */
  lemma BodyTail(a: seq<Line>, l: Line, rest: seq<Line>)
    requires |a| > 0
    ensures (a + [l] + rest)[0] == a[0] && (a + rest)[0] == a[0]
    ensures (a + [l] + rest)[1..] == a[1..] + [l] + rest
    ensures (a + rest)[1..] == a[1..] + rest
  {
  }

  lemma RecordsWithoutUnread(format: Format, u: seq<Line>, l: Line, rest: seq<Line>)
    requires ReadEdgeRecord(format, l).None?
    ensures EdgeRecords(format, u + [l] + rest) == EdgeRecords(format, u + rest)
  {
    EdgeRecordsConcat(format, u + [l], rest);
    EdgeRecordsSnoc(format, u, l);
    EdgeRecordsConcat(format, u, rest);
  }

  lemma LabelsWithoutUnread(format: Format, u: seq<Line>, l: Line, rest: seq<Line>)
    requires ReadLabel(format, l).None?
    ensures LabelRecords(format, u + [l] + rest) == LabelRecords(format, u + rest)
  {
    LabelRecordsConcat(format, u + [l], rest);
    LabelRecordsSnoc(format, u, l);
    LabelRecordsConcat(format, u, rest);
  }

  /** LoadFile's reading depends only on the header line and on the records after it. */
  lemma SameEdgeReading(x: seq<Line>, y: seq<Line>)
    requires |NonComment(x)| > 0 && |NonComment(y)| > 0 && NonComment(x)[0] == NonComment(y)[0]
    requires ReadHeader(NonComment(x)[0]).Some? ==>
               var format := ReadHeader(NonComment(x)[0]).value.format;
               EdgeRecords(format, NonComment(x)[1..]) == EdgeRecords(format, NonComment(y)[1..])
    ensures LoadEdgeFile(x) == LoadEdgeFile(y)
  {
  }

  /** LoadSourceInfo's reading depends only on the header line and on the labels after it. */
  lemma SameSourceReading(x: seq<Line>, y: seq<Line>)
    requires |NonComment(x)| > 0 && |NonComment(y)| > 0 && NonComment(x)[0] == NonComment(y)[0]
    requires ReadHeader(NonComment(x)[0]).Some? ==>
               var format := ReadHeader(NonComment(x)[0]).value.format;
               LabelRecords(format, NonComment(x)[1..]) == LabelRecords(format, NonComment(y)[1..])
    ensures LoadSourceFile(x) == LoadSourceFile(y)
  {
  }

  /**
   * After the header, a line that does not read as a record is skipped: taking
   * it out of the file changes nothing about how LoadFile reads it.
   */
  lemma UnreadRecordLineSkipped(pre: seq<Line>, l: Line, post: seq<Line>)
    requires |NonComment(pre)| > 0 && ReadHeader(NonComment(pre)[0]).Some?
    requires ReadEdgeRecord(ReadHeader(NonComment(pre)[0]).value.format, l).None?
    ensures LoadEdgeFile(pre + [l] + post) == LoadEdgeFile(pre + post)
  {
    if IsComment(l) {
      CommentLinesIgnored(pre, l, post);
    } else {
      var a, rest := NonComment(pre), NonComment(post);
      BodyWithLine(pre, l, post);
      BodyTail(a, l, rest);
      RecordsWithoutUnread(ReadHeader(a[0]).value.format, a[1..], l, rest);
      SameEdgeReading(pre + [l] + post, pre + post);
    }
  }

  /**
   * After the header, a line that does not read as a label is skipped: taking
   * it out of the file changes nothing about how LoadSourceInfo reads it.
   */
  lemma UnreadLabelLineSkipped(pre: seq<Line>, l: Line, post: seq<Line>)
    requires |NonComment(pre)| > 0 && ReadHeader(NonComment(pre)[0]).Some?
    requires ReadLabel(ReadHeader(NonComment(pre)[0]).value.format, l).None?
    ensures LoadSourceFile(pre + [l] + post) == LoadSourceFile(pre + post)
  {
    if IsComment(l) {
      CommentLinesIgnored(pre, l, post);
    } else {
      var a, rest := NonComment(pre), NonComment(post);
      BodyWithLine(pre, l, post);
      BodyTail(a, l, rest);
      LabelsWithoutUnread(ReadHeader(a[0]).value.format, a[1..], l, rest);
      SameSourceReading(pre + [l] + post, pre + post);
    }
  }

  lemma HeaderThenBody(header: Line, body: seq<Line>)
    requires !IsComment(header) && NonComment(body) == body
    ensures NonComment([header] + body) == [header] + body
  {
    NonCommentConcat([header], body);
    assert NonComment([header]) == NonComment([]) + [header];
  }

  /**
   * A file whose header declares the number of records it holds loads back
   * exactly those records, in either format; with any other declared count
   * it fails with RecordCountMismatch.
   */
  lemma EdgeFileRoundTrip(format: Format, nodeNum: int, declared: int, recs: seq<EdgeRecord>)
    requires nodeNum > 0 && declared >= 0
    ensures declared == |recs| ==>
              LoadEdgeFile([FileHeader(format, nodeNum, declared)] + EdgeLines(format, recs))
              == Success(EdgeFile(nodeNum, |recs|, EdgesFlat(recs), Weights(recs)))
    ensures declared != |recs| ==>
              LoadEdgeFile([FileHeader(format, nodeNum, declared)] + EdgeLines(format, recs))
              == Failure(RecordCountMismatch)
  {
    var header := FileHeader(format, nodeNum, declared);
    var body := EdgeLines(format, recs);
    HeaderReadBack(format, nodeNum, declared);
    EdgeLinesHaveNoComment(format, recs);
    HeaderThenBody(header, body);
    EdgeLinesReadBack(format, recs);
    var all := NonComment([header] + body);
    assert all[0] == header && all[1..] == body;
    assert EdgeRecords(format, all[1..]) == recs;
  }

  /**
   * A source file holding the sources and then the boundaries, with a header
   * that declares both counts, loads back the same two lists.
   */
  lemma SourceFileRoundTrip(format: Format, sources: seq<int>, boundaries: seq<int>)
    requires |sources| > 0
    ensures LoadSourceFile([FileHeader(format, |sources|, |boundaries|)] + LabelLines(format, sources + boundaries))
            == Success(SourceInfo(sources, boundaries))
  {
    var labels := sources + boundaries;
    var header := FileHeader(format, |sources|, |boundaries|);
    var body := LabelLines(format, labels);
    HeaderReadBack(format, |sources|, |boundaries|);
    LabelLinesHaveNoComment(format, labels);
    HeaderThenBody(header, body);
    LabelLinesReadBack(format, labels);
    var all := NonComment([header] + body);
    assert all[0] == header && all[1..] == body;
    assert LabelRecords(format, all[1..]) == labels;
    assert labels[..|sources|] == sources;
    assert labels[|sources|..] == boundaries;
  }

  /**
   * The count check of LoadSourceInfo only refuses a negative boundary count:
   * a file declaring one source and no boundary loads, with an empty boundary
   * list (the nearest-boundary scan of the reduction then has nothing to scan).
   */
  lemma ZeroBoundariesAccepted(source: int)
    ensures LoadSourceFile([PlainHeader(1, 0), [Num(source)]]) == Success(SourceInfo([source], []))
  {
    SourceFileRoundTrip(Plain, [source], []);
    assert [source] + [] == [source];
    assert LabelLines(Plain, [source]) == LabelLines(Plain, []) + [[Num(source)]];
    assert [PlainHeader(1, 0)] + LabelLines(Plain, [source]) == [PlainHeader(1, 0), [Num(source)]];
  }

  // ---------------------------------------------------------------------------
  // The loaders
  // ---------------------------------------------------------------------------

  /** Once the loop is past the header, the file's first non-comment line is fixed. */
  lemma FirstLineFixed(lines: seq<Line>, k: int)
    requires 0 <= k <= |lines| && |NonComment(lines[..k])| > 0
    ensures |NonComment(lines)| > 0 && NonComment(lines)[0] == NonComment(lines[..k])[0]
  {
    assert lines == lines[..k] + lines[k..];
    NonCommentConcat(lines[..k], lines[k..]);
  }

  /** The header line is body[0]; a later line extends the records read from body[1..]. */
  lemma BodyStep(body: seq<Line>, line: Line)
    requires |body| > 0
    ensures (body + [line])[0] == body[0]
    ensures (body + [line])[1..] == body[1..] + [line]
  {
  }

  /** The first non-comment line of lines[..k+1] is lines[k] when lines[..k] has none. */
  lemma HeaderFound(lines: seq<Line>, k: int)
    requires 0 <= k < |lines| && NonComment(lines[..k]) == [] && !IsComment(lines[k])
    ensures NonComment(lines[..k + 1]) == [lines[k]]
    ensures |NonComment(lines)| > 0 && NonComment(lines)[0] == lines[k]
  {
    NonCommentStep(lines, k);
    FirstLineFixed(lines, k + 1);
  }

  /**
   * What LoadFile knows after the first k lines: the header it has seen (if
   * any), the records read so far, and the record entries that fitted in
   * edges_flat and weights.
   */
  ghost predicate EdgeScan(lines: seq<Line>, k: int, format: Option<Format>, nodeNum: int, edgeNum: int,
                           recs: seq<EdgeRecord>, edgesFlat: seq<int>, weights: seq<int>)
  {
    && 0 <= k <= |lines|
    && var body := NonComment(lines[..k]);
    && (format.None? <==> |body| == 0)
    && (format.None? ==> edgeNum == -1 && recs == [])
    && (format.Some? ==>
          && ReadHeader(body[0]) == Some(Header(format.value, nodeNum, edgeNum))
          && CountsAccepted(Header(format.value, nodeNum, edgeNum))
          && recs == EdgeRecords(format.value, body[1..])
          && |weights| == edgeNum)
    && RecordsStored(edgesFlat, weights, recs)
  }

  /** Entries written so far: record i at edges_flat[2i], edges_flat[2i+1] and weights[i]. */
  ghost predicate RecordsStored(edgesFlat: seq<int>, weights: seq<int>, recs: seq<EdgeRecord>)
  {
    && |edgesFlat| == 2 * |weights|
    && forall i :: 0 <= i < |recs| && i < |weights| ==>
         edgesFlat[2 * i] == recs[i].u && edgesFlat[2 * i + 1] == recs[i].v && weights[i] == recs[i].w
  }

  lemma EdgeScanComment(lines: seq<Line>, k: int, format: Option<Format>, nodeNum: int, edgeNum: int,
                        recs: seq<EdgeRecord>, edgesFlat: seq<int>, weights: seq<int>)
    requires EdgeScan(lines, k, format, nodeNum, edgeNum, recs, edgesFlat, weights)
    requires k < |lines| && IsComment(lines[k])
    ensures EdgeScan(lines, k + 1, format, nodeNum, edgeNum, recs, edgesFlat, weights)
  {
    NonCommentStep(lines, k);
    assert NonComment(lines[..k + 1]) == NonComment(lines[..k]);
  }

  /** A header line that does not parse, or declares refused counts, ends the load. */
  lemma EdgeHeaderRejected(lines: seq<Line>, k: int)
    requires 0 <= k < |lines| && NonComment(lines[..k]) == [] && !IsComment(lines[k])
    ensures ReadHeader(lines[k]).None? ==> LoadEdgeFile(lines) == Failure(MalformedHeader)
    ensures ReadHeader(lines[k]).Some? && !CountsAccepted(ReadHeader(lines[k]).value) ==>
              LoadEdgeFile(lines) == Failure(NonPositiveCounts)
  {
    HeaderFound(lines, k);
  }

  /** A header line with accepted counts starts the records, with arrays of the declared size. */
  lemma EdgeScanHeader(lines: seq<Line>, k: int, h: Header, edgesFlat: seq<int>, weights: seq<int>)
    requires 0 <= k < |lines| && NonComment(lines[..k]) == [] && !IsComment(lines[k])
    requires ReadHeader(lines[k]) == Some(h) && CountsAccepted(h)
    requires |edgesFlat| == 2 * |weights| && |weights| == h.second
    ensures EdgeScan(lines, k + 1, Some(h.format), h.first, h.second, [], edgesFlat, weights)
  {
    HeaderFound(lines, k);
    assert [lines[k]][1..] == [];
  }

  /** A line after the header: a record that parses is appended, and stored while there is room. */
  lemma EdgeScanRecord(lines: seq<Line>, k: int, format: Format, nodeNum: int, edgeNum: int,
                       recs: seq<EdgeRecord>, edgesFlat: seq<int>, weights: seq<int>)
    requires EdgeScan(lines, k, Some(format), nodeNum, edgeNum, recs, edgesFlat, weights)
    requires k < |lines| && !IsComment(lines[k])
    ensures var rec := ReadEdgeRecord(format, lines[k]);
            rec.None? ==> EdgeScan(lines, k + 1, Some(format), nodeNum, edgeNum, recs, edgesFlat, weights)
    ensures var rec := ReadEdgeRecord(format, lines[k]); var e := |recs|;
            rec.Some? && e < edgeNum ==>
              EdgeScan(lines, k + 1, Some(format), nodeNum, edgeNum, recs + [rec.value],
                       edgesFlat[2 * e := rec.value.u][2 * e + 1 := rec.value.v], weights[e := rec.value.w])
    ensures var rec := ReadEdgeRecord(format, lines[k]);
            rec.Some? && |recs| >= edgeNum ==>
              EdgeScan(lines, k + 1, Some(format), nodeNum, edgeNum, recs + [rec.value], edgesFlat, weights)
  {
    EdgeBodyNext(lines, k, format);
    var rec := ReadEdgeRecord(format, lines[k]);
    if rec.Some? {
      RecordsStoredAppend(edgesFlat, weights, recs, rec.value);
    }
  }

  /** The body after one more non-comment line keeps its header and gains that line's record, if any. */
  lemma EdgeBodyNext(lines: seq<Line>, k: int, format: Format)
    requires 0 <= k < |lines| && !IsComment(lines[k]) && |NonComment(lines[..k])| > 0
    ensures |NonComment(lines[..k + 1])| > 0
    ensures NonComment(lines[..k + 1])[0] == NonComment(lines[..k])[0]
    ensures EdgeRecords(format, NonComment(lines[..k + 1])[1..])
            == EdgeRecords(format, NonComment(lines[..k])[1..]) + OptionToSeq(ReadEdgeRecord(format, lines[k]))
  {
    var body := NonComment(lines[..k]);
    NonCommentStep(lines, k);
    EdgeRecordsSnoc(format, body[1..], lines[k]);
    BodyStep(body, lines[k]);
  }

  /** Storing record |recs| when there is room, or nothing when there is not, keeps the stored prefix. */
  lemma RecordsStoredAppend(edgesFlat: seq<int>, weights: seq<int>, recs: seq<EdgeRecord>, rec: EdgeRecord)
    requires RecordsStored(edgesFlat, weights, recs)
    ensures var e := |recs|;
            e < |weights| ==>
              RecordsStored(edgesFlat[2 * e := rec.u][2 * e + 1 := rec.v], weights[e := rec.w], recs + [rec])
    ensures |recs| >= |weights| ==> RecordsStored(edgesFlat, weights, recs + [rec])
  {
  }

  /** After the last line: the count check, then the arrays are the file's reading. */
  lemma EdgeScanEnd(lines: seq<Line>, format: Option<Format>, nodeNum: int, edgeNum: int,
                    recs: seq<EdgeRecord>, edgesFlat: seq<int>, weights: seq<int>)
    requires EdgeScan(lines, |lines|, format, nodeNum, edgeNum, recs, edgesFlat, weights)
    ensures |recs| != edgeNum ==> LoadEdgeFile(lines) == Failure(RecordCountMismatch)
    ensures |recs| == edgeNum ==> LoadEdgeFile(lines) == Success(EdgeFile(nodeNum, edgeNum, edgesFlat, weights))
  {
    assert lines[..|lines|] == lines;
    if |recs| == edgeNum {
      var flat := EdgesFlat(recs);
      forall i | 0 <= i < |edgesFlat|
        ensures edgesFlat[i] == flat[i]
      {
        var j := i / 2;
        assert 0 <= j < |recs| && j < |weights|;
        assert edgesFlat[2 * j] == recs[j].u == flat[2 * j] && edgesFlat[2 * j + 1] == recs[j].v == flat[2 * j + 1];
        if i % 2 == 0 {
          assert i == 2 * j;
        } else {
          assert i == 2 * j + 1;
        }
      }
      assert edgesFlat == flat;
      assert weights == Weights(recs);
    }
  }

  /**
   * LoadFile: reads the header from the first non-comment line, allocates
   * edges_flat and weights for the declared count and fills them record by
   * record; it fails exactly as LoadEdgeFile says.
   */
  method LoadFile(lines: seq<Line>) returns (r: Result<EdgeFile, LoadError>)
    ensures r == LoadEdgeFile(lines)
  {
    var format: Option<Format> := None;
    var nodeNum, edgeNum := 0, -1;
    var edgesFlat := new int[0];
    var weights := new int[0];
    var e := 0;
    ghost var recs: seq<EdgeRecord> := [];
    var k := 0;
    while k < |lines|
      invariant EdgeScan(lines, k, format, nodeNum, edgeNum, recs, edgesFlat[..], weights[..])
      invariant e == |recs|
      invariant format.None? ==> nodeNum == 0
      invariant edgesFlat != weights && fresh(edgesFlat) && fresh(weights)
    {
      var line := lines[k];
      if IsComment(line) {
        EdgeScanComment(lines, k, format, nodeNum, edgeNum, recs, edgesFlat[..], weights[..]);
      } else if format.None? {
        var h := ReadHeader(line);
        EdgeHeaderRejected(lines, k);
        if h.None? {
          return Failure(MalformedHeader);
        }
        if !CountsAccepted(h.value) {
          return Failure(NonPositiveCounts);
        }
        format := Some(h.value.format);
        nodeNum, edgeNum := h.value.first, h.value.second;
        edgesFlat := new int[2 * edgeNum];
        weights := new int[edgeNum];
        EdgeScanHeader(lines, k, h.value, edgesFlat[..], weights[..]);
      } else {
        EdgeScanRecord(lines, k, format.value, nodeNum, edgeNum, recs, edgesFlat[..], weights[..]);
        var rec := ReadEdgeRecord(format.value, line);
        if rec.Some? {
          if e < edgeNum {
            edgesFlat[2 * e] := rec.value.u;
            edgesFlat[2 * e + 1] := rec.value.v;
            weights[e] := rec.value.w;
          }
          recs := recs + [rec.value];
          e := e + 1;
        }
      }
      k := k + 1;
    }
    EdgeScanEnd(lines, format, nodeNum, edgeNum, recs, edgesFlat[..], weights[..]);
    if e != edgeNum {
      return Failure(RecordCountMismatch);
    }
    r := Success(EdgeFile(nodeNum, edgeNum, edgesFlat[..], weights[..]));
  }

  /**
   * The split at the end of LoadSourceInfo: the first sourceNum labels are
   * the sources and the remaining boundaryNum labels the boundaries.
   */
  method SplitLoadedList(allList: array<int>, sourceNum: int, boundaryNum: int)
    returns (sources: seq<int>, boundaries: seq<int>)
    requires 0 <= sourceNum && 0 <= boundaryNum && allList.Length == sourceNum + boundaryNum
    ensures |sources| == sourceNum && |boundaries| == boundaryNum
    ensures sources == allList[..sourceNum] && boundaries == allList[sourceNum..]
    ensures sources + boundaries == allList[..]
  {
    var s := new int[sourceNum];
    var b := new int[boundaryNum];
    for j := 0 to sourceNum
      invariant forall i :: 0 <= i < j ==> s[i] == allList[i]
    {
      s[j] := allList[j];
    }
    for j := 0 to boundaryNum
      invariant forall i :: 0 <= i < sourceNum ==> s[i] == allList[i]
      invariant forall i :: 0 <= i < j ==> b[i] == allList[sourceNum + i]
    {
      b[j] := allList[sourceNum + j];
    }
    sources, boundaries := s[..], b[..];
    assert sources == allList[..sourceNum];
    assert boundaries == allList[sourceNum..];
    assert forall i :: 0 <= i < allList.Length ==> (sources + boundaries)[i] == allList[i];
  }

  /**
   * What LoadSourceInfo knows after the first k lines: the header it has seen
   * (if any), the labels read so far, and those that fitted in all_list.
   */
  ghost predicate SourceScan(lines: seq<Line>, k: int, format: Option<Format>, sourceNum: int, boundaryNum: int,
                             labels: seq<int>, allList: seq<int>)
  {
    && 0 <= k <= |lines|
    && var body := NonComment(lines[..k]);
    && (format.None? <==> |body| == 0)
    && (format.None? ==> sourceNum == -1 && boundaryNum == 0 && labels == [])
    && (format.Some? ==>
          && ReadHeader(body[0]) == Some(Header(format.value, sourceNum, boundaryNum))
          && CountsAccepted(Header(format.value, sourceNum, boundaryNum))
          && labels == LabelRecords(format.value, body[1..])
          && |allList| == sourceNum + boundaryNum)
    && forall i :: 0 <= i < |labels| && i < |allList| ==> allList[i] == labels[i]
  }

  lemma SourceScanComment(lines: seq<Line>, k: int, format: Option<Format>, sourceNum: int, boundaryNum: int,
                          labels: seq<int>, allList: seq<int>)
    requires SourceScan(lines, k, format, sourceNum, boundaryNum, labels, allList)
    requires k < |lines| && IsComment(lines[k])
    ensures SourceScan(lines, k + 1, format, sourceNum, boundaryNum, labels, allList)
  {
    NonCommentStep(lines, k);
    assert NonComment(lines[..k + 1]) == NonComment(lines[..k]);
  }

  /** A header line that does not parse, or declares refused counts, ends the load. */
  lemma SourceHeaderRejected(lines: seq<Line>, k: int)
    requires 0 <= k < |lines| && NonComment(lines[..k]) == [] && !IsComment(lines[k])
    ensures ReadHeader(lines[k]).None? ==> LoadSourceFile(lines) == Failure(MalformedHeader)
    ensures ReadHeader(lines[k]).Some? && !CountsAccepted(ReadHeader(lines[k]).value) ==>
              LoadSourceFile(lines) == Failure(NonPositiveCounts)
  {
    HeaderFound(lines, k);
  }

  /** A header line with accepted counts starts the labels, with all_list of the declared size. */
  lemma SourceScanHeader(lines: seq<Line>, k: int, h: Header, allList: seq<int>)
    requires 0 <= k < |lines| && NonComment(lines[..k]) == [] && !IsComment(lines[k])
    requires ReadHeader(lines[k]) == Some(h) && CountsAccepted(h)
    requires |allList| == h.first + h.second
    ensures SourceScan(lines, k + 1, Some(h.format), h.first, h.second, [], allList)
  {
    HeaderFound(lines, k);
    assert [lines[k]][1..] == [];
  }

  /** A line after the header: a label that parses is appended, and stored while there is room. */
  lemma SourceScanLabel(lines: seq<Line>, k: int, format: Format, sourceNum: int, boundaryNum: int,
                        labels: seq<int>, allList: seq<int>)
    requires SourceScan(lines, k, Some(format), sourceNum, boundaryNum, labels, allList)
    requires k < |lines| && !IsComment(lines[k])
    ensures var entry := ReadLabel(format, lines[k]);
            entry.None? ==> SourceScan(lines, k + 1, Some(format), sourceNum, boundaryNum, labels, allList)
    ensures var entry := ReadLabel(format, lines[k]);
            entry.Some? && |labels| < |allList| ==>
              SourceScan(lines, k + 1, Some(format), sourceNum, boundaryNum, labels + [entry.value],
                         allList[|labels| := entry.value])
    ensures var entry := ReadLabel(format, lines[k]);
            entry.Some? && |labels| >= |allList| ==>
              SourceScan(lines, k + 1, Some(format), sourceNum, boundaryNum, labels + [entry.value], allList)
  {
    LabelBodyNext(lines, k, format);
    var entry := ReadLabel(format, lines[k]);
    if entry.Some? {
      LabelsStoredAppend(allList, labels, entry.value);
    }
  }

  /** Storing one more label at the next slot, or dropping it past the end, keeps the stored prefix. */
  lemma LabelsStoredAppend(allList: seq<int>, labels: seq<int>, x: int)
    requires forall i :: 0 <= i < |labels| && i < |allList| ==> allList[i] == labels[i]
    ensures |labels| < |allList| ==>
              var next := allList[|labels| := x];
              forall i :: 0 <= i < |labels + [x]| && i < |next| ==> next[i] == (labels + [x])[i]
    ensures |labels| >= |allList| ==>
              forall i :: 0 <= i < |labels + [x]| && i < |allList| ==> allList[i] == (labels + [x])[i]
  {
  }

  /** The body after one more non-comment line keeps its header and gains that line's label, if any. */
  lemma LabelBodyNext(lines: seq<Line>, k: int, format: Format)
    requires 0 <= k < |lines| && !IsComment(lines[k]) && |NonComment(lines[..k])| > 0
    ensures |NonComment(lines[..k + 1])| > 0
    ensures NonComment(lines[..k + 1])[0] == NonComment(lines[..k])[0]
    ensures LabelRecords(format, NonComment(lines[..k + 1])[1..])
            == LabelRecords(format, NonComment(lines[..k])[1..]) + OptionToSeq(ReadLabel(format, lines[k]))
  {
    var body := NonComment(lines[..k]);
    NonCommentStep(lines, k);
    LabelRecordsSnoc(format, body[1..], lines[k]);
    BodyStep(body, lines[k]);
  }

  /** After the last line: the count check, then all_list holds the file's labels. */
  lemma SourceScanEnd(lines: seq<Line>, format: Option<Format>, sourceNum: int, boundaryNum: int,
                      labels: seq<int>, allList: seq<int>)
    requires SourceScan(lines, |lines|, format, sourceNum, boundaryNum, labels, allList)
    ensures |labels| != sourceNum + boundaryNum ==> LoadSourceFile(lines) == Failure(RecordCountMismatch)
    ensures |labels| == sourceNum + boundaryNum ==>
              0 <= sourceNum <= |allList|
              && LoadSourceFile(lines) == Success(SourceInfo(allList[..sourceNum], allList[sourceNum..]))
  {
    assert lines[..|lines|] == lines;
    if |labels| == sourceNum + boundaryNum {
      assert allList == labels;
    }
  }

  /**
   * LoadSourceInfo: reads the header, collects source_num + boundary_num
   * labels into one list and splits it; it fails exactly as LoadSourceFile
   * says.
   */
  method LoadSourceInfo(lines: seq<Line>) returns (r: Result<SourceInfo, LoadError>)
    ensures r == LoadSourceFile(lines)
  {
    var format: Option<Format> := None;
    var sourceNum, boundaryNum := -1, 0;
    var allList := new int[0];
    var e := 0;
    ghost var labels: seq<int> := [];
    var k := 0;
    while k < |lines|
      invariant SourceScan(lines, k, format, sourceNum, boundaryNum, labels, allList[..])
      invariant e == |labels|
      invariant fresh(allList)
    {
      var line := lines[k];
      if IsComment(line) {
        SourceScanComment(lines, k, format, sourceNum, boundaryNum, labels, allList[..]);
      } else if format.None? {
        var h := ReadHeader(line);
        SourceHeaderRejected(lines, k);
        if h.None? {
          return Failure(MalformedHeader);
        }
        if !CountsAccepted(h.value) {
          return Failure(NonPositiveCounts);
        }
        format := Some(h.value.format);
        sourceNum, boundaryNum := h.value.first, h.value.second;
        allList := new int[sourceNum + boundaryNum];
        SourceScanHeader(lines, k, h.value, allList[..]);
      } else {
        ghost var before := allList[..];
        SourceScanLabel(lines, k, format.value, sourceNum, boundaryNum, labels, before);
        var entry := ReadLabel(format.value, line);
        if entry.Some? {
          if e < allList.Length {
            allList[e] := entry.value;
            assert allList[..] == before[e := entry.value];
          }
          labels := labels + [entry.value];
          e := e + 1;
        }
      }
      k := k + 1;
    }
    SourceScanEnd(lines, format, sourceNum, boundaryNum, labels, allList[..]);
    if e != sourceNum + boundaryNum {
      return Failure(RecordCountMismatch);
    }
    var sources, boundaries := SplitLoadedList(allList, sourceNum, boundaryNum);
    r := Success(SourceInfo(sources, boundaries));
  }
}
