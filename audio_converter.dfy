/** `create_segments_list` and `create_audio_files_from_segments_list` of
    `audio_tools/audio_converter.py`: the first reads the segments file
    (`filename<TAB>link<TAB>begin<TAB>end` per line) and links one `Segment`
    per usable line, in file order; the second walks that chain and exports
    every segment as an audio file. What the file system, `mediainfo`,
    `get_filepath_from_link`, `float` and pydub's export do is given as
    parameters. */
module AudioConverter {
  import opened Common
  import opened PyStr
  import opened Records
  import opened Segments

  /** `'.wav' if audio_format == 'wav' else '.flac'`. */
  function Extension(audioFormat: string): (ext: string)
    ensures ext == ".wav" <==> audioFormat == "wav"
    ensures ext == ".flac" <==> audioFormat != "wav"
  {
    if audioFormat == "wav" then ".wav" else ".flac"
  }

  /** What `create_segments_list` learns from outside: where the mp3 of a
      link is saved under a folder (`get_filepath_from_link`), whether a file
      exists, the sample rate `mediainfo` reports for a file, and
      `float(x) * 1000` as whole milliseconds (`None` where `float` raises). */
  datatype Probe = Probe(filepathFromLink: (string, string) -> string, fileExists: string -> bool,
                         sampleRate: string -> int, millis: string -> Option<int>)

  /** The settings of one call: `output_dir`, `sampling_rate` and the extension of `audio_format`. */
  datatype Settings = Settings(outputDir: string, samplingRate: int, ext: string)

  /** `join(output_dir, folder1, folder2)`: the folder a book's files go to. */
  function OutputFolder(outputDir: string, folder1: string, folder2: string): string {
    PathJoin(PathJoin(outputDir, folder1), folder2)
  }

  /** The fields of one line of the segments file, and the two folders its
      filename names. */
  datatype SegmentLine = SegmentLine(filename: string, link: string, begin: string, end: string,
                                     folder1: string, folder2: string)

  /** `filename, link, begin, end = line.strip().split("\t")` and
      `folder1, folder2, fileid = filename.split('_')`: a line parses when it
      has four tab-separated fields and its filename three `_`-separated parts. */
  function ParseSegmentLine(line: string): Result<SegmentLine>
  {
    var fields := Unpack(Strip(line), '\t', 4);
    if fields.Err? then Err(fields.error)
    else
      var folders := Unpack(fields.value[0], '_', 3);
      if folders.Err? then Err(folders.error)
      else Ok(SegmentLine(fields.value[0], fields.value[1], fields.value[2], fields.value[3],
                          folders.value[0], folders.value[1]))
  }

  /** A line parses exactly when it has four fields and its filename three
      parts; otherwise unpacking raises, naming the count it wanted and the
      count it got. */
  lemma ParseSegmentLineErrors(line: string)
    ensures var fields := Split(Strip(line), '\t');
      && (ParseSegmentLine(line).Ok? <==> |fields| == 4 && |Split(fields[0], '_')| == 3)
      && (|fields| != 4 ==> ParseSegmentLine(line) == Err(UnpackError(4, |fields|)))
      && (|fields| == 4 && |Split(fields[0], '_')| != 3 ==>
            ParseSegmentLine(line) == Err(UnpackError(3, |Split(fields[0], '_')|)))
  {
  }

  /** A parsed line's fields are those of the stripped line, in order, and
      its folders the first two parts of its filename. */
  lemma ParseSegmentLineFields(line: string)
    requires ParseSegmentLine(line).Ok?
    ensures var fields, p := Split(Strip(line), '\t'), ParseSegmentLine(line).value;
      && |fields| == 4 && fields[0] == p.filename && fields[1] == p.link && fields[2] == p.begin && fields[3] == p.end
      && |Split(p.filename, '_')| == 3 && Split(p.filename, '_')[0] == p.folder1 && Split(p.filename, '_')[1] == p.folder2
  {
  }

  /** What a parsed line gives: no segment (its mp3 is missing or its sample
      rate is too low), `ValueError` from `float`, or the segment to link. */
  function LineSpan(probe: Probe, settings: Settings, p: SegmentLine): Result<Option<Span>>
  {
    var outputPath := OutputFolder(settings.outputDir, p.folder1, p.folder2);
    var mp3 := probe.filepathFromLink(p.link, outputPath);
    if !probe.fileExists(mp3) || probe.sampleRate(mp3) < settings.samplingRate then Ok(None)
    else if probe.millis(p.begin).None? then Err(FloatParseError(p.begin))
    else if probe.millis(p.end).None? then Err(FloatParseError(p.end))
    else Ok(Some(Span(probe.millis(p.begin).value, probe.millis(p.end).value, mp3,
                      PathJoin(outputPath, p.filename + settings.ext))))
  }

  /** What one line of the segments file gives. */
  function LineSegment(probe: Probe, settings: Settings, line: string): Result<Option<Span>>
  {
    var parsed := ParseSegmentLine(line);
    if parsed.Err? then Err(parsed.error) else LineSpan(probe, settings, parsed.value)
  }

  /** A parsed line gives a segment exactly when its mp3 exists, its sample
      rate is at least `sampling_rate` and both times parse; the segment is
      cut from that mp3, between those times, and written to
      `output_dir/folder1/folder2/filename` plus the extension. */
  lemma LineSpanUsable(probe: Probe, settings: Settings, p: SegmentLine)
    ensures var mp3 := probe.filepathFromLink(p.link, OutputFolder(settings.outputDir, p.folder1, p.folder2));
      var r := LineSpan(probe, settings, p);
      && (r == Ok(None) <==> !probe.fileExists(mp3) || probe.sampleRate(mp3) < settings.samplingRate)
      && (r.Err? ==> r.error.FloatParseError? && probe.millis(r.error.text).None?)
      && (r.Ok? && r.value.Some? ==>
            && r.value.value.filesource == mp3
            && probe.fileExists(mp3) && probe.sampleRate(mp3) >= settings.samplingRate
            && probe.millis(p.begin) == Some(r.value.value.begin)
            && probe.millis(p.end) == Some(r.value.value.end))
  {
  }

  /** A linked segment is written to a path ending in its filename plus the extension. */
  lemma LineSpanPath(probe: Probe, settings: Settings, p: SegmentLine)
    requires LineSpan(probe, settings, p).Ok? && LineSpan(probe, settings, p).value.Some?
    ensures var path := LineSpan(probe, settings, p).value.value.filepath;
      |p.filename + settings.ext| <= |path| && path[|path| - |p.filename + settings.ext|..] == p.filename + settings.ext
  {
  }

  /** The segments linked for a run of per-line verdicts, in order, or the
      exception of the first verdict that is one. */
  function Collect(verdicts: seq<Result<Option<Span>>>): Result<seq<Span>>
  {
    if verdicts == [] then Ok([])
    else
      var prev := Collect(verdicts[..|verdicts| - 1]);
      if prev.Err? then prev
      else
        var r := verdicts[|verdicts| - 1];
        if r.Err? then Err(r.error)
        else if r.value.None? then prev
        else Ok(prev.value + [r.value.value])
  }

  /** What `verdict` gives for each line, in file order. */
  function Verdicts(verdict: string -> Result<Option<Span>>, lines: seq<string>): seq<Result<Option<Span>>>
  {
    seq(|lines|, i requires 0 <= i < |lines| => verdict(lines[i]))
  }

  /** The verdicts of two stretches of lines are those of the first followed by those of the second. */
  lemma VerdictsAppend(verdict: string -> Result<Option<Span>>, a: seq<string>, b: seq<string>)
    ensures Verdicts(verdict, a + b) == Verdicts(verdict, a) + Verdicts(verdict, b)
  {
    var va, vb, vab := Verdicts(verdict, a), Verdicts(verdict, b), Verdicts(verdict, a + b);
    forall i | 0 <= i < |vab| ensures vab[i] == (va + vb)[i] {
      if i < |a| {
        assert (a + b)[i] == a[i];
      } else {
        assert (a + b)[i] == b[i - |a|];
      }
    }
    SeqExt(vab, va + vb);
  }

  /** The verdicts of the first `n` lines are the first `n` verdicts. */
  lemma VerdictsPrefix(verdict: string -> Result<Option<Span>>, lines: seq<string>, n: nat)
    requires n <= |lines|
    ensures Verdicts(verdict, lines[..n]) == Verdicts(verdict, lines)[..n]
  {
    SeqExt(Verdicts(verdict, lines[..n]), Verdicts(verdict, lines)[..n]);
  }

  /** `LineSegment` under fixed outside facts and settings. */
  function LineVerdict(probe: Probe, settings: Settings): string -> Result<Option<Span>>
  {
    line => LineSegment(probe, settings, line)
  }

  /** The segments `create_segments_list` links for `lines`, in order, or
      the exception of the first line that raises one. */
  function KeptSpans(probe: Probe, settings: Settings, lines: seq<string>): Result<seq<Span>>
  {
    Collect(Verdicts(LineVerdict(probe, settings), lines))
  }

  /** Once a prefix of the verdicts is an exception, the whole is the same one. */
  lemma {:induction false} CollectErrorSticky(verdicts: seq<Result<Option<Span>>>, n: nat)
    requires n <= |verdicts| && Collect(verdicts[..n]).Err?
    ensures Collect(verdicts) == Collect(verdicts[..n])
    decreases |verdicts| - n
  {
    if n < |verdicts| {
      var init := verdicts[..|verdicts| - 1];
      assert init[..n] == verdicts[..n];
      CollectErrorSticky(init, n);
    } else {
      assert verdicts[..n] == verdicts;
    }
  }

  /** Every linked segment is one a verdict gave, and there are no more of
      them than verdicts. */
  lemma {:induction false} CollectFrom(verdicts: seq<Result<Option<Span>>>)
    requires Collect(verdicts).Ok?
    ensures |Collect(verdicts).value| <= |verdicts|
    ensures forall s <- Collect(verdicts).value :: exists i :: 0 <= i < |verdicts| && verdicts[i] == Ok(Some(s))
  {
    if verdicts != [] {
      var init := verdicts[..|verdicts| - 1];
      CollectFrom(init);
      forall s <- Collect(verdicts).value
        ensures exists i :: 0 <= i < |verdicts| && verdicts[i] == Ok(Some(s))
      {
        if s in Collect(init).value {
          var i :| 0 <= i < |init| && init[i] == Ok(Some(s));
          assert verdicts[i] == init[i];
        } else {
          assert verdicts[|verdicts| - 1] == Ok(Some(s));
        }
      }
    }
  }

  /** The segments of two runs of verdicts are those of the first followed by
      those of the second. */
  lemma {:induction false} CollectAppend(a: seq<Result<Option<Span>>>, b: seq<Result<Option<Span>>>)
    requires Collect(a).Ok? && Collect(b).Ok?
    ensures Collect(a + b) == Ok(Collect(a).value + Collect(b).value)
  {
    if b == [] {
      assert a + b == a && Collect(a).value + [] == Collect(a).value;
    } else {
      var init := b[..|b| - 1];
      CollectAppend(a, init);
      var x, y, r := Collect(a).value, Collect(init).value, b[|b| - 1];
      assert (a + b)[..|a + b| - 1] == a + init && (a + b)[|a + b| - 1] == r;
      if r.value.Some? {
        assert Collect(a + b) == Ok((x + y) + [r.value.value]);
        assert (x + y) + [r.value.value] == x + (y + [r.value.value]);
      }
    }
  }

  /** Once a line raises, the file raises the same: no later line is read. */
  lemma KeptErrorSticky(probe: Probe, settings: Settings, lines: seq<string>, n: nat)
    requires n <= |lines| && KeptSpans(probe, settings, lines[..n]).Err?
    ensures KeptSpans(probe, settings, lines) == KeptSpans(probe, settings, lines[..n])
  {
    VerdictsPrefix(LineVerdict(probe, settings), lines, n);
    CollectErrorSticky(Verdicts(LineVerdict(probe, settings), lines), n);
  }

  /** There are no more segments than lines, and every one comes from an mp3
      that exists and whose sample rate is at least `sampling_rate`. */
  lemma KeptSpansUsable(probe: Probe, settings: Settings, lines: seq<string>)
    requires KeptSpans(probe, settings, lines).Ok?
    ensures |KeptSpans(probe, settings, lines).value| <= |lines|
    ensures forall s <- KeptSpans(probe, settings, lines).value ::
      probe.fileExists(s.filesource) && probe.sampleRate(s.filesource) >= settings.samplingRate
  {
    var v := Verdicts(LineVerdict(probe, settings), lines);
    CollectFrom(v);
    forall s <- KeptSpans(probe, settings, lines).value
      ensures probe.fileExists(s.filesource) && probe.sampleRate(s.filesource) >= settings.samplingRate
    {
      var i :| 0 <= i < |v| && v[i] == Ok(Some(s));
      LineSpanUsable(probe, settings, ParseSegmentLine(lines[i]).value);
    }
  }

  /** The segments of two stretches of lines are those of the first followed
      by those of the second: lines are linked in file order, each on its own. */
  lemma KeptSpansAppend(probe: Probe, settings: Settings, a: seq<string>, b: seq<string>)
    requires KeptSpans(probe, settings, a).Ok? && KeptSpans(probe, settings, b).Ok?
    ensures KeptSpans(probe, settings, a + b) == Ok(KeptSpans(probe, settings, a).value + KeptSpans(probe, settings, b).value)
  {
    VerdictsAppend(LineVerdict(probe, settings), a, b);
    CollectAppend(Verdicts(LineVerdict(probe, settings), a), Verdicts(LineVerdict(probe, settings), b));
  }

  /** A verdict of no segment leaves the segments of the verdicts before it as they are. */
  lemma CollectSkip(verdicts: seq<Result<Option<Span>>>, k: nat)
    requires k < |verdicts| && Collect(verdicts[..k]).Ok? && verdicts[k] == Ok(None)
    ensures Collect(verdicts[..k + 1]) == Collect(verdicts[..k])
  {
    assert verdicts[..k + 1][..k] == verdicts[..k];
  }

  /** A verdict of a segment appends it to the segments of the verdicts before it. */
  lemma CollectLink(verdicts: seq<Result<Option<Span>>>, k: nat, s: Span)
    requires k < |verdicts| && Collect(verdicts[..k]).Ok? && verdicts[k] == Ok(Some(s))
    ensures Collect(verdicts[..k + 1]) == Ok(Collect(verdicts[..k]).value + [s])
  {
    assert verdicts[..k + 1][..k] == verdicts[..k];
  }

  /** A verdict that is an exception ends the run with it. */
  lemma CollectFail(verdicts: seq<Result<Option<Span>>>, k: nat)
    requires k < |verdicts| && Collect(verdicts[..k]).Ok? && verdicts[k].Err?
    ensures Collect(verdicts) == Err(verdicts[k].error)
  {
    assert verdicts[..k + 1][..k] == verdicts[..k];
    CollectErrorSticky(verdicts, k + 1);
  }

  /** `nodes` form a chain with its gaps right, holding `spans`, with `head`
      its first node and `prev` its last (both `None` while it is empty). */
  ghost predicate Linked(head: Segment?, prev: Segment?, nodes: seq<Segment>, spans: seq<Span>)
    reads nodes
  {
    && Chain(nodes) && GapsRight(Spans(nodes), Gaps(nodes)) && Spans(nodes) == spans
    && head == (if nodes == [] then null else nodes[0])
    && prev == (if nodes == [] then null else nodes[|nodes| - 1])
  }

  /** `head = segment` on an empty chain, `prev.set_next(segment)` after its
      last node `prev` otherwise: the chain grows by the new segment and its
      gaps stay right. */
  method LinkSegment(head: Segment?, prev: Segment?, ghost nodes: seq<Segment>, ghost spans: seq<Span>, segment: Segment)
    returns (newHead: Segment, ghost newNodes: seq<Segment>)
    requires Linked(head, prev, nodes, spans)
    requires segment !in nodes && segment.next == null && segment.gap == 0
    modifies prev
    ensures newNodes == nodes + [segment]
    ensures Linked(newHead, segment, newNodes, spans + [old(segment.Value())])
  {
    newNodes := nodes + [segment];
    if head == null {
      newHead := segment;
    } else {
      ghost var gaps := Gaps(nodes);
      Append(prev, nodes, segment);
      AppendKeepsGaps(spans, gaps, old(segment.Value()));
      newHead := head;
    }
  }

  /** The loop of `create_segments_list`: reads the lines in file order with
      `verdict`, stops at the first one that raises, skips the ones that give
      no segment and links a new segment for each of the others. */
  method BuildChain(lines: seq<string>, verdict: string -> Result<Option<Span>>)
    returns (head: Segment?, err: Option<Error>, ghost nodes: seq<Segment>)
    ensures err.None? <==> Collect(Verdicts(verdict, lines)).Ok?
    ensures err.Some? ==> Collect(Verdicts(verdict, lines)) == Err(err.value)
    ensures err.None? ==>
      && Chain(nodes) && head == (if nodes == [] then null else nodes[0])
      && Spans(nodes) == Collect(Verdicts(verdict, lines)).value
      && GapsRight(Spans(nodes), Gaps(nodes))
  {
    ghost var verdicts := Verdicts(verdict, lines);
    head, err, nodes := null, None, [];
    var prev: Segment? := null;
    for k := 0 to |lines|
      invariant Collect(verdicts[..k]).Ok?
      invariant Linked(head, prev, nodes, Collect(verdicts[..k]).value)
      invariant prev != null ==> fresh(prev)
    {
      var r := verdict(lines[k]);
      assert r == verdicts[k];
      if r.Err? {
        err := Some(r.error);
        CollectFail(verdicts, k);
        return;
      }
      if r.value.None? {
        CollectSkip(verdicts, k);
        continue;
      }
      var span := r.value.value;
      CollectLink(verdicts, k, span);
      var segment := new Segment(span.begin, span.end, span.filesource, span.filepath);
      head, nodes := LinkSegment(head, prev, nodes, Collect(verdicts[..k]).value, segment);
      prev := segment;
    }
    assert verdicts[..|lines|] == verdicts;
  }

  /** `create_segments_list(segments_filepath, sampling_rate, audio_format, output_dir)`
      over the lines of the segments file. It returns the head of the chain
      and the number of lines read (skipped ones included), or the exception
      of the first line that raises; `nodes` are the chain's nodes. */
  method CreateSegmentsList(lines: seq<string>, samplingRate: int, audioFormat: string, outputDir: string, probe: Probe)
    returns (head: Segment?, total: nat, err: Option<Error>, ghost nodes: seq<Segment>)
    ensures var r := KeptSpans(probe, Settings(outputDir, samplingRate, Extension(audioFormat)), lines);
      err.None? <==> r.Ok?
    ensures err.Some? ==>
      KeptSpans(probe, Settings(outputDir, samplingRate, Extension(audioFormat)), lines) == Err(err.value)
    ensures err.None? ==>
      && Chain(nodes) && head == (if nodes == [] then null else nodes[0]) && total == |lines|
      && Spans(nodes) == KeptSpans(probe, Settings(outputDir, samplingRate, Extension(audioFormat)), lines).value
      && GapsRight(Spans(nodes), Gaps(nodes))
  {
    var extensionFile := Extension(audioFormat);
    head, err, nodes := BuildChain(lines, LineVerdict(probe, Settings(outputDir, samplingRate, extensionFile)));
    total := |lines|;
  }

  /** `"wav"` when `audio_format == 'wav'`, `"flac"` otherwise: the format passed to `exportAudio`. */
  function ExportFormat(audioFormat: string): (format: string)
    ensures format == "wav" <==> audioFormat == "wav"
    ensures format == "flac" <==> audioFormat != "wav"
  {
    if audioFormat == "wav" then "wav" else "flac"
  }

  /** `create_audio_files_from_segments_list(head_list, total_files, sampling_rate, audio_format)`:
      walks the chain from `head`, cutting each segment out of its mp3 and
      exporting it (`exportAudio` returns `false` where pydub raises `IOError`).
      It returns whether every export succeeded and the segments it tried,
      which are the chain's first ones, in order, up to the first failure. */
  method CreateAudioFilesFromSegmentsList(head: Segment?, ghost nodes: seq<Segment>, audioFormat: string,
                                          exportAudio: (Span, string) -> bool)
    returns (ok: bool, tried: seq<Span>)
    requires Chain(nodes) && head == (if nodes == [] then null else nodes[0])
    ensures |tried| <= |nodes| && tried == Spans(nodes)[..|tried|]
    ensures ok <==> forall j :: 0 <= j < |nodes| ==> exportAudio(Spans(nodes)[j], ExportFormat(audioFormat))
    ensures ok ==> |tried| == |nodes|
    ensures !ok ==>
      && |tried| > 0 && !exportAudio(tried[|tried| - 1], ExportFormat(audioFormat))
      && forall j :: 0 <= j < |tried| - 1 ==> exportAudio(tried[j], ExportFormat(audioFormat))
  {
    var format := if audioFormat == "wav" then "wav" else "flac";
    ghost var spans := Spans(nodes);
    var curr := head;
    ghost var i := 0;
    tried := [];
    while curr != null
      invariant 0 <= i <= |nodes| && curr == (if i < |nodes| then nodes[i] else null)
      invariant tried == spans[..i]
      invariant forall j :: 0 <= j < i ==> exportAudio(spans[j], format)
      decreases |nodes| - i
    {
      var segment := Span(curr.begin, curr.end, curr.filesource, curr.filepath);
      assert segment == spans[i];
      tried := tried + [segment];
      if !exportAudio(segment, format) {
        return false, tried;
      }
      curr := curr.next;
      i := i + 1;
    }
    ok := true;
  }
}
