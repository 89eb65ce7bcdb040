/** The `Segment` class of `audio_tools/audio_converter.py`: one stretch
    `begin`..`end` (milliseconds) of an mp3 file `filesource`, to be written
    to `filepath`, linked to the next segment, with `gap` the silence
    between its end and the next segment's begin. Besides the class, a chain
    of segments (what `create_segments_list` builds) is described by the
    sequence of its nodes and by the values they hold. */
module Segments {

  /** The values a segment holds besides its links. */
  datatype Span = Span(begin: int, end: int, filesource: string, filepath: string)

  class Segment {
    var begin: int
    var end: int
    var next: Segment?
    var filesource: string
    var filepath: string
    var gap: int

    /** `Segment(begin, end, filesource, filepath)`: no successor yet, gap 0. */
    constructor(begin: int, end: int, filesource: string, filepath: string)
      ensures this.begin == begin && this.end == end
      ensures this.filesource == filesource && this.filepath == filepath
      ensures next == null && gap == 0
    {
      this.begin := begin;
      this.end := end;
      this.next := null;
      this.filesource := filesource;
      this.filepath := filepath;
      this.gap := 0;
    }

    /** `set_next(next)`: links `next` and records the gap from this
        segment's end to its begin. */
    method SetNext(next: Segment)
      modifies this
      ensures this.next == next && gap == next.begin - end
      ensures begin == old(begin) && end == old(end)
      ensures filesource == old(filesource) && filepath == old(filepath)
    {
      this.next := next;
      this.gap := next.begin - this.end;
    }

    /** `merge_from(next)`: this segment takes over the end, the gap and the
        successor of `next`. */
    method MergeFrom(next: Segment)
      modifies this
      ensures this.next == old(next.next) && gap == old(next.gap) && end == old(next.end)
      ensures begin == old(begin) && filesource == old(filesource) && filepath == old(filepath)
    {
      this.next := next.next;
      this.gap := next.gap;
      this.end := next.end;
    }

    function Value(): Span
      reads this
    {
      Span(begin, end, filesource, filepath)
    }
  }

  /** `nodes` are the segments reached from `nodes[0]` by following `next`,
      each once, the last one with no successor. */
  ghost predicate Chain(nodes: seq<Segment>)
    reads nodes
  {
    && (forall i, j :: 0 <= i < j < |nodes| ==> nodes[i] != nodes[j])
    && (forall i :: 0 <= i < |nodes| - 1 ==> nodes[i].next == nodes[i + 1])
    && (|nodes| > 0 ==> nodes[|nodes| - 1].next == null)
  }

  /** The values of the nodes, in chain order. */
  ghost function Spans(nodes: seq<Segment>): (spans: seq<Span>)
    reads nodes
    ensures |spans| == |nodes| && forall i :: 0 <= i < |nodes| ==> spans[i] == nodes[i].Value()
  {
    if nodes == [] then [] else Spans(nodes[..|nodes| - 1]) + [nodes[|nodes| - 1].Value()]
  }

  /** The gaps of the nodes, in chain order. */
  ghost function Gaps(nodes: seq<Segment>): (gaps: seq<int>)
    reads nodes
    ensures |gaps| == |nodes| && forall i :: 0 <= i < |nodes| ==> gaps[i] == nodes[i].gap
  {
    if nodes == [] then [] else Gaps(nodes[..|nodes| - 1]) + [nodes[|nodes| - 1].gap]
  }

  /** Every gap is the distance from a segment's end to the next one's
      begin, and the last segment's gap is 0: what `set_next` maintains. */
  predicate GapsRight(spans: seq<Span>, gaps: seq<int>) {
    && |gaps| == |spans|
    && (forall i :: 0 <= i < |spans| - 1 ==> gaps[i] == spans[i + 1].begin - spans[i].end)
    && (|spans| > 0 ==> gaps[|spans| - 1] == 0)
  }

  /** The values after `merge_from` on node `i` with its successor. */
  function MergeSpans(spans: seq<Span>, i: nat): seq<Span>
    requires i + 1 < |spans|
  {
    spans[..i] + [Span(spans[i].begin, spans[i + 1].end, spans[i].filesource, spans[i].filepath)] + spans[i + 2..]
  }

  /** The gaps after `merge_from` on node `i` with its successor. */
  function MergeGaps(gaps: seq<int>, i: nat): seq<int>
    requires i + 1 < |gaps|
  {
    gaps[..i] + [gaps[i + 1]] + gaps[i + 2..]
  }

  /** Merging a segment with its successor keeps the gaps right, drops one
      segment, keeps the others in order and keeps the first begin and the
      last end. */
  lemma MergeKeepsGaps(spans: seq<Span>, gaps: seq<int>, i: nat)
    requires GapsRight(spans, gaps) && i + 1 < |spans|
    ensures GapsRight(MergeSpans(spans, i), MergeGaps(gaps, i))
    ensures |MergeSpans(spans, i)| == |spans| - 1
    ensures forall j :: 0 <= j < i ==> MergeSpans(spans, i)[j] == spans[j]
    ensures forall j :: i < j < |spans| - 1 ==> MergeSpans(spans, i)[j] == spans[j + 1]
    ensures MergeSpans(spans, i)[0].begin == spans[0].begin
    ensures MergeSpans(spans, i)[|spans| - 2].end == spans[|spans| - 1].end
  {
    var r, g := MergeSpans(spans, i), MergeGaps(gaps, i);
    forall j | 0 <= j < |r| - 1 ensures g[j] == r[j + 1].begin - r[j].end {
      if j < i - 1 {
        assert r[j] == spans[j] && r[j + 1] == spans[j + 1] && g[j] == gaps[j];
      } else if j == i - 1 {
        assert r[j] == spans[j] && r[j + 1].begin == spans[i].begin && g[j] == gaps[j];
      } else if j == i {
        assert r[j].end == spans[i + 1].end && r[j + 1] == spans[i + 2] && g[j] == gaps[i + 1];
      } else {
        assert r[j] == spans[j + 1] && r[j + 1] == spans[j + 2] && g[j] == gaps[j + 1];
      }
    }
  }

  /** The time a prefix of `k` segments and their gaps take up. */
  function Covered(spans: seq<Span>, gaps: seq<int>, k: nat): int
    requires k <= |spans| && |gaps| == |spans|
  {
    if k == 0 then 0 else Covered(spans, gaps, k - 1) + (spans[k - 1].end - spans[k - 1].begin) + gaps[k - 1]
  }

  /** With the gaps right, the first `k` segments and their gaps reach from
      the first begin to the `k`-th end plus its gap. */
  lemma {:induction false} CoveredPrefix(spans: seq<Span>, gaps: seq<int>, k: nat)
    requires GapsRight(spans, gaps) && 0 < k <= |spans|
    ensures Covered(spans, gaps, k) == spans[k - 1].end - spans[0].begin + gaps[k - 1]
  {
    if k > 1 {
      CoveredPrefix(spans, gaps, k - 1);
    }
  }

  /** With the gaps right, the segments and the gaps of a chain tile the time
      from its first begin to its last end exactly. */
  lemma CoveredWhole(spans: seq<Span>, gaps: seq<int>)
    requires GapsRight(spans, gaps) && |spans| > 0
    ensures Covered(spans, gaps, |spans|) == spans[|spans| - 1].end - spans[0].begin
  {
    CoveredPrefix(spans, gaps, |spans|);
  }

  lemma SeqExt<T>(a: seq<T>, b: seq<T>)
    requires |a| == |b| && forall j :: 0 <= j < |a| ==> a[j] == b[j]
    ensures a == b
  {
  }

  /** `merge_from` applied to node `i` of a chain with its successor: the
      successor drops out of the chain and the values change as
      `MergeSpans`/`MergeGaps` say. */
  method MergeWithNext(cur: Segment, ghost nodes: seq<Segment>, ghost i: nat)
    requires Chain(nodes) && i + 1 < |nodes| && nodes[i] == cur
    modifies cur
    ensures Chain(nodes[..i + 1] + nodes[i + 2..])
    ensures Spans(nodes[..i + 1] + nodes[i + 2..]) == MergeSpans(old(Spans(nodes)), i)
    ensures Gaps(nodes[..i + 1] + nodes[i + 2..]) == MergeGaps(old(Gaps(nodes)), i)
  {
    ghost var spans, gaps := Spans(nodes), Gaps(nodes);
    assert cur.next == nodes[i + 1];
    cur.MergeFrom(cur.next);
    ghost var rest := nodes[..i + 1] + nodes[i + 2..];
    ghost var want, wantGaps := MergeSpans(spans, i), MergeGaps(gaps, i);
    forall j | 0 <= j < |rest|
      ensures rest[j].Value() == want[j] && rest[j].gap == wantGaps[j]
      ensures j < |rest| - 1 ==> rest[j].next == rest[j + 1]
    {
      if j < i {
        assert rest[j] == nodes[j] && nodes[j] != cur && rest[j + 1] == nodes[j + 1];
        assert want[j] == spans[j] && wantGaps[j] == gaps[j];
      } else if j == i {
        assert rest[j] == cur;
        assert j < |rest| - 1 ==> rest[j + 1] == nodes[i + 2];
      } else {
        assert rest[j] == nodes[j + 1] && nodes[j + 1] != cur;
        assert j < |rest| - 1 ==> rest[j + 1] == nodes[j + 2];
        assert want[j] == spans[j + 1] && wantGaps[j] == gaps[j + 1];
      }
    }
    SeqExt(Spans(rest), want);
    SeqExt(Gaps(rest), wantGaps);
  }

  /** `prev.set_next(segment)` on the last node of a chain and a new segment
      with no successor: the chain grows by that segment, and the last gap
      becomes the distance to it. */
  method Append(prev: Segment, ghost nodes: seq<Segment>, segment: Segment)
    requires Chain(nodes) && |nodes| > 0 && prev == nodes[|nodes| - 1] && segment !in nodes && segment.next == null
    modifies prev
    ensures Chain(nodes + [segment])
    ensures Spans(nodes + [segment]) == old(Spans(nodes)) + [old(segment.Value())]
    ensures Gaps(nodes + [segment]) ==
      old(Gaps(nodes))[..|nodes| - 1] + [old(segment.begin - prev.end), old(segment.gap)]
  {
    ghost var spans, gaps := Spans(nodes), Gaps(nodes);
    ghost var value, distance, gap := segment.Value(), segment.begin - prev.end, segment.gap;
    prev.SetNext(segment);
    ghost var all := nodes + [segment];
    ghost var want, wantGaps := spans + [value], gaps[..|nodes| - 1] + [distance, gap];
    forall j | 0 <= j < |all|
      ensures all[j].Value() == want[j] && all[j].gap == wantGaps[j]
    {
      if j < |nodes| - 1 {
        assert all[j] == nodes[j] && nodes[j] != prev;
      }
    }
    SeqExt(Spans(all), want);
    SeqExt(Gaps(all), wantGaps);
  }

  /** Appending a segment with gap 0 after recording the distance to it keeps the gaps right. */
  lemma AppendKeepsGaps(spans: seq<Span>, gaps: seq<int>, s: Span)
    requires GapsRight(spans, gaps) && |spans| > 0
    ensures GapsRight(spans + [s], gaps[..|spans| - 1] + [s.begin - spans[|spans| - 1].end, 0])
  {
    var r, g := spans + [s], gaps[..|spans| - 1] + [s.begin - spans[|spans| - 1].end, 0];
    forall j | 0 <= j < |r| - 1 ensures g[j] == r[j + 1].begin - r[j].end {
      if j < |spans| - 1 {
        assert r[j] == spans[j] && r[j + 1] == spans[j + 1] && g[j] == gaps[j];
      }
    }
  }
}
