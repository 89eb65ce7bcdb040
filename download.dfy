/** `get_links_dict` of `audio_tools/download_mp3_files.py`: reads the
    segments file and maps every distinct download link (rewritten to its
    128 kbit/s form when that quality is asked for) to the `speaker/book`
    folder of the first line that carries it, sorted by link. The rewrite
    `get_better_quality_link` is a parameter. */
module DownloadMp3 {
  import opened Common
  import opened PyStr
  import opened PyDict
  import opened AudioConverter

  /** The dictionary the loop fills from the lines' entries, in insertion
      order: a link is inserted by the first entry that carries it and never
      changed afterwards; the first line that fails stops everything. */
  function FirstWins(entries: seq<Result<(string, string)>>): (r: Result<seq<(string, string)>>)
    ensures r.Ok? ==> DistinctKeys(r.value) && |r.value| <= |entries|
  {
    if entries == [] then Ok([])
    else
      var prev := FirstWins(entries[..|entries| - 1]);
      var e := entries[|entries| - 1];
      if prev.Err? then prev
      else if e.Err? then Err(e.error)
      else if Get(prev.value, e.value.0).Some? then prev
      else Ok(Put(prev.value, e.value.0, e.value.1))
  }

  /** Once a prefix of the entries fails, the whole fails the same way. */
  lemma {:induction false} FirstWinsErrorSticky(entries: seq<Result<(string, string)>>, n: nat)
    requires n <= |entries| && FirstWins(entries[..n]).Err?
    ensures FirstWins(entries) == FirstWins(entries[..n])
    decreases |entries| - n
  {
    if n < |entries| {
      var init := entries[..|entries| - 1];
      assert init[..n] == entries[..n];
      FirstWinsErrorSticky(init, n);
    } else {
      assert entries[..n] == entries;
    }
  }

  /** One more entry: a failing entry fails the dictionary, a new key is
      appended, a key already present changes nothing. */
  lemma FirstWinsStep(entries: seq<Result<(string, string)>>, i: nat, d: seq<(string, string)>)
    requires i < |entries| && FirstWins(entries[..i]) == Ok(d)
    ensures entries[i].Err? ==> FirstWins(entries[..i + 1]) == Err(entries[i].error)
    ensures entries[i].Ok? && Get(d, entries[i].value.0).Some? ==> FirstWins(entries[..i + 1]) == Ok(d)
    ensures entries[i].Ok? && Get(d, entries[i].value.0).None? ==>
      DistinctKeys(d) && FirstWins(entries[..i + 1]) == Ok(Put(d, entries[i].value.0, entries[i].value.1))
  {
    assert entries[..i + 1][..i] == entries[..i];
  }

  /** The dictionary is built exactly when every entry is. */
  lemma {:induction false} FirstWinsOk(entries: seq<Result<(string, string)>>)
    ensures FirstWins(entries).Ok? <==> forall i :: 0 <= i < |entries| ==> entries[i].Ok?
  {
    if entries != [] {
      var init := entries[..|entries| - 1];
      FirstWinsOk(init);
      assert forall i :: 0 <= i < |init| ==> init[i] == entries[i];
    }
  }

  /** The error is that of the first entry that fails. */
  lemma {:induction false} FirstWinsError(entries: seq<Result<(string, string)>>, i: nat)
    requires i < |entries| && entries[i].Err?
    requires forall j :: 0 <= j < i ==> entries[j].Ok?
    ensures FirstWins(entries) == Err(entries[i].error)
  {
    var pre := entries[..i + 1];
    assert pre[..i] == entries[..i];
    FirstWinsOk(entries[..i]);
    FirstWinsErrorSticky(entries, i + 1);
  }

  /** With every entry built, a key is in the dictionary exactly when some entry carries it. */
  lemma {:induction false} FirstWinsKeys(entries: seq<Result<(string, string)>>, k: string)
    requires forall i :: 0 <= i < |entries| ==> entries[i].Ok?
    ensures FirstWins(entries).Ok?
    ensures Get(FirstWins(entries).value, k).Some? <==> exists i :: 0 <= i < |entries| && entries[i].value.0 == k
  {
    FirstWinsOk(entries);
    if entries != [] {
      var init := entries[..|entries| - 1];
      FirstWinsOk(init);
      FirstWinsKeys(init, k);
      assert forall i :: 0 <= i < |init| ==> init[i] == entries[i];
    }
  }

  /** With every entry built, a key keeps the value of the first entry that carries it. */
  lemma {:induction false} FirstWinsFirst(entries: seq<Result<(string, string)>>, i: nat)
    requires forall j :: 0 <= j < |entries| ==> entries[j].Ok?
    requires i < |entries| && forall j :: 0 <= j < i ==> entries[j].value.0 != entries[i].value.0
    ensures FirstWins(entries).Ok?
    ensures Get(FirstWins(entries).value, entries[i].value.0) == Some(entries[i].value.1)
  {
    FirstWinsOk(entries);
    var init := entries[..|entries| - 1];
    FirstWinsOk(init);
    if i < |entries| - 1 {
      FirstWinsFirst(init, i);
    } else {
      FirstWinsKeys(init, entries[i].value.0);
    }
  }

  /** The link and folder one line contributes: `filename, link, _, _ =
      line.strip().split("\t")`, `speakerid, bookid, fileid =
      filename.split('_')`, the folder `join(speakerid, bookid)`, and the
      link rewritten when `audio_quality == 128`. */
  function LineEntry(line: string, audioQuality: int, betterLink: string -> string): Result<(string, string)>
  {
    var parsed := ParseSegmentLine(line);
    if parsed.Err? then Err(parsed.error)
    else
      var p := parsed.value;
      Ok((if audioQuality == 128 then betterLink(p.link) else p.link, PathJoin(p.folder1, p.folder2)))
  }

  /** A line's entry exists exactly when the line parses; its link is the
      second tab-separated field of the stripped line, rewritten only for
      quality 128, and its folder joins the first two `_`-separated parts of
      the filename. */
  lemma LineEntryFields(line: string, audioQuality: int, betterLink: string -> string)
    ensures var e, parsed := LineEntry(line, audioQuality, betterLink), ParseSegmentLine(line);
      && (e.Ok? <==> parsed.Ok?)
      && (e.Err? ==> e.error == parsed.error)
    ensures LineEntry(line, audioQuality, betterLink).Ok? ==>
      var fields, e := Split(Strip(line), '\t'), LineEntry(line, audioQuality, betterLink).value;
      var parts := Split(fields[0], '_');
      && |fields| == 4 && |parts| == 3
      && e.0 == (if audioQuality == 128 then betterLink(fields[1]) else fields[1])
      && e.1 == PathJoin(parts[0], parts[1])
  {
    if ParseSegmentLine(line).Ok? {
      ParseSegmentLineFields(line);
    }
  }

  /** `entry` applied to every line, in file order. */
  function EntriesOf(entry: string -> Result<(string, string)>, lines: seq<string>): (entries: seq<Result<(string, string)>>)
    ensures |entries| == |lines| && forall i :: 0 <= i < |lines| ==> entries[i] == entry(lines[i])
  {
    seq(|lines|, i requires 0 <= i < |lines| => entry(lines[i]))
  }

  /** The entries of all lines of the segments file. */
  function Entries(lines: seq<string>, audioQuality: int, betterLink: string -> string): seq<Result<(string, string)>>
  {
    EntriesOf(line => LineEntry(line, audioQuality, betterLink), lines)
  }

  /** What `get_links_dict` returns: the dictionary sorted by link. */
  function OrderedLinks(lines: seq<string>, audioQuality: int, betterLink: string -> string): Result<seq<(string, string)>>
  {
    var d := FirstWins(Entries(lines, audioQuality, betterLink));
    if d.Err? then Err(d.error) else Ok(SortByKey(d.value))
  }

  /** The loop of `get_links_dict`: each line's entry is inserted unless its
      link is already a key; the first line that fails ends the loop with
      its error. */
  method FillLinks(lines: seq<string>, entry: string -> Result<(string, string)>)
    returns (r: Result<seq<(string, string)>>)
    ensures r == FirstWins(EntriesOf(entry, lines))
  {
    ghost var entries := EntriesOf(entry, lines);
    var linksDict: seq<(string, string)> := [];
    for i := 0 to |lines|
      invariant FirstWins(entries[..i]) == Ok(linksDict)
    {
      var e := entry(lines[i]);
      FirstWinsStep(entries, i, linksDict);
      if e.Err? {
        FirstWinsErrorSticky(entries, i + 1);
        return Err(e.error);
      }
      var (link, outputFolder) := e.value;
      if Get(linksDict, link).None? {
        linksDict := Put(linksDict, link, outputFolder);
      }
    }
    assert entries[..|lines|] == entries;
    r := Ok(linksDict);
  }

  /** `get_links_dict(segments_filepath, audio_quality)`, on the lines of the
      file: fills the dictionary, then sorts its items by link. */
  method GetLinksDict(lines: seq<string>, audioQuality: int, betterLink: string -> string)
    returns (r: Result<seq<(string, string)>>)
    ensures r == OrderedLinks(lines, audioQuality, betterLink)
  {
    var linksDict := FillLinks(lines, line => LineEntry(line, audioQuality, betterLink));
    if linksDict.Err? {
      return Err(linksDict.error);
    }
    r := Ok(SortByKey(linksDict.value));
  }

  /** `get_links_dict` raises the error of the first line that does not
      parse. */
  lemma OrderedLinksError(lines: seq<string>, audioQuality: int, betterLink: string -> string, i: nat)
    requires i < |lines| && ParseSegmentLine(lines[i]).Err?
    requires forall j :: 0 <= j < i ==> ParseSegmentLine(lines[j]).Ok?
    ensures OrderedLinks(lines, audioQuality, betterLink) == Err(ParseSegmentLine(lines[i]).error)
  {
    FirstWinsError(Entries(lines, audioQuality, betterLink), i);
  }

  /** When every line parses, the result has at most one entry per line,
      its links strictly ascending, and holds exactly the links the lines carry. */
  lemma OrderedLinksKeys(lines: seq<string>, audioQuality: int, betterLink: string -> string, link: string)
    requires forall j :: 0 <= j < |lines| ==> ParseSegmentLine(lines[j]).Ok?
    ensures var r := OrderedLinks(lines, audioQuality, betterLink);
      && r.Ok? && StrictlySorted(r.value) && |r.value| <= |lines|
      && (Get(r.value, link).Some? <==>
            exists i :: 0 <= i < |lines| && LineEntry(lines[i], audioQuality, betterLink).value.0 == link)
  {
    var entries := Entries(lines, audioQuality, betterLink);
    EntriesOk(lines, audioQuality, betterLink);
    FirstWinsKeys(entries, link);
    if Get(FirstWins(entries).value, link).Some? {
      var i :| 0 <= i < |entries| && entries[i].value.0 == link;
      assert LineEntry(lines[i], audioQuality, betterLink).value.0 == link;
    }
    if exists i :: 0 <= i < |lines| && LineEntry(lines[i], audioQuality, betterLink).value.0 == link {
      var i :| 0 <= i < |lines| && LineEntry(lines[i], audioQuality, betterLink).value.0 == link;
      assert entries[i].value.0 == link;
    }
  }

  /** Every entry is built when every line parses. */
  lemma EntriesOk(lines: seq<string>, audioQuality: int, betterLink: string -> string)
    requires forall j :: 0 <= j < |lines| ==> ParseSegmentLine(lines[j]).Ok?
    ensures forall j :: 0 <= j < |lines| ==> Entries(lines, audioQuality, betterLink)[j].Ok?
  {
  }

  /** The folder kept for a link is the one of the first line that carries it. */
  lemma OrderedLinksFirstWins(lines: seq<string>, audioQuality: int, betterLink: string -> string, i: nat)
    requires forall j :: 0 <= j < |lines| ==> ParseSegmentLine(lines[j]).Ok?
    requires i < |lines|
    requires forall j :: 0 <= j < i ==>
      LineEntry(lines[j], audioQuality, betterLink).value.0 != LineEntry(lines[i], audioQuality, betterLink).value.0
    ensures var r, e := OrderedLinks(lines, audioQuality, betterLink), LineEntry(lines[i], audioQuality, betterLink).value;
      r.Ok? && Get(r.value, e.0) == Some(e.1)
  {
    FirstWinsFirst(Entries(lines, audioQuality, betterLink), i);
  }
}
