/** The transcript-to-book driver of `execute_text_converter_beta.py`:
    `get_transcripts`, which turns `filename<TAB>text` lines into a
    filename-sorted dictionary, and `execute`, which walks the transcripts,
    keeps the current book loaded, calls the search engine and writes one
    `|`-separated row per transcript. Book files, text cleaning and the
    search engine itself are parameters. */
module ConverterBeta {
  import opened Common
  import opened PyStr
  import opened PyDict
  import opened Records

  /** A transcript line unpacks into exactly `filename, text`. */
  predicate WellFormed(line: string) {
    |Split(line, '\t')| == 2
  }

  /** The first tab-separated field of a line. */
  function FileName(line: string): string {
    Split(line, '\t')[0]
  }

  /** The second tab-separated field of a well-formed line. */
  function Text(line: string): string
    requires WellFormed(line)
  {
    Split(line, '\t')[1]
  }

  /** The dictionary `get_transcripts` fills, in insertion order: each line's
      filename mapped to its stripped text, a later line overwriting an earlier one. */
  function TranscriptDict(lines: seq<string>): (r: Result<seq<(string, string)>>)
    ensures r.Ok? ==> DistinctKeys(r.value)
    ensures r.Err? ==> r.error.UnpackError?
  {
    if lines == [] then Ok([])
    else
      var prev := TranscriptDict(lines[..|lines| - 1]);
      if prev.Err? then prev
      else
        var fields := Unpack(lines[|lines| - 1], '\t', 2);
        if fields.Err? then Err(fields.error)
        else Ok(Put(prev.value, fields.value[0], Strip(fields.value[1])))
  }

  /** What `get_transcripts` returns: the dictionary's items sorted by filename. */
  function OrderedTranscripts(lines: seq<string>): Result<seq<(string, string)>>
  {
    var d := TranscriptDict(lines);
    if d.Err? then Err(d.error) else Ok(SortByKey(d.value))
  }

  /** Once a prefix of the lines fails, the whole fails the same way. */
  lemma {:induction false} DictErrorSticky(lines: seq<string>, n: nat)
    requires n <= |lines| && TranscriptDict(lines[..n]).Err?
    ensures TranscriptDict(lines) == TranscriptDict(lines[..n])
    decreases |lines| - n
  {
    if n < |lines| {
      var init := lines[..|lines| - 1];
      assert init[..n] == lines[..n];
      DictErrorSticky(init, n);
    } else {
      assert lines[..n] == lines;
    }
  }

  /** `get_transcripts(transcripts_text)`: fills the dictionary line by line, then sorts it. */
  method GetTranscripts(lines: seq<string>) returns (r: Result<seq<(string, string)>>)
    ensures r == OrderedTranscripts(lines)
    ensures r.Err? ==> r.error.UnpackError?
  {
    var d: seq<(string, string)> := [];
    for i := 0 to |lines|
      invariant TranscriptDict(lines[..i]) == Ok(d)
    {
      assert lines[..i + 1][..i] == lines[..i];
      var fields := Unpack(lines[i], '\t', 2);
      if fields.Err? {
        DictErrorSticky(lines, i + 1);
        return Err(fields.error);
      }
      d := Put(d, fields.value[0], Strip(fields.value[1]));
    }
    assert lines[..|lines|] == lines;
    r := Ok(SortByKey(d));
  }

  lemma {:induction false} DictOk(lines: seq<string>)
    requires forall i :: 0 <= i < |lines| ==> WellFormed(lines[i])
    ensures TranscriptDict(lines).Ok?
  {
    if lines != [] {
      DictOk(lines[..|lines| - 1]);
    }
  }

  /** `get_transcripts` raises the `ValueError` of the first line that does
      not split into exactly two tab-separated fields. */
  lemma {:induction false} OrderedTranscriptsError(lines: seq<string>, i: nat)
    requires i < |lines| && !WellFormed(lines[i])
    requires forall j :: 0 <= j < i ==> WellFormed(lines[j])
    ensures OrderedTranscripts(lines) == Err(UnpackError(2, |Split(lines[i], '\t')|))
  {
    var pre := lines[..i + 1];
    assert pre[..i] == lines[..i];
    DictOk(lines[..i]);
    DictErrorSticky(lines, i + 1);
  }

  /** The first fields of the lines, in order. */
  function FileNames(lines: seq<string>): (names: seq<string>)
    ensures |names| == |lines| && forall i :: 0 <= i < |lines| ==> names[i] == FileName(lines[i])
  {
    if lines == [] then [] else FileNames(lines[..|lines| - 1]) + [FileName(lines[|lines| - 1])]
  }

  /** A well-formed last line puts its filename and stripped text into the dictionary of the lines before it. */
  lemma DictStep(lines: seq<string>)
    requires lines != [] && forall i :: 0 <= i < |lines| ==> WellFormed(lines[i])
    ensures TranscriptDict(lines).Ok? && TranscriptDict(lines[..|lines| - 1]).Ok?
    ensures var last := lines[|lines| - 1];
      TranscriptDict(lines).value == Put(TranscriptDict(lines[..|lines| - 1]).value, FileName(last), Strip(Text(last)))
  {
    DictOk(lines);
    DictOk(lines[..|lines| - 1]);
  }

  /** The filenames present in the dictionary are exactly the first fields of the lines. */
  lemma {:induction false} DictKeys(lines: seq<string>, k: string)
    requires forall i :: 0 <= i < |lines| ==> WellFormed(lines[i])
    ensures TranscriptDict(lines).Ok?
    ensures Get(TranscriptDict(lines).value, k).Some? <==> k in FileNames(lines)
  {
    DictOk(lines);
    if lines != [] {
      var init := lines[..|lines| - 1];
      DictKeys(init, k);
      DictStep(lines);
      assert FileNames(lines) == FileNames(init) + [FileName(lines[|lines| - 1])];
    }
  }

  /** For every filename, the dictionary holds the stripped text of the last line that carries it. */
  lemma {:induction false} DictLastWins(lines: seq<string>, i: nat)
    requires forall j :: 0 <= j < |lines| ==> WellFormed(lines[j])
    requires i < |lines| && forall j :: i < j < |lines| ==> FileName(lines[j]) != FileName(lines[i])
    ensures TranscriptDict(lines).Ok?
    ensures Get(TranscriptDict(lines).value, FileName(lines[i])) == Some(Strip(Text(lines[i])))
  {
    DictStep(lines);
    if i < |lines| - 1 {
      var init := lines[..|lines| - 1];
      DictLastWins(init, i);
    }
  }

  /** When every line is well formed, `get_transcripts` succeeds; its keys are
      strictly ascending and are exactly the filenames of the lines. */
  lemma OrderedTranscriptsKeys(lines: seq<string>, k: string)
    requires forall i :: 0 <= i < |lines| ==> WellFormed(lines[i])
    ensures OrderedTranscripts(lines).Ok? && StrictlySorted(OrderedTranscripts(lines).value)
    ensures Get(OrderedTranscripts(lines).value, k).Some? <==> k in FileNames(lines)
  {
    DictKeys(lines, k);
  }

  /** For a duplicated filename the later line's stripped text is the one kept. */
  lemma OrderedTranscriptsLastWins(lines: seq<string>, i: nat)
    requires forall j :: 0 <= j < |lines| ==> WellFormed(lines[j])
    requires i < |lines| && forall j :: i < j < |lines| ==> FileName(lines[j]) != FileName(lines[i])
    ensures OrderedTranscripts(lines).Ok?
    ensures Get(OrderedTranscripts(lines).value, FileName(lines[i])) == Some(Strip(Text(lines[i])))
  {
    DictLastWins(lines, i);
  }

  /** The value `book_id` holds once the ids `ids` have been seen, starting from `start`. */
  function LastId(start: string, ids: seq<string>): string {
    if ids == [] then start else ids[|ids| - 1]
  }

  /** The book ids `execute` loads, in order, while it sees the ids `ids`
      with `book_id == start`: one load each time the id changes. */
  function Reloads(start: string, ids: seq<string>): seq<string> {
    if ids == [] then []
    else
      var init := ids[..|ids| - 1];
      Reloads(start, init) + (if ids[|ids| - 1] != LastId(start, init) then [ids[|ids| - 1]] else [])
  }

  /** Reloading over two stretches of ids is reloading over each, the second
      starting from where the first left `book_id`. */
  lemma {:induction false} ReloadsAppend(start: string, a: seq<string>, b: seq<string>)
    ensures Reloads(start, a + b) == Reloads(start, a) + Reloads(LastId(start, a), b)
    ensures LastId(start, a + b) == LastId(LastId(start, a), b)
    decreases |b|
  {
    if b == [] {
      assert a + b == a;
    } else {
      var b' := b[..|b| - 1];
      assert (a + b)[..|a + b| - 1] == a + b';
      ReloadsAppend(start, a, b');
    }
  }

  /** At most one load per transcript, and each loaded id is one of the ids seen. */
  lemma {:induction false} ReloadsBound(start: string, ids: seq<string>)
    ensures |Reloads(start, ids)| <= |ids|
    ensures forall x <- Reloads(start, ids) :: x in ids
  {
    if ids != [] {
      ReloadsBound(start, ids[..|ids| - 1]);
    }
  }

  /** Two consecutive loads are of different books, the first differs from the
      starting id, and the last loaded book is the current one. */
  lemma {:induction false} ReloadsChange(start: string, ids: seq<string>)
    ensures var r := Reloads(start, ids);
      && (forall i :: 0 <= i < |r| - 1 ==> r[i] != r[i + 1])
      && (r != [] ==> r[0] != start && r[|r| - 1] == LastId(start, ids))
      && (r == [] ==> LastId(start, ids) == start)
  {
    if ids != [] {
      var init := ids[..|ids| - 1];
      ReloadsChange(start, init);
      var prev, x := Reloads(start, init), ids[|ids| - 1];
      assert LastId(start, ids) == x;
      if x != LastId(start, init) {
        var r := prev + [x];
        assert Reloads(start, ids) == r;
        forall i | 0 <= i < |r| - 1 ensures r[i] != r[i + 1] {
          if i < |prev| - 1 {
            assert r[i] == prev[i] && r[i + 1] == prev[i + 1];
          } else {
            assert r[i] == prev[|prev| - 1] && r[i + 1] == x;
          }
        }
      } else {
        assert Reloads(start, ids) == prev;
      }
    }
  }

  /** The book is loaded only when the id differs from the previous one: a run
      of transcripts of one book other than the current one loads it exactly once. */
  lemma {:induction false} ReloadsOneBook(start: string, ids: seq<string>, b: string)
    requires ids != [] && b != start && forall x <- ids :: x == b
    ensures Reloads(start, ids) == [b]
  {
    if |ids| == 1 {
      assert ids[0] in ids;
    } else {
      var init := ids[..|ids| - 1];
      assert forall x <- init :: x in ids;
      ReloadsOneBook(start, init, b);
      assert ids[|ids| - 1] in ids && init[|init| - 1] in ids;
      assert LastId(start, init) == b == ids[|ids| - 1];
    }
  }

  /** The arguments of one call of `execute_threads_search_substring_by_char`
      (`byChar`) or `execute_threads_search_substring_by_word`. */
  datatype SearchCall = SearchCall(byChar: bool, query: string, book: string, startPosition: int, metric: string, threads: int)

  /** What `execute` works with besides the transcripts: the language name,
      the kind of search and the thread count, and the collaborators it
      calls — reading `<books>/<language>/<id>.txt`, `text_cleaning`, the
      search engine and `str` of a similarity. */
  datatype Env<!S> = Env(language: string, byChar: bool, threads: int,
                        readBook: (string, string) -> string, clean: string -> string,
                        search: SearchCall -> Match<S>, render: S -> string)

  /** The cleaned text of book `id`. */
  function BookText<S>(env: Env<S>, id: string): string {
    env.clean(env.readBook(env.language, id))
  }

  /** The locals `book_id` and `book_text`; `text` is `None` while `book_text`
      has not been assigned. */
  datatype Book = Book(id: string, text: Option<string>)

  /** `book_text`, once assigned, is the cleaned text of book `book_id`. */
  predicate Loaded<S>(env: Env<S>, b: Book) {
    b.text.Some? ==> b.text.value == BookText(env, b.id)
  }

  /** One transcript `execute` searched for: its filename, its book id and the call made. */
  datatype Search = Search(filename: string, bookId: string, call: SearchCall)

  function BookIds(searches: seq<Search>): (ids: seq<string>)
    ensures |ids| == |searches| && forall k :: 0 <= k < |searches| ==> ids[k] == searches[k].bookId
  {
    if searches == [] then [] else BookIds(searches[..|searches| - 1]) + [searches[|searches| - 1].bookId]
  }

  lemma BookIdsSnoc(searches: seq<Search>, s: Search)
    ensures BookIds(searches + [s]) == BookIds(searches) + [s.bookId]
  {
    assert (searches + [s])[..|searches|] == searches;
  }

  lemma {:induction false} BookIdsAppend(a: seq<Search>, b: seq<Search>)
    ensures BookIds(a + b) == BookIds(a) + BookIds(b)
  {
    assert |BookIds(a + b)| == |BookIds(a) + BookIds(b)|;
  }

  /** The searches were made, in order, for the first `|searches|` transcripts of `entries`. */
  predicate Follows(searches: seq<Search>, entries: seq<(string, string)>) {
    && |searches| <= |entries|
    && forall j :: 0 <= j < |searches| ==> searches[j].filename == entries[j].0 && searches[j].call.query == entries[j].1
  }

  lemma FollowsExtend(searches: seq<Search>, entries: seq<(string, string)>, s: Search)
    requires Follows(searches, entries) && |searches| < |entries|
    requires s.filename == entries[|searches|].0 && s.call.query == entries[|searches|].1
    ensures Follows(searches + [s], entries)
  {
    var all := searches + [s];
    assert forall j :: 0 <= j < |searches| ==> all[j] == searches[j];
  }

  function Flatten(trace: seq<seq<Search>>): seq<Search> {
    if trace == [] then [] else Flatten(trace[..|trace| - 1]) + trace[|trace| - 1]
  }

  lemma FlattenSnoc(trace: seq<seq<Search>>, last: seq<Search>)
    ensures Flatten(trace + [last]) == Flatten(trace) + last
  {
    assert (trace + [last])[..|trace|] == trace;
  }

  /** A search made as `execute` makes it: the book id taken from the
      filename, the cleaned text of that book, start position 0 and the
      Hamming metric, whatever `sequenced_text` and `similarity_metric` say. */
  predicate MadeRight<S>(s: Search, env: Env<S>) {
    && BookId(s.filename) == Ok(s.bookId)
    && s.call == SearchCall(env.byChar, s.call.query, BookText(env, s.bookId), 0, "hamming", env.threads)
  }

  predicate AllMadeRight<S>(searches: seq<Search>, env: Env<S>) {
    forall s <- searches :: MadeRight(s, env)
  }

  /** The output row of a search that found `m`, a match whose text is not `None`. */
  function RowOf<S>(s: Search, m: Match<S>, render: S -> string): string
    requires m.text.Some?
  {
    FormatRow(s.filename, s.call.query, m.text.value, render(m.similarity))
  }

  /** `rows` are the rows written for the first `|rows|` searches. */
  predicate RowsFor<S>(rows: seq<string>, searches: seq<Search>, env: Env<S>) {
    && |rows| <= |searches|
    && forall k :: 0 <= k < |rows| ==>
         env.search(searches[k].call).text.Some? && rows[k] == RowOf(searches[k], env.search(searches[k].call), env.render)
  }

  lemma RowsForKeep<S>(rows: seq<string>, searches: seq<Search>, s: Search, env: Env<S>)
    requires RowsFor(rows, searches, env)
    ensures RowsFor(rows, searches + [s], env)
  {
    var all := searches + [s];
    assert forall k :: 0 <= k < |searches| ==> all[k] == searches[k];
  }

  lemma RowsForExtend<S>(rows: seq<string>, searches: seq<Search>, s: Search, m: Match<S>, env: Env<S>)
    requires RowsFor(rows, searches, env) && |rows| == |searches|
    requires m == env.search(s.call) && m.text.Some?
    ensures RowsFor(rows + [RowOf(s, m, env.render)], searches + [s], env)
  {
    var all := searches + [s];
    var rows' := rows + [RowOf(s, m, env.render)];
    forall k | 0 <= k < |rows'|
      ensures env.search(all[k].call).text.Some? && rows'[k] == RowOf(all[k], env.search(all[k].call), env.render)
    {
      if k == |rows| {
        assert all[k] == s;
      } else {
        assert all[k] == searches[k] && rows'[k] == rows[k];
      }
    }
  }

  /** The state of the inner loop of `execute` over the sorted transcripts
      `entries` of one file, entered with `start` as `book_id`/`book_text`:
      the searches made so far follow the transcripts and are made right,
      `rows` are their rows, the books were loaded as `Reloads` says and
      `book` is the current `book_id`/`book_text`. With `book_text` not yet
      assigned, the first transcript searched names another book than
      `book_id`, since a search under the same id reads `book_text`. */
  predicate Progress<S>(env: Env<S>, entries: seq<(string, string)>, start: Book,
                        rows: seq<string>, searches: seq<Search>, book: Book, loads: seq<string>)
  {
    && Follows(searches, entries)
    && AllMadeRight(searches, env)
    && RowsFor(rows, searches, env)
    && loads == Reloads(start.id, BookIds(searches))
    && book.id == LastId(start.id, BookIds(searches))
    && Loaded(env, book)
    && (book.text.None? ==> start.text.None? && searches == [] && book == start)
    && (searches == [] ==> book == start)
    && (start.text.None? && searches != [] ==> searches[0].bookId != start.id && BookId(entries[0].0) != Ok(start.id))
  }

  /** A search for the next transcript, made right, keeps the loop state,
      with `book_id`/`book_text` set to its book and one more load when the
      book changed. */
  lemma ProgressSearch<S>(env: Env<S>, entries: seq<(string, string)>, start: Book,
                          rows: seq<string>, searches: seq<Search>, book: Book, loads: seq<string>, s: Search,
                          book': Book, loads': seq<string>)
    requires Progress(env, entries, start, rows, searches, book, loads)
    requires |searches| < |entries| && s.filename == entries[|searches|].0 && s.call.query == entries[|searches|].1
    requires MadeRight(s, env) && (book.id != s.bookId || book.text.Some?)
    requires book' == (if s.bookId != book.id then Book(s.bookId, Some(BookText(env, s.bookId))) else book)
    requires loads' == (if s.bookId != book.id then loads + [s.bookId] else loads)
    ensures Progress(env, entries, start, rows, searches + [s], book', loads')
  {
    BookIdsSnoc(searches, s);
    var ids := BookIds(searches);
    assert (ids + [s.bookId])[..|searches|] == ids;
    FollowsExtend(searches, entries, s);
    RowsForKeep(rows, searches, s, env);
  }

  /** Writing the row of the last search keeps the loop state. */
  lemma ProgressRow<S>(env: Env<S>, entries: seq<(string, string)>, start: Book,
                       rows: seq<string>, searches: seq<Search>, book: Book, loads: seq<string>, s: Search, m: Match<S>)
    requires Progress(env, entries, start, rows, searches + [s], book, loads) && |rows| == |searches|
    requires m == env.search(s.call) && m.text.Some?
    ensures Progress(env, entries, start, rows + [RowOf(s, m, env.render)], searches + [s], book, loads)
  {
    assert RowsFor(rows, searches, env) by {
      var all := searches + [s];
      forall k | 0 <= k < |rows|
        ensures env.search(searches[k].call).text.Some? && rows[k] == RowOf(searches[k], env.search(searches[k].call), env.render)
      {
        assert all[k] == searches[k];
      }
    }
    RowsForExtend(rows, searches, s, m, env);
  }

  /** One iteration of the inner loop of `execute`: the book id of the next
      transcript's filename, the reload when it differs from `book_id`, the
      search and the row. On `IndexError` (no `_` in the filename) and on
      `UnboundLocalError` (`book_text` read before it was ever assigned)
      nothing changes; on `AttributeError` (the search found nothing, so its
      text is `None`) the search was made but no row was written. */
  method SearchEntry<S>(env: Env<S>, entries: seq<(string, string)>, start: Book,
                        rows: seq<string>, searches: seq<Search>, book: Book, loads: seq<string>)
    returns (rows': seq<string>, searches': seq<Search>, book': Book, loads': seq<string>, err: Option<Error>)
    requires Progress(env, entries, start, rows, searches, book, loads)
    requires |rows| == |searches| < |entries|
    ensures Progress(env, entries, start, rows', searches', book', loads')
    ensures err.None? ==> |rows'| == |searches'| == |searches| + 1
    ensures err == Some(AttributeError) ==>
      |rows'| == |searches| && |searches'| == |searches| + 1 && !env.search(searches'[|searches|].call).text.Some?
    ensures err.Some? && err != Some(AttributeError) ==>
      rows' == rows && searches' == searches && book' == book && loads' == loads
    ensures err == Some(IndexError) <==> BookId(entries[|searches|].0).Err?
    ensures err == Some(UnboundLocalError("book_text")) <==>
      BookId(entries[|searches|].0) == Ok(book.id) && book.text.None?
    ensures err.None? || err == Some(IndexError) || err == Some(UnboundLocalError("book_text")) || err == Some(AttributeError)
  {
    rows', searches', book', loads', err := rows, searches, book, loads, None;
    var filename, text := entries[|searches|].0, entries[|searches|].1;
    var id := BookId(filename);
    if id.Err? {
      err := Some(IndexError);
      return;
    }
    if id.value == book.id && book.text.None? {
      err := Some(UnboundLocalError("book_text"));
      return;
    }
    if id.value != book.id {
      book' := Book(id.value, Some(BookText(env, id.value)));
      loads' := loads + [id.value];
    }
    var call := SearchCall(env.byChar, text, book'.text.value, 0, "hamming", env.threads);
    var s := Search(filename, id.value, call);
    ProgressSearch(env, entries, start, rows, searches, book, loads, s, book', loads');
    searches' := searches + [s];
    var m := env.search(call);
    if m.text.Some? {
      ProgressRow(env, entries, start, rows, searches, book', loads', s, m);
      rows' := rows + [RowOf(s, m, env.render)];
    } else {
      err := Some(AttributeError);
    }
  }

  /** The inner loop of `execute` over the sorted transcripts `entries` of
      one file, entered with `start` as `book_id`/`book_text`. */
  method ExecuteFile<S>(env: Env<S>, entries: seq<(string, string)>, start: Book)
    returns (rows: seq<string>, searches: seq<Search>, book: Book, loads: seq<string>, err: Option<Error>)
    requires Loaded(env, start)
    ensures Progress(env, entries, start, rows, searches, book, loads)
    ensures err.None? ==> |rows| == |searches| == |entries|
    ensures err == Some(AttributeError) ==>
      |searches| > 0 && |rows| == |searches| - 1 && !env.search(searches[|rows|].call).text.Some?
    ensures err.Some? && err != Some(AttributeError) ==> |rows| == |searches| < |entries|
    ensures err == Some(IndexError) ==> BookId(entries[|searches|].0).Err?
    ensures err == Some(UnboundLocalError("book_text")) ==>
      searches == [] && start.text.None? && BookId(entries[0].0) == Ok(start.id)
    ensures start.text.None? && entries != [] && BookId(entries[0].0) == Ok(start.id) ==>
      err == Some(UnboundLocalError("book_text"))
    ensures err.None? || err == Some(IndexError) || err == Some(UnboundLocalError("book_text")) || err == Some(AttributeError)
  {
    rows, searches, book, loads, err := [], [], start, [], None;
    for k := 0 to |entries|
      invariant Progress(env, entries, start, rows, searches, book, loads)
      invariant |rows| == |searches| == k
    {
      var e;
      rows, searches, book, loads, e := SearchEntry(env, entries, start, rows, searches, book, loads);
      if e.Some? {
        err := e;
        return;
      }
    }
  }

  /** `transcript_file.split('/')[1]` turned into `output_<language>_<name>.csv`. */
  function OutputFilename(language: string, path: string): (r: Result<string>)
    ensures r.Ok? <==> '/' in path
    ensures r.Err? ==> r.error == IndexError
    ensures r.Ok? ==> exists name :: '/' !in name && r.value == "output_" + language + "_" + name + ".csv"
  {
    var parts := Split(path, '/');
    if |parts| < 2 then Err(IndexError) else Ok("output_" + language + "_" + parts[1] + ".csv")
  }

  /** The name inside the output filename is the text of the path right
      after its first `/`, up to the next `/` (at `j`) or the end. */
  lemma OutputFilenameLocated(language: string, path: string, j: nat)
    requires '/' in path && IndexOf(path, '/') < j <= |path|
    requires '/' !in path[IndexOf(path, '/') + 1..j] && (j == |path| || path[j] == '/')
    ensures OutputFilename(language, path) == Ok("output_" + language + "_" + path[IndexOf(path, '/') + 1..j] + ".csv")
  {
    SecondPieceAt(path, '/', j);
  }

  /** A transcript file that went through whole: `output` is named after
      it, its transcripts unpacked and sorted, one search per transcript in
      that order, each made right, and one row per search. */
  predicate FileDone<S>(env: Env<S>, file: TranscriptFile, output: (string, seq<string>), searches: seq<Search>) {
    && OutputFilename(env.language, file.path) == Ok(output.0)
    && OrderedTranscripts(file.lines).Ok?
    && Follows(searches, OrderedTranscripts(file.lines).value)
    && |searches| == |OrderedTranscripts(file.lines).value| && |output.1| == |searches|
    && AllMadeRight(searches, env) && RowsFor(output.1, searches, env)
  }

  /** A transcript file that went through, possibly not to the end: `output`
      is named after it, the searches made follow its sorted transcripts and
      are made right, and the rows written are theirs. */
  predicate FileBegun<S>(env: Env<S>, file: TranscriptFile, output: (string, seq<string>), searches: seq<Search>) {
    && OutputFilename(env.language, file.path) == Ok(output.0)
    && (searches != [] ==> OrderedTranscripts(file.lines).Ok? && Follows(searches, OrderedTranscripts(file.lines).value))
    && AllMadeRight(searches, env) && RowsFor(output.1, searches, env)
  }

  /** The environment `execute` builds from its arguments once the language is known. */
  function EnvOf<S>(language: string, searchType: string, numberThreads: int,
                    readBook: (string, string) -> string, clean: string -> string,
                    search: SearchCall -> Match<S>, render: S -> string): Env<S>
  {
    Env(language, searchType == "char", numberThreads, readBook, clean, search, render)
  }

  /** The state of the outer loop of `execute` once the files before `|outputs|` went through. */
  predicate Passed<S>(env: Env<S>, files: seq<TranscriptFile>, outputs: seq<(string, seq<string>)>,
                      trace: seq<seq<Search>>, book: Book, loads: seq<string>)
  {
    && |trace| == |outputs| <= |files|
    && (forall g {:trigger FileDone(env, files[g], outputs[g], trace[g])} ::
          0 <= g < |outputs| ==> FileDone(env, files[g], outputs[g], trace[g]))
    && loads == Reloads("", BookIds(Flatten(trace)))
    && book.id == LastId("", BookIds(Flatten(trace)))
    && Loaded(env, book)
    && (book.text.None? ==> Flatten(trace) == [] && book.id == "")
    && (Flatten(trace) == [] ==> book == Book("", None))
    && FirstNamed(trace)
  }

  /** The first transcript the run searched names a book other than the
      initial `book_id = ''`, so `book_text` was assigned before that search. */
  predicate FirstNamed(trace: seq<seq<Search>>) {
    Flatten(trace) != [] ==> Flatten(trace)[0].bookId != ""
  }

  /** The files before `n` have at least one line. */
  predicate NonEmptyBefore(files: seq<TranscriptFile>, n: int) {
    forall g :: 0 <= g < n && g < |files| ==> files[g].lines != []
  }

  lemma NonEmptyStep(files: seq<TranscriptFile>, n: nat)
    requires NonEmptyBefore(files, n) && n < |files| && files[n].lines != []
    ensures NonEmptyBefore(files, n + 1)
  {
  }

  /** The searches of one more file, entered with `book`, keep the first search named. */
  lemma FirstNamedSnoc(trace: seq<seq<Search>>, searches: seq<Search>, book: Book)
    requires FirstNamed(trace) && (Flatten(trace) == [] ==> book == Book("", None))
    requires book.text.None? && searches != [] ==> searches[0].bookId != book.id
    ensures FirstNamed(trace + [searches])
  {
    FlattenSnoc(trace, searches);
    if Flatten(trace) != [] {
      assert (Flatten(trace) + searches)[0] == Flatten(trace)[0];
    } else {
      assert Flatten(trace) + searches == searches;
    }
  }

  /** What a run of `execute` left behind, whatever ended it: the outputs,
      each file's searches and rows as far as they went (the files before
      the last one, and the last one too when `whole`, went through whole)
      and the books loaded. */
  predicate Ran<S>(env: Env<S>, files: seq<TranscriptFile>, outputs: seq<(string, seq<string>)>,
                   trace: seq<seq<Search>>, loads: seq<string>, whole: bool)
  {
    && |trace| == |outputs| <= |files|
    && (forall g {:trigger FileBegun(env, files[g], outputs[g], trace[g])} ::
          0 <= g < |outputs| ==> FileBegun(env, files[g], outputs[g], trace[g]))
    && (forall g {:trigger FileDone(env, files[g], outputs[g], trace[g])} ::
          0 <= g < |outputs| && (whole || g < |outputs| - 1) ==> FileDone(env, files[g], outputs[g], trace[g]))
    && loads == Reloads("", BookIds(Flatten(trace)))
    && FirstNamed(trace)
  }

  lemma FileDoneBegun<S>(env: Env<S>, file: TranscriptFile, output: (string, seq<string>), searches: seq<Search>)
    requires FileDone(env, file, output, searches)
    ensures FileBegun(env, file, output, searches)
  {
  }

  lemma PassedRan<S>(env: Env<S>, files: seq<TranscriptFile>, outputs: seq<(string, seq<string>)>,
                     trace: seq<seq<Search>>, book: Book, loads: seq<string>)
    requires Passed(env, files, outputs, trace, book, loads)
    ensures Ran(env, files, outputs, trace, loads, true)
  {
    forall g | 0 <= g < |outputs| ensures FileBegun(env, files[g], outputs[g], trace[g]) {
      assert FileDone(env, files[g], outputs[g], trace[g]);
      FileDoneBegun(env, files[g], outputs[g], trace[g]);
    }
  }

  /** The searches of one more file, entered with `book`, extend the books loaded. */
  lemma LoadsStep(trace: seq<seq<Search>>, book: Book, loads: seq<string>,
                  searches: seq<Search>, book': Book, fileLoads: seq<string>)
    requires loads == Reloads("", BookIds(Flatten(trace))) && book.id == LastId("", BookIds(Flatten(trace)))
    requires fileLoads == Reloads(book.id, BookIds(searches)) && book'.id == LastId(book.id, BookIds(searches))
    ensures loads + fileLoads == Reloads("", BookIds(Flatten(trace + [searches])))
    ensures book'.id == LastId("", BookIds(Flatten(trace + [searches])))
  {
    FlattenSnoc(trace, searches);
    BookIdsAppend(Flatten(trace), searches);
    ReloadsAppend("", BookIds(Flatten(trace)), BookIds(searches));
  }

  /** A file that went through whole: its inner loop ran to the end. */
  lemma ProgressDone<S>(env: Env<S>, file: TranscriptFile, output: (string, seq<string>), entries: seq<(string, string)>,
                        start: Book, searches: seq<Search>, book: Book, loads: seq<string>)
    requires OutputFilename(env.language, file.path) == Ok(output.0)
    requires OrderedTranscripts(file.lines) == Ok(entries)
    requires Progress(env, entries, start, output.1, searches, book, loads) && |output.1| == |searches| == |entries|
    ensures FileDone(env, file, output, searches)
  {
  }

  /** A file that went through whole extends the state of the outer loop. */
  lemma PassedStep<S>(env: Env<S>, files: seq<TranscriptFile>, outputs: seq<(string, seq<string>)>,
                      trace: seq<seq<Search>>, book: Book, loads: seq<string>,
                      output: (string, seq<string>), searches: seq<Search>, book': Book, fileLoads: seq<string>)
    requires Passed(env, files, outputs, trace, book, loads) && |outputs| < |files|
    requires FileDone(env, files[|outputs|], output, searches)
    requires fileLoads == Reloads(book.id, BookIds(searches)) && book'.id == LastId(book.id, BookIds(searches))
    requires Loaded(env, book') && (book'.text.None? ==> book.text.None? && searches == [] && book' == book)
    requires searches == [] ==> book' == book
    requires book.text.None? && searches != [] ==> searches[0].bookId != book.id
    ensures Passed(env, files, outputs + [output], trace + [searches], book', loads + fileLoads)
  {
    LoadsStep(trace, book, loads, searches, book', fileLoads);
    FirstNamedSnoc(trace, searches, book);
    FlattenSnoc(trace, searches);
    var outputs', trace' := outputs + [output], trace + [searches];
    forall g | 0 <= g < |outputs'| ensures FileDone(env, files[g], outputs'[g], trace'[g]) {
      if g < |outputs| {
        assert outputs'[g] == outputs[g] && trace'[g] == trace[g];
        assert FileDone(env, files[g], outputs[g], trace[g]);
      } else {
        assert g == |outputs|;
        assert outputs'[g] == output && trace'[g] == searches;
      }
    }
  }

  /** Appending a file that went through at least in part keeps every file begun. */
  lemma BegunSnoc<S>(env: Env<S>, files: seq<TranscriptFile>, outputs: seq<(string, seq<string>)>, trace: seq<seq<Search>>,
                     output: (string, seq<string>), searches: seq<Search>,
                     outputs': seq<(string, seq<string>)>, trace': seq<seq<Search>>)
    requires |trace| == |outputs| < |files| && outputs' == outputs + [output] && trace' == trace + [searches]
    requires forall g {:trigger FileBegun(env, files[g], outputs[g], trace[g])} ::
      0 <= g < |outputs| ==> FileBegun(env, files[g], outputs[g], trace[g])
    requires FileBegun(env, files[|outputs|], output, searches)
    ensures forall g {:trigger FileBegun(env, files[g], outputs'[g], trace'[g])} ::
      0 <= g < |outputs'| ==> FileBegun(env, files[g], outputs'[g], trace'[g])
  {
    forall g | 0 <= g < |outputs'| ensures FileBegun(env, files[g], outputs'[g], trace'[g]) {
      if g < |outputs| {
        assert outputs'[g] == outputs[g] && trace'[g] == trace[g];
        assert FileBegun(env, files[g], outputs[g], trace[g]);
      } else {
        assert g == |outputs|;
        assert outputs'[g] == output && trace'[g] == searches;
      }
    }
  }

  /** Appending any file keeps the files before it done. */
  lemma DoneKeep<S>(env: Env<S>, files: seq<TranscriptFile>, outputs: seq<(string, seq<string>)>, trace: seq<seq<Search>>,
                    output: (string, seq<string>), searches: seq<Search>,
                    outputs': seq<(string, seq<string>)>, trace': seq<seq<Search>>)
    requires |trace| == |outputs| < |files| && outputs' == outputs + [output] && trace' == trace + [searches]
    requires forall g {:trigger FileDone(env, files[g], outputs[g], trace[g])} ::
      0 <= g < |outputs| ==> FileDone(env, files[g], outputs[g], trace[g])
    ensures forall g {:trigger FileDone(env, files[g], outputs'[g], trace'[g])} ::
      0 <= g < |outputs'| - 1 ==> FileDone(env, files[g], outputs'[g], trace'[g])
  {
    forall g | 0 <= g < |outputs'| - 1 ensures FileDone(env, files[g], outputs'[g], trace'[g]) {
      assert outputs'[g] == outputs[g] && trace'[g] == trace[g];
      assert FileDone(env, files[g], outputs[g], trace[g]);
    }
  }

  /** A file that stopped part way ends the run with what it did. */
  lemma RanPartial<S>(env: Env<S>, files: seq<TranscriptFile>, outputs: seq<(string, seq<string>)>,
                      trace: seq<seq<Search>>, book: Book, loads: seq<string>,
                      output: (string, seq<string>), searches: seq<Search>, fileLoads: seq<string>)
    requires Passed(env, files, outputs, trace, book, loads) && |outputs| < |files|
    requires FileBegun(env, files[|outputs|], output, searches)
    requires fileLoads == Reloads(book.id, BookIds(searches))
    requires book.text.None? && searches != [] ==> searches[0].bookId != book.id
    ensures Ran(env, files, outputs + [output], trace + [searches], loads + fileLoads, false)
  {
    PassedRan(env, files, outputs, trace, book, loads);
    FirstNamedSnoc(trace, searches, book);
    LoadsStep(trace, book, loads, searches, Book(LastId(book.id, BookIds(searches)), None), fileLoads);
    var outputs', trace' := outputs + [output], trace + [searches];
    BegunSnoc(env, files, outputs, trace, output, searches, outputs', trace');
    DoneKeep(env, files, outputs, trace, output, searches, outputs', trace');
  }

  /** The transcript of `file` the run stopped at, when its filename holds
      no `_`: every search before it wrote its row. */
  predicate StoppedAtBadId(file: TranscriptFile, output: (string, seq<string>), searches: seq<Search>) {
    && OrderedTranscripts(file.lines).Ok?
    && |searches| < |OrderedTranscripts(file.lines).value| && |output.1| == |searches|
    && BookId(OrderedTranscripts(file.lines).value[|searches|].0).Err?
  }

  /** The first transcript of `file` has the book id `''`, the initial
      `book_id`, so it is searched before `book_text` is ever assigned. */
  predicate StoppedUnnamed(file: TranscriptFile) {
    && OrderedTranscripts(file.lines).Ok? && OrderedTranscripts(file.lines).value != []
    && BookId(OrderedTranscripts(file.lines).value[0].0) == Ok("")
  }

  /** How a run of `execute` that raised `e` ended: the files before the
      last one went through whole and had lines, the last one as far as it
      got (whole for the `ZeroDivisionError` of an empty file, and when the
      next file's path gives no output name), and `e` is one of the
      exceptions the loop can raise, for the reason it raises it. */
  predicate Stopped<S>(env: Env<S>, files: seq<TranscriptFile>, outputs: seq<(string, seq<string>)>,
                       trace: seq<seq<Search>>, loads: seq<string>, e: Error)
  {
    && Ran(env, files, outputs, trace, loads, e == ZeroDivisionError)
    && NonEmptyBefore(files, |outputs| - 1)
    && (e == ZeroDivisionError ==> |outputs| > 0 && files[|outputs| - 1].lines == [])
    && (e.UnpackError? ==>
          && |outputs| > 0 && trace[|outputs| - 1] == [] && outputs[|outputs| - 1].1 == []
          && OrderedTranscripts(files[|outputs| - 1].lines) == Err(e))
    && (e == IndexError ==>
          || (&& |outputs| < |files| && '/' !in files[|outputs|].path
              && Ran(env, files, outputs, trace, loads, true) && NonEmptyBefore(files, |outputs|))
          || (|outputs| > 0 && StoppedAtBadId(files[|outputs| - 1], outputs[|outputs| - 1], trace[|outputs| - 1])))
    && (e == UnboundLocalError("book_text") ==>
          Flatten(trace) == [] && |outputs| > 0 && StoppedUnnamed(files[|outputs| - 1]))
    && (e == AttributeError ==>
          && |outputs| > 0 && |trace[|outputs| - 1]| == |outputs[|outputs| - 1].1| + 1
          && !env.search(trace[|outputs| - 1][|outputs[|outputs| - 1].1|].call).text.Some?)
    && (|| e == ZeroDivisionError || e.UnpackError? || e == IndexError
        || e == UnboundLocalError("book_text") || e == AttributeError)
  }

  /** The output filename of the next file cannot be built: `IndexError`. */
  lemma StopAtPath<S>(env: Env<S>, files: seq<TranscriptFile>, outputs: seq<(string, seq<string>)>,
                      trace: seq<seq<Search>>, book: Book, loads: seq<string>)
    requires Passed(env, files, outputs, trace, book, loads) && |outputs| < |files|
    requires OutputFilename(env.language, files[|outputs|].path).Err? && NonEmptyBefore(files, |outputs|)
    ensures Stopped(env, files, outputs, trace, loads, IndexError)
  {
    PassedRan(env, files, outputs, trace, book, loads);
  }

  /** The transcripts of the next file do not parse: its output file is
      created empty and the run stops with the `ValueError`. */
  lemma StopAtTranscripts<S>(env: Env<S>, files: seq<TranscriptFile>, outputs: seq<(string, seq<string>)>,
                             trace: seq<seq<Search>>, book: Book, loads: seq<string>, name: string)
    requires Passed(env, files, outputs, trace, book, loads) && |outputs| < |files|
    requires OutputFilename(env.language, files[|outputs|].path) == Ok(name)
    requires OrderedTranscripts(files[|outputs|].lines).Err? && NonEmptyBefore(files, |outputs|)
    ensures Stopped(env, files, outputs + [(name, [])], trace + [[]], loads,
                    OrderedTranscripts(files[|outputs|].lines).error)
  {
    RanPartial(env, files, outputs, trace, book, loads, (name, []), [], []);
    assert loads + [] == loads;
  }

  /** The inner loop over the next file raised `e` part way. */
  lemma StopInFile<S>(env: Env<S>, files: seq<TranscriptFile>, outputs: seq<(string, seq<string>)>,
                      trace: seq<seq<Search>>, book: Book, loads: seq<string>, name: string,
                      entries: seq<(string, string)>, rows: seq<string>, searches: seq<Search>,
                      book': Book, fileLoads: seq<string>, e: Error)
    requires Passed(env, files, outputs, trace, book, loads) && |outputs| < |files|
    requires OutputFilename(env.language, files[|outputs|].path) == Ok(name)
    requires OrderedTranscripts(files[|outputs|].lines) == Ok(entries)
    requires Progress(env, entries, book, rows, searches, book', fileLoads)
    requires e == AttributeError ==>
      |searches| > 0 && |rows| == |searches| - 1 && !env.search(searches[|rows|].call).text.Some?
    requires e != AttributeError ==> |rows| == |searches| < |entries|
    requires e == IndexError ==> BookId(entries[|searches|].0).Err?
    requires e == UnboundLocalError("book_text") ==>
      searches == [] && book.text.None? && entries != [] && BookId(entries[0].0) == Ok(book.id)
    requires NonEmptyBefore(files, |outputs|)
    requires e == IndexError || e == UnboundLocalError("book_text") || e == AttributeError
    ensures Stopped(env, files, outputs + [(name, rows)], trace + [searches], loads + fileLoads, e)
  {
    RanPartial(env, files, outputs, trace, book, loads, (name, rows), searches, fileLoads);
    var outputs', trace' := outputs + [(name, rows)], trace + [searches];
    assert |outputs'| - 1 == |outputs| && outputs'[|outputs|] == (name, rows) && trace'[|outputs|] == searches;
    if e == UnboundLocalError("book_text") {
      FlattenSnoc(trace, searches);
    }
  }

  /** A file with no transcripts went through, but the mean of its
      similarities divides by zero. */
  lemma StopAtMean<S>(env: Env<S>, files: seq<TranscriptFile>, outputs: seq<(string, seq<string>)>,
                      trace: seq<seq<Search>>, book: Book, loads: seq<string>)
    requires Passed(env, files, outputs, trace, book, loads) && |outputs| > 0
    requires files[|outputs| - 1].lines == [] && NonEmptyBefore(files, |outputs| - 1)
    ensures Stopped(env, files, outputs, trace, loads, ZeroDivisionError)
  {
    PassedRan(env, files, outputs, trace, book, loads);
  }

  /** One iteration of the outer loop of `execute`: the output name of the
      next transcript file and its sorted transcripts, then the inner loop
      over them. It either extends the outer-loop state by that file or
      ends the run with the exception raised. */
  method ExecuteStep<S>(env: Env<S>, files: seq<TranscriptFile>, outputs: seq<(string, seq<string>)>,
                        trace: seq<seq<Search>>, book: Book, loads: seq<string>)
    returns (outputs': seq<(string, seq<string>)>, trace': seq<seq<Search>>, book': Book, loads': seq<string>,
             err: Option<Error>)
    requires Passed(env, files, outputs, trace, book, loads) && NonEmptyBefore(files, |outputs|)
    requires |outputs| < |files|
    ensures err.None? ==>
      |outputs'| == |outputs| + 1 && Passed(env, files, outputs', trace', book', loads')
      && NonEmptyBefore(files, |outputs'|)
    ensures err.Some? ==> Stopped(env, files, outputs', trace', loads', err.value)
  {
    outputs', trace', book', loads', err := outputs, trace, book, loads, None;
    var name := OutputFilename(env.language, files[|outputs|].path);
    if name.Err? {
      StopAtPath(env, files, outputs, trace, book, loads);
      err := Some(IndexError);
      return;
    }
    var ordered := GetTranscripts(files[|outputs|].lines);
    if ordered.Err? {
      StopAtTranscripts(env, files, outputs, trace, book, loads, name.value);
      outputs', trace' := outputs + [(name.value, [])], trace + [[]];
      err := Some(ordered.error);
      return;
    }
    outputs', trace', book', loads', err := ExecuteEntries(env, files, outputs, trace, book, loads, name.value, ordered.value);
  }

  /** The rest of one iteration of the outer loop of `execute`, once the
      output file `name` is open and the transcripts `entries` are sorted:
      the inner loop over them, then the mean of the similarities, which
      divides by zero for a file with no lines. */
  method ExecuteEntries<S>(env: Env<S>, files: seq<TranscriptFile>, outputs: seq<(string, seq<string>)>,
                           trace: seq<seq<Search>>, book: Book, loads: seq<string>,
                           name: string, entries: seq<(string, string)>)
    returns (outputs': seq<(string, seq<string>)>, trace': seq<seq<Search>>, book': Book, loads': seq<string>,
             err: Option<Error>)
    requires Passed(env, files, outputs, trace, book, loads) && NonEmptyBefore(files, |outputs|)
    requires |outputs| < |files| && OutputFilename(env.language, files[|outputs|].path) == Ok(name)
    requires OrderedTranscripts(files[|outputs|].lines) == Ok(entries)
    ensures err.None? ==>
      |outputs'| == |outputs| + 1 && Passed(env, files, outputs', trace', book', loads')
      && NonEmptyBefore(files, |outputs'|)
    ensures err.Some? ==> Stopped(env, files, outputs', trace', loads', err.value)
  {
    var f := |outputs|;
    var rows, searches, fileBook, fileLoads, e := ExecuteFile(env, entries, book);
    outputs', trace', book', loads' := outputs + [(name, rows)], trace + [searches], fileBook, loads + fileLoads;
    if e.Some? {
      StopInFile(env, files, outputs, trace, book, loads, name, entries, rows, searches, fileBook, fileLoads, e.value);
      err := e;
      return;
    }
    ProgressDone(env, files[f], (name, rows), entries, book, searches, fileBook, fileLoads);
    PassedStep(env, files, outputs, trace, book, loads, (name, rows), searches, fileBook, fileLoads);
    if |files[f].lines| == 0 {
      StopAtMean(env, files, outputs', trace', book', loads');
      err := Some(ZeroDivisionError);
      return;
    }
    err := None;
    NonEmptyStep(files, f);
  }

  /** `execute(language_abbrev, sequenced_text, similarity_metric, search_type, number_threads)`
      over the extracted transcript files `files`. It returns each output
      file's name and rows, the searches made per file, the book ids loaded
      in order and the exception that ended the run, if any. */
  method Execute<S>(languageAbbrev: string, sequencedText: bool, similarityMetric: string, searchType: string,
                    numberThreads: int, files: seq<TranscriptFile>,
                    readBook: (string, string) -> string, clean: string -> string,
                    search: SearchCall -> Match<S>, render: S -> string)
    returns (outputs: seq<(string, seq<string>)>, trace: seq<seq<Search>>, loads: seq<string>, err: Option<Error>)
    ensures LanguageName(languageAbbrev).Err? ==>
      err == Some(KeyError(languageAbbrev)) && outputs == [] && trace == [] && loads == []
    ensures |trace| == |outputs| <= |files|
    ensures LanguageName(languageAbbrev).Ok? && err.None? ==>
      && |outputs| == |files|
      && (forall f :: 0 <= f < |files| ==> files[f].lines != [])
      && Ran(EnvOf(LanguageName(languageAbbrev).value, searchType, numberThreads, readBook, clean, search, render),
             files, outputs, trace, loads, true)
    ensures LanguageName(languageAbbrev).Ok? && err.Some? ==>
      Stopped(EnvOf(LanguageName(languageAbbrev).value, searchType, numberThreads, readBook, clean, search, render),
              files, outputs, trace, loads, err.value)
  {
    outputs, trace, loads, err := [], [], [], None;
    var lang := LanguageName(languageAbbrev);
    if lang.Err? {
      err := Some(lang.error);
      return;
    }
    var env := EnvOf(lang.value, searchType, numberThreads, readBook, clean, search, render);
    var book := Book("", None);
    for f := 0 to |files|
      invariant |outputs| == f
      invariant Passed(env, files, outputs, trace, book, loads)
      invariant NonEmptyBefore(files, f)
    {
      var e;
      outputs, trace, book, loads, e := ExecuteStep(env, files, outputs, trace, book, loads);
      if e.Some? {
        err := e;
        return;
      }
    }
    PassedRan(env, files, outputs, trace, book, loads);
  }
}
