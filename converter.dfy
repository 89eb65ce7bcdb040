/** The first transcript-to-book driver, `execute_text_converter.py`:
    `get_text_normalization`, which picks the book normaliser for a language,
    and `executar`, which takes the transcript lines of the first extracted
    file in the order they are written, loads and normalises the book of
    every line, calls `find_substring` and writes one `|`-separated row per
    line to a single output file. Book files, the normalisers, the
    tokenizer and the search are parameters. */
module Converter {
  import opened Common
  import opened PyStr
  import opened Records

  /** The two normalisers `get_text_normalization` chooses between. */
  datatype Normalizer = PolishTextNormalize | PortugueseTextNormalize

  /** `get_text_normalization(language_abbrev)`: the Polish normaliser for
      `pl`, the Portuguese one for every other code. */
  function GetTextNormalization(languageAbbrev: string): (norm: Normalizer)
    ensures norm == PolishTextNormalize <==> languageAbbrev == "pl"
    ensures norm == PortugueseTextNormalize <==> languageAbbrev != "pl"
  {
    if languageAbbrev == "pl" then PolishTextNormalize else PortugueseTextNormalize
  }

  /** The arguments of one call of `find_substring`: the transcript text
      (before tokenisation), the normalised book text, the metric and the
      start position. */
  datatype FindCall = FindCall(query: string, book: string, metric: string, startPosition: int)

  /** What `executar` works with besides the transcripts: the language name
      and its normaliser, `sequenced_text`, the metric, and the
      collaborators it calls — reading `<books>/<language>/<id>.txt`, the
      normalisers, the tokenizer and `find_substring` together as `find`,
      and `str` of a similarity. */
  datatype Env<!S> = Env(language: string, norm: Normalizer, sequenced: bool, metric: string,
                        readBook: (string, string) -> string, normalize: (Normalizer, string) -> string,
                        find: FindCall -> Match<S>, render: S -> string)

  /** The normalised text of book `id`. */
  function BookText<S>(env: Env<S>, id: string): string {
    env.normalize(env.norm, env.readBook(env.language, id))
  }

  /** `text_result` after `if not text_result: text_result = ''`: both
      `None` and the empty string become `''`. */
  function ResultText<S>(m: Match<S>): (t: string)
    ensures t == m.text.GetOr("")
  {
    if m.text.None? || m.text.value == "" then "" else m.text.value
  }

  /** The exception line `line` raises before its search: `ValueError` when
      it does not unpack into `filename, text`, `IndexError` when the
      filename holds no `_`; `None` for a line that goes through. */
  function LineError(line: string): (e: Option<Error>)
    ensures e.None? <==> |Split(line, '\t')| == 2 && '_' in Split(line, '\t')[0]
    ensures e.Some? ==> e.value.UnpackError? || e.value == IndexError
  {
    var fields := Unpack(line, '\t', 2);
    if fields.Err? then Some(fields.error)
    else
      var id := BookId(fields.value[0]);
      if id.Err? then Some(id.error) else None
  }

  /** The start position of the search for line `j`: with `sequenced_text`,
      the position the previous search returned (0 for the first line);
      otherwise 0. */
  function StartAt<S>(env: Env<S>, calls: seq<FindCall>, j: nat): int
    requires j <= |calls|
  {
    if env.sequenced && j > 0 then env.find(calls[j - 1]).offset else 0
  }

  /** The call `executar` makes for a line that goes through, searching from `start`. */
  function CallFor<S>(env: Env<S>, line: string, start: int): FindCall
    requires LineError(line).None?
  {
    var fields := Split(line, '\t');
    FindCall(fields[1], BookText(env, BookId(fields[0]).value), env.metric, start)
  }

  /** The row written for a line that goes through, once `call` returned. */
  function RowFor<S>(env: Env<S>, line: string, call: FindCall): string
    requires LineError(line).None?
  {
    var fields := Split(line, '\t');
    var m := env.find(call);
    FormatRow(fields[0], fields[1], ResultText(m), env.render(m.similarity))
  }

  /** The first `|calls|` lines went through in file order: each one made
      the call `CallFor` says from the start position `StartAt` says, and
      `rows` are their rows. */
  predicate Converted<S>(env: Env<S>, lines: seq<string>, rows: seq<string>, calls: seq<FindCall>) {
    && |rows| == |calls| <= |lines|
    && forall j {:trigger rows[j]} :: 0 <= j < |calls| ==>
         && LineError(lines[j]).None?
         && calls[j] == CallFor(env, lines[j], StartAt(env, calls, j))
         && rows[j] == RowFor(env, lines[j], calls[j])
  }

  /** One more line that goes through extends the converted prefix. */
  lemma ConvertedStep<S>(env: Env<S>, lines: seq<string>, rows: seq<string>, calls: seq<FindCall>, call: FindCall)
    requires Converted(env, lines, rows, calls) && |calls| < |lines|
    requires LineError(lines[|calls|]).None?
    requires call == CallFor(env, lines[|calls|], StartAt(env, calls + [call], |calls|))
    ensures Converted(env, lines, rows + [RowFor(env, lines[|calls|], call)], calls + [call])
  {
    var calls', rows' := calls + [call], rows + [RowFor(env, lines[|calls|], call)];
    forall j | 0 <= j < |calls'|
      ensures LineError(lines[j]).None?
      ensures calls'[j] == CallFor(env, lines[j], StartAt(env, calls', j))
      ensures rows'[j] == RowFor(env, lines[j], calls'[j])
    {
      if j < |calls| {
        assert calls'[j] == calls[j] && rows'[j] == rows[j];
        assert StartAt(env, calls', j) == StartAt(env, calls, j);
      } else {
        assert j == |calls|;
      }
    }
  }

  /** The inner loop of `executar` over the lines of one transcript file, in
      file order: the lines before the first failing one went through, and
      the failing one, if any, raised what `LineError` says. */
  method ConvertLines<S>(env: Env<S>, lines: seq<string>) returns (rows: seq<string>, calls: seq<FindCall>, err: Option<Error>)
    ensures Converted(env, lines, rows, calls)
    ensures err.None? ==> |calls| == |lines|
    ensures err.Some? ==> |calls| < |lines| && err == LineError(lines[|calls|])
  {
    rows, calls, err := [], [], None;
    var start := 0;
    for k := 0 to |lines|
      invariant |calls| == k && Converted(env, lines, rows, calls)
      invariant start == if k > 0 then env.find(calls[k - 1]).offset else 0
    {
      var fields := Unpack(lines[k], '\t', 2);
      if fields.Err? {
        err := Some(fields.error);
        return;
      }
      var filename, text := fields.value[0], fields.value[1];
      var id := BookId(filename);
      if id.Err? {
        err := Some(id.error);
        return;
      }
      var book := env.normalize(env.norm, env.readBook(env.language, id.value));
      var call := FindCall(text, book, env.metric, if env.sequenced then start else 0);
      var m := env.find(call);
      start := m.offset;
      var result := if m.text.None? || m.text.value == "" then "" else m.text.value;
      var row := FormatRow(filename, text, result, env.render(m.similarity));
      ConvertedStep(env, lines, rows, calls, call);
      rows, calls := rows + [row], calls + [call];
    }
  }

  /** The environment `executar` builds from its arguments once the language is known. */
  function EnvOf<S>(language: string, languageAbbrev: string, sequencedText: bool, similarityMetric: string,
                    readBook: (string, string) -> string, normalize: (Normalizer, string) -> string,
                    find: FindCall -> Match<S>, render: S -> string): Env<S>
  {
    Env(language, GetTextNormalization(languageAbbrev), sequencedText, similarityMetric, readBook, normalize, find, render)
  }

  /** `executar(args, language_abbrev, sequenced_text, similarity_metric)`
      over the extracted transcript files `files` (their lines). It returns
      whether `args.output_file` was created, the rows written to it, the
      calls of `find_substring` and the exception that ended the run, if any.
      The loop ends with `break` after its first file, so only `files[0]`
      is converted; with no file at all, `output_f.close()` reads a local
      that was never assigned. */
  method Executar<S>(languageAbbrev: string, sequencedText: bool, similarityMetric: string,
                     files: seq<seq<string>>,
                     readBook: (string, string) -> string, normalize: (Normalizer, string) -> string,
                     find: FindCall -> Match<S>, render: S -> string)
    returns (created: bool, rows: seq<string>, calls: seq<FindCall>, err: Option<Error>)
    ensures LanguageName(languageAbbrev).Err? ==>
      err == Some(KeyError(languageAbbrev)) && !created && rows == [] && calls == []
    ensures LanguageName(languageAbbrev).Ok? && files == [] ==>
      err == Some(UnboundLocalError("output_f")) && !created && rows == [] && calls == []
    ensures LanguageName(languageAbbrev).Ok? && files != [] ==>
      && created
      && Converted(EnvOf(LanguageName(languageAbbrev).value, languageAbbrev, sequencedText, similarityMetric,
                         readBook, normalize, find, render), files[0], rows, calls)
      && (|calls| < |files[0]| ==> err.Some? && err == LineError(files[0][|calls|]))
      && (|calls| == |files[0]| ==> err == if files[0] == [] then Some(ZeroDivisionError) else None)
  {
    created, rows, calls, err := false, [], [], None;
    var lang := LanguageName(languageAbbrev);
    if lang.Err? {
      err := Some(lang.error);
      return;
    }
    var env := EnvOf(lang.value, languageAbbrev, sequencedText, similarityMetric, readBook, normalize, find, render);
    for f := 0 to |files|
      invariant f == 0 && !created && rows == [] && calls == [] && err.None?
    {
      created := true;
      var e;
      rows, calls, e := ConvertLines(env, files[f]);
      if e.Some? {
        err := e;
        return;
      }
      if |files[f]| == 0 {
        err := Some(ZeroDivisionError);
        return;
      }
      break;
    }
    if !created {
      err := Some(UnboundLocalError("output_f"));
    }
  }

  /** Two runs over the same lines that both got past line `j` made the
      same call for it and wrote the same row. */
  lemma {:induction false} ConvertedSameAt<S>(env: Env<S>, lines: seq<string>,
                                              rows: seq<string>, calls: seq<FindCall>,
                                              rows': seq<string>, calls': seq<FindCall>, j: nat)
    requires Converted(env, lines, rows, calls) && Converted(env, lines, rows', calls')
    requires j < |calls| && j < |calls'|
    ensures calls[j] == calls'[j] && rows[j] == rows'[j]
  {
    if j > 0 {
      ConvertedSameAt(env, lines, rows, calls, rows', calls', j - 1);
    }
    assert StartAt(env, calls, j) == StartAt(env, calls', j);
    ConvertedAt(env, lines, rows, calls, j);
    ConvertedAt(env, lines, rows', calls', j);
  }

  /** Line `j` of a converted prefix, on its own. */
  lemma ConvertedAt<S>(env: Env<S>, lines: seq<string>, rows: seq<string>, calls: seq<FindCall>, j: nat)
    requires Converted(env, lines, rows, calls) && j < |calls|
    ensures LineError(lines[j]).None?
    ensures calls[j] == CallFor(env, lines[j], StartAt(env, calls, j))
    ensures rows[j] == RowFor(env, lines[j], calls[j])
  {
    var row := rows[j];  // the term `rows[j]` instantiates `Converted` at `j`
  }

  /** The rows and calls of a converted prefix are determined by the lines:
      two runs that got equally far wrote the same rows and made the same calls. */
  lemma ConvertedUnique<S>(env: Env<S>, lines: seq<string>,
                           rows: seq<string>, calls: seq<FindCall>, rows': seq<string>, calls': seq<FindCall>)
    requires Converted(env, lines, rows, calls) && Converted(env, lines, rows', calls') && |calls| == |calls'|
    ensures calls == calls' && rows == rows'
  {
    forall j | 0 <= j < |calls| ensures calls[j] == calls'[j] && rows[j] == rows'[j] {
      ConvertedSameAt(env, lines, rows, calls, rows', calls', j);
    }
  }

  /** Without `sequenced_text` every search starts at 0, so the call and the
      row of a line do not depend on the lines around it. */
  lemma UnsequencedLocal<S>(env: Env<S>, lines: seq<string>, rows: seq<string>, calls: seq<FindCall>,
                            lines': seq<string>, rows': seq<string>, calls': seq<FindCall>, j: nat, j': nat)
    requires !env.sequenced
    requires Converted(env, lines, rows, calls) && Converted(env, lines', rows', calls')
    requires j < |calls| && j' < |calls'| && lines[j] == lines'[j']
    ensures calls[j] == calls'[j'] && rows[j] == rows'[j']
  {
    ConvertedAt(env, lines, rows, calls, j);
    ConvertedAt(env, lines', rows', calls', j');
  }

  /** With `sequenced_text` the searches are chained: each starts where the previous one ended. */
  lemma SequencedChain<S>(env: Env<S>, lines: seq<string>, rows: seq<string>, calls: seq<FindCall>, j: nat)
    requires env.sequenced && Converted(env, lines, rows, calls) && 0 < j < |calls|
    ensures calls[j].startPosition == env.find(calls[j - 1]).offset
    ensures calls[0].startPosition == 0
  {
    ConvertedAt(env, lines, rows, calls, j);
    ConvertedAt(env, lines, rows, calls, 0);
  }

  /** Each row written splits back on `|` into the stripped filename, the
      stripped transcript, the stripped search result and the similarity,
      when none of them holds a `|`. */
  lemma RowFields<S>(env: Env<S>, lines: seq<string>, rows: seq<string>, calls: seq<FindCall>, j: nat)
    requires Converted(env, lines, rows, calls) && j < |calls| && LineError(lines[j]).None?
    requires var fields := Split(lines[j], '\t'); var m := env.find(calls[j]);
      '|' !in fields[0] && '|' !in fields[1] && '|' !in ResultText(m) && '|' !in env.render(m.similarity)
    ensures var fields := Split(lines[j], '\t'); var m := env.find(calls[j]);
      Split(rows[j], '|') == [Strip(fields[0]), Strip(fields[1]), Strip(ResultText(m)), env.render(m.similarity) + "\n"]
  {
    ConvertedAt(env, lines, rows, calls, j);
    var fields := Split(lines[j], '\t');
    var m := env.find(calls[j]);
    FormatRowSplit(fields[0], fields[1], ResultText(m), env.render(m.similarity));
  }
}
