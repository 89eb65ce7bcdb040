# Multilingual LibriSpeech conversion tools, record logic

This project models the record-keeping logic of the conversion scripts of
`mls_conversion_tools` and proves properties of it. These scripts align
Multilingual LibriSpeech transcripts with the text of their books, and cut
the audio segments of a segments file out of the source mp3 files.
Four Python files make up the core:

- `execute_text_converter_beta.py`. `get_transcripts` turns
  `filename<TAB>text` lines into a filename-sorted dictionary. `execute`
  walks the transcripts of every extracted file. It reloads the book only
  when the book id changes, calls the search engine and writes one
  `|`-separated row per transcript.
- `execute_text_converter.py`. `get_text_normalization` picks the book
  normaliser. `executar` walks the lines of the first transcript file in
  file order and chains the search offset in sequenced mode. It writes one
  row per line and stops after that file because of its `break`.
- `audio_tools/audio_converter.py`. Its parts are:
  - the `Segment` class, a singly linked node with a `gap` field;
  - `create_segments_list`, which links one segment per usable line of a
    segments file;
  - `create_audio_files_from_segments_list`, which walks the chain and
    exports each segment, stopping at the first write error.
- `audio_tools/download_mp3_files.py`. `get_links_dict` maps every distinct
  download link to the `speaker/book` folder of the first line that
  carries it, sorted by link.

The Dafny modules follow those files:

- `Common` holds `Option`, `Result` and the Python exceptions the scripts
  can raise.
- `PyStr` models `str.split`, `str.strip`, `str.join`, string ordering
  and `posixpath.join`.
- `PyDict` models an insertion-ordered `dict` and `sorted(d.items())`.
- `Records` holds the unpacking of split lines, the book id, the output
  row and the language table.
- `ConverterBeta` and `Converter` model the two drivers.
- `Segments` holds the `Segment` class and its chain.
- `AudioConverter` and `DownloadMp3` model the two audio tools.

Code that mutates state is written as methods:
- `Segment` is a class, and its methods change its fields in place.
- The chain is built and walked by loops over `Segment?` references.
- Every loop of the scripts is a `for` or `while` loop. The loops that
  fill a dictionary or build or walk the chain are proved against a
  function that specifies their result. The loops of `execute` and the
  inner loop of `executar` are proved against predicates on the state they
  leave (`ConverterBeta.Progress`, `Passed`, `Ran`, `Stopped`,
  `Converter.Converted`). The outer loop of `executar` is a `for` loop that
  leaves with `break` in its first iteration, as the script's does.

The model does not do anything itself. Collaborators it cannot see are
function parameters:
- the approximate substring search;
- reading a book file;
- text cleaning and normalisation;
- `get_filepath_from_link` and `get_better_quality_link`;
- whether a file exists;
- the sample rate `mediainfo` reports;
- `float(x) * 1000` as whole milliseconds;
- pydub's export.

In sequenced mode, `executar` passes each search the offset that the
previous search of the same transcript file returned. It does so even
when the two lines belong to different books. It resets the offset only
when a new transcript file starts (`execute_text_converter.py:78`). A
reading in which a new book restarts the search at 0 would differ. The
model follows the code: `Converter.StartAt` and `Converter.SequencedChain`.

## Model

| member | source | states |
|---|---|---|
| PyStr.Split | execute_text_converter_beta.py:70 | `str.split(sep)` gives at least one piece, no piece holds the separator, and there is exactly one piece iff the separator does not occur |
| PyStr.JoinSplit | execute_text_converter_beta.py:70 | joining the pieces of a split with the separator gives back the string |
| PyStr.SplitJoin | execute_text_converter_beta.py:150 | splitting a join of separator-free pieces gives back the pieces |
| PyStr.SplitSecond | execute_text_converter_beta.py:121 | the second piece of a split is the first piece of what follows the first separator |
| PyStr.SecondPieceAt | execute_text_converter_beta.py:106 | the second piece of a split is the text from just after the first separator up to the next separator or the end |
| PyStr.PrefixLocated | execute_text_converter_beta.py:121 | the first piece of a split of `s[i..]` occurs in `s` at `i`, followed by the separator or by the end |
| PyStr.Strip | execute_text_converter_beta.py:71 | `str.strip()` returns a contiguous part of the string, with only whitespace removed before and after it, that neither starts nor ends with whitespace |
| PyStr.TrimLeftSpec | execute_text_converter_beta.py:71 | dropping leading whitespace leaves a suffix that does not start with whitespace, and everything dropped is whitespace |
| PyStr.TrimRightSpec | execute_text_converter_beta.py:71 | dropping trailing whitespace leaves a prefix that does not end with whitespace, and everything dropped is whitespace |
| PyStr.StripInfix | execute_text_converter_beta.py:150 | a character in the stripped string occurs in the original |
| PyStr.JoinEndsWithLast | execute_text_converter_beta.py:150 | a join ends with its last piece |
| PyStr.IndexOf | execute_text_converter_beta.py:121 | the first position of a character: it holds the character and no earlier position does |
| PyStr.LessIrreflexive | execute_text_converter_beta.py:73 | the string order used by `sorted` is irreflexive |
| PyStr.LessTransitive | execute_text_converter_beta.py:73 | the string order is transitive |
| PyStr.LessTotal | execute_text_converter_beta.py:73 | any two different strings are ordered one way or the other |
| PyStr.LessAsymmetric | execute_text_converter_beta.py:73 | no two strings are ordered both ways |
| PyStr.PathJoin | audio_tools/audio_converter.py:59 | `os.path.join(a, b)` ends with `b`; an absolute `b` replaces `a`; otherwise the result starts with `a` |
| PyDict.Put | execute_text_converter_beta.py:71 | `d[k] = v` keeps the keys distinct, maps `k` to `v` and leaves every other key alone; a new key is appended, an existing one keeps its place |
| PyDict.SortByKey | execute_text_converter_beta.py:73 | `sorted(d.items())` has strictly ascending, distinct keys, the same length and the same value for every key |
| PyDict.Insert | execute_text_converter_beta.py:73 | inserting a new pair into a key-sorted sequence keeps it sorted and adds exactly that pair |
| PyDict.SortedDistinct | execute_text_converter_beta.py:73 | strictly ascending keys are distinct |
| Records.Unpack | execute_text_converter_beta.py:70 | `a, b, ... = s.split(sep)` succeeds exactly when the split has the number of targets, gives the split pieces that join back to `s`, and otherwise raises a `ValueError` naming the wanted and the actual count |
| Records.UnpackJoin | execute_text_converter_beta.py:70 | unpacking a join of separator-free fields gives back the fields |
| Records.BookId | execute_text_converter_beta.py:121 | `filename.split('_')[1]` exists iff the filename holds `_`, and otherwise raises `IndexError`; the id holds no `_` |
| Records.BookIdLocated | execute_text_converter_beta.py:121 | the book id is the text right after the first `_`, up to the next `_` or the end |
| Records.BookIdOfJoin | execute_text_converter_beta.py:121 | the book id of `_`-joined components is the second component |
| Records.FormatRow | execute_text_converter_beta.py:150 | an output row ends with a newline |
| Records.FormatRowSplit | execute_text_converter_beta.py:150 | a row splits back on `\|` into the stripped filename, text and result and the similarity plus newline |
| Records.LanguageName | execute_text_converter_beta.py:13-22 | `abbrev2language[code]` is defined for exactly the eight codes and raises `KeyError` otherwise (the same table is at `execute_text_converter.py:14-23`) |
| ConverterBeta.TranscriptDict | execute_text_converter_beta.py:67-71 | the dictionary `get_transcripts` fills has distinct keys, and its only exception is the `ValueError` of unpacking |
| ConverterBeta.GetTranscripts | execute_text_converter_beta.py:67-74 | the loop returns exactly the sorted dictionary the specification function describes, or its error |
| ConverterBeta.OrderedTranscriptsError | execute_text_converter_beta.py:69-70 | `get_transcripts` raises the `ValueError` of the first line that does not split into two fields |
| ConverterBeta.OrderedTranscriptsKeys | execute_text_converter_beta.py:72-73 | with well-formed lines the keys are strictly ascending and are exactly the filenames of the lines |
| ConverterBeta.OrderedTranscriptsLastWins | execute_text_converter_beta.py:71 | a filename maps to the stripped text of the last line carrying it |
| ConverterBeta.DictKeys | execute_text_converter_beta.py:71 | a filename is a key of the unsorted dictionary iff some line carries it |
| ConverterBeta.DictLastWins | execute_text_converter_beta.py:71 | in the unsorted dictionary a later line overwrites an earlier one |
| ConverterBeta.DictErrorSticky | execute_text_converter_beta.py:69-70 | once a line fails, the whole call fails with that error |
| ConverterBeta.ReloadsAppend | execute_text_converter_beta.py:101-124 | the books loaded over two stretches of transcripts are those of the first stretch, then those of the second starting from the `book_id` the first left; `book_id` carries over |
| ConverterBeta.ReloadsBound | execute_text_converter_beta.py:123-127 | at most one book load per transcript, and only of ids seen |
| ConverterBeta.ReloadsChange | execute_text_converter_beta.py:123-124 | consecutive loads are of different books, the first differs from the starting id, the last is the current `book_id` |
| ConverterBeta.ReloadsOneBook | execute_text_converter_beta.py:123-130 | a run of transcripts of one new book loads it exactly once |
| ConverterBeta.SearchEntry | execute_text_converter_beta.py:118-151 | one transcript: `IndexError` for a filename without `_`, `UnboundLocalError` when `book_text` was never set, otherwise a reload iff the id changed, a search with start 0 and `'hamming'`, and a row, or `AttributeError` when the search found nothing |
| ConverterBeta.ExecuteFile | execute_text_converter_beta.py:118-151 | the inner loop searches the sorted transcripts in order, every search made right, one row per search, loads as `Reloads` says, or stops with the exception of the transcript that raised it; it raises `UnboundLocalError` exactly when `book_text` was never assigned and the first transcript's book id is the current `book_id` |
| ConverterBeta.OutputFilename | execute_text_converter_beta.py:106-107 | an output filename exists iff the path holds `/`, otherwise `IndexError`; it is `output_<language>_<name>.csv` with a `/`-free name |
| ConverterBeta.OutputFilenameLocated | execute_text_converter_beta.py:106-107 | the name in the output filename is the text of the path right after its first `/`, up to the next `/` or the end |
| ConverterBeta.Execute | execute_text_converter_beta.py:77-154 | `KeyError` for an unknown language; otherwise every file goes through whole (output named after it, transcripts sorted, one right-made search and one row each, books reloaded only on a change of id, `book_id` carried across files), or the run stops with `IndexError`, `ValueError`, `UnboundLocalError`, `AttributeError` or the `ZeroDivisionError` of an empty file, for the reason that raises it; a normal end means every file had lines and the first transcript searched named a book other than `''`; a path without `/` stops the run only after every earlier file went through whole |
| ConverterBeta.ExecuteStep | execute_text_converter_beta.py:104-154 | one pass of the outer loop: a path without `/` or transcripts that do not unpack stop the run; otherwise the file's inner loop runs, and the file either extends the outer-loop state, having lines, or stops the run |
| ConverterBeta.ExecuteEntries | execute_text_converter_beta.py:117-154 | with the output open and the transcripts sorted: the inner loop's exception stops the run with the file's rows so far; a file that went through whole extends the outer-loop state, unless it has no lines, which raises `ZeroDivisionError` |
| ConverterBeta.StopAtMean | execute_text_converter_beta.py:153 | a file with no transcript lines ends the run with `ZeroDivisionError` after its (empty) output |
| ConverterBeta.StopInFile | execute_text_converter_beta.py:118-151 | an exception in the inner loop ends the run with the rows and searches made so far |
| ConverterBeta.StopAtTranscripts | execute_text_converter_beta.py:108-116 | a file whose lines do not unpack leaves an empty output file and raises the `ValueError` |
| ConverterBeta.StopAtPath | execute_text_converter_beta.py:106 | a path without `/` raises `IndexError` before the file's output is created |
| ConverterBeta.PassedStep | execute_text_converter_beta.py:104-154 | a file that went through whole extends the state of the outer loop |
| ConverterBeta.RanPartial | execute_text_converter_beta.py:104-154 | a file that stopped part way ends the run with what it did |
| Converter.GetTextNormalization | execute_text_converter.py:25-30 | the Polish normaliser iff the code is `pl`, the Portuguese one for every other code (the beta script's copy at `execute_text_converter_beta.py:49-54` is identical) |
| Converter.ResultText | execute_text_converter.py:103-104 | a missing or empty match becomes `''`, any other is kept |
| Converter.LineError | execute_text_converter.py:81-84 | a line goes through iff it unpacks into two fields and its filename holds `_`; otherwise `ValueError` or `IndexError` |
| Converter.ConvertLines | execute_text_converter.py:78-113 | the inner loop converts the lines in file order, each with the search `CallFor` and the start `StartAt` give and the row `RowFor` gives, and stops at the first failing line with its exception |
| Converter.ConvertedStep | execute_text_converter.py:79-113 | one more line that goes through extends the converted prefix |
| Converter.Executar | execute_text_converter.py:43-118 | `KeyError` for an unknown language; `UnboundLocalError` with no transcript file; otherwise only the first file is converted, every line in order until one raises, and the run ends with that line's exception, with `ZeroDivisionError` when the file is empty, or normally once every line went through |
| Converter.SequencedChain | execute_text_converter.py:95-98 | in sequenced mode the first search starts at 0 and each later one at the offset the previous search returned |
| Converter.UnsequencedLocal | execute_text_converter.py:100-102 | outside sequenced mode a line's search and row do not depend on the lines around it |
| Converter.ConvertedUnique | execute_text_converter.py:79-113 | the rows and calls of a converted prefix are determined by the lines |
| Converter.ConvertedSameAt | execute_text_converter.py:79-113 | two runs over the same lines make the same call and row for every line both reached |
| Converter.ConvertedAt | execute_text_converter.py:79-113 | each converted line went through, was searched with the start `StartAt` gives, and has the row `RowFor` gives |
| Converter.RowFields | execute_text_converter.py:112 | each row splits back on `\|` into the stripped filename, text and result and the similarity plus newline |
| Segments.Segment.constructor | audio_tools/audio_converter.py:19-25 | a new segment holds the given values, no successor and gap 0 |
| Segments.Segment.SetNext | audio_tools/audio_converter.py:27-29 | `set_next(n)` links `n` and sets `gap = n.begin - end`, leaving the other fields |
| Segments.Segment.MergeFrom | audio_tools/audio_converter.py:35-39 | `merge_from(n)` takes over `n`'s successor, gap and end, keeping begin, filesource and filepath |
| Segments.MergeWithNext | audio_tools/audio_converter.py:35-39 | merging a chain node with its successor drops the successor from the chain and changes values and gaps exactly as `MergeSpans`/`MergeGaps` say |
| Segments.MergeKeepsGaps | audio_tools/audio_converter.py:27-39 | with every gap the distance to the next begin and the last gap 0, a merge keeps that, shortens the chain by one, keeps the other segments in order and keeps the first begin and the last end |
| Segments.Append | audio_tools/audio_converter.py:84 | `prev.set_next(segment)` on the tail appends the segment to the chain and records the distance to it as the old tail's gap |
| Segments.AppendKeepsGaps | audio_tools/audio_converter.py:27-29 | appending after recording the distance keeps every gap right |
| Segments.CoveredWhole | audio_tools/audio_converter.py:27-29 | with the gaps right, segments and gaps tile the time from the first begin to the last end exactly |
| Segments.CoveredPrefix | audio_tools/audio_converter.py:27-29 | with the gaps right, the first `k` segments and gaps reach from the first begin to the `k`-th end plus its gap |
| AudioConverter.Extension | audio_tools/audio_converter.py:49 | `.wav` iff the format is `wav`, `.flac` otherwise |
| AudioConverter.ParseSegmentLineErrors | audio_tools/audio_converter.py:56-58 | a line parses iff its stripped form has four tab-separated fields and its filename three `_` parts; otherwise the `ValueError` names the wanted and the actual count |
| AudioConverter.ParseSegmentLineFields | audio_tools/audio_converter.py:56-58 | a parsed line's fields are those of the stripped line, in order, and its folders the first two parts of the filename |
| AudioConverter.LineSpanUsable | audio_tools/audio_converter.py:63-77 | a line is skipped iff its mp3 is missing or its sample rate is below `sampling_rate`; a bad time raises `ValueError`; a kept segment is cut from that mp3 between the two times |
| AudioConverter.LineSpanPath | audio_tools/audio_converter.py:67 | a segment is written to a path ending in its filename plus the extension |
| AudioConverter.CollectFrom | audio_tools/audio_converter.py:54-85 | no more segments than lines, each one given by some line |
| AudioConverter.CollectAppend | audio_tools/audio_converter.py:54-85 | the segments of two stretches of lines are those of the first followed by those of the second |
| AudioConverter.CollectErrorSticky | audio_tools/audio_converter.py:54-77 | once a line raises, no later line changes the outcome |
| AudioConverter.KeptErrorSticky | audio_tools/audio_converter.py:54-77 | once a line of the file raises, the call raises that exception |
| AudioConverter.KeptSpansUsable | audio_tools/audio_converter.py:63-85 | every linked segment comes from an existing mp3 with a high enough sample rate, and there are no more segments than lines |
| AudioConverter.KeptSpansAppend | audio_tools/audio_converter.py:54-85 | lines are linked in file order: the segments of two stretches of lines are concatenated |
| AudioConverter.LinkSegment | audio_tools/audio_converter.py:80-85 | `head = segment` on an empty chain, `prev.set_next(segment)` otherwise: the chain grows by the segment at its end with the gaps right |
| AudioConverter.BuildChain | audio_tools/audio_converter.py:54-85 | the loop links exactly the segments the lines give, in order, into a chain with the gaps right whose head is the first, or returns the first line's exception |
| AudioConverter.CreateSegmentsList | audio_tools/audio_converter.py:45-87 | `create_segments_list` returns the chain of the kept lines in file order with the gaps right, and the number of lines read, skipped ones included, or the exception of the first line that raises |
| AudioConverter.ExportFormat | audio_tools/audio_converter.py:105-108 | `wav` iff the format is `wav`, `flac` otherwise |
| AudioConverter.CreateAudioFilesFromSegmentsList | audio_tools/audio_converter.py:90-118 | the segments are exported in chain order; the result is true iff every export succeeded, and on the first failure no later segment is exported |
| DownloadMp3.FirstWins | audio_tools/download_mp3_files.py:19-32 | the dictionary has distinct keys and no more entries than lines |
| DownloadMp3.FirstWinsStep | audio_tools/download_mp3_files.py:31-32 | a failing line fails the dictionary, a new link is appended, a link already present changes nothing |
| DownloadMp3.FirstWinsOk | audio_tools/download_mp3_files.py:20-32 | the dictionary is built iff every line gives an entry |
| DownloadMp3.FirstWinsError | audio_tools/download_mp3_files.py:20-23 | the error is that of the first line that fails |
| DownloadMp3.FirstWinsErrorSticky | audio_tools/download_mp3_files.py:20-23 | once a line fails, the whole call fails with that error |
| DownloadMp3.FirstWinsKeys | audio_tools/download_mp3_files.py:31-32 | a link is a key iff some line carries it |
| DownloadMp3.FirstWinsFirst | audio_tools/download_mp3_files.py:31-32 | a link keeps the folder of the first line that carries it |
| DownloadMp3.LineEntryFields | audio_tools/download_mp3_files.py:21-28 | a line gives an entry iff it parses; the link is the second field of the stripped line, rewritten only for quality 128, and the folder joins the first two `_` parts of the filename |
| DownloadMp3.EntriesOf | audio_tools/download_mp3_files.py:20 | one entry per line, in file order |
| DownloadMp3.FillLinks | audio_tools/download_mp3_files.py:19-32 | the loop returns exactly the dictionary `FirstWins` describes |
| DownloadMp3.GetLinksDict | audio_tools/download_mp3_files.py:12-36 | `get_links_dict` returns the first-wins dictionary sorted by link, or the error of the first bad line |
| DownloadMp3.OrderedLinksError | audio_tools/download_mp3_files.py:21-23 | `get_links_dict` raises the error of the first line that does not parse |
| DownloadMp3.OrderedLinksKeys | audio_tools/download_mp3_files.py:19-36 | with every line parsed, the links are strictly ascending, at most one per line, and exactly those the lines carry |
| DownloadMp3.OrderedLinksFirstWins | audio_tools/download_mp3_files.py:31-32 | the folder kept for a link is that of the first line carrying it |

## Left out

- The approximate substring search is a parameter. Its definition is not
  part of this model.
- Downloading and extracting the datasets and books, and every `open`,
  `read`, `write` and `close`, are I/O. Files come in as sequences of lines
  and book texts through a reading function. Creating an output file
  appears only as the name or the flag the model returns.
- `download_mp3_from_dict` is network fetching, polling, back-off and file
  checks. It is all I/O and is not part of this model.
- The spaCy tokenizers (`get_tokenizer`), `cleantext.clean` (`text_cleaning`)
  and the text normalisers are foreign libraries and are parameters.
- pydub slicing and export, and `mediainfo`, are foreign libraries. The
  export outcome and the sample rate are parameters.
- `int(info['sample_rate'])` and `int(sampling_rate)` cannot fail in the
  model, because the sample rate is given as an integer.
- `get_filepath_from_link` and `get_better_quality_link` are not part of
  this model; they are parameters.
- Floating point: the similarity is a generic value with a parameter
  rendering it as text. Totals and means are not computed; only the
  `ZeroDivisionError` of a mean over an empty file is modelled. The
  seconds-to-milliseconds conversion is a parameter giving whole
  milliseconds.
- `Segment.duration` reads `self.start`, which nothing assigns, so it cannot
  succeed as written. It is not modelled.
- `Segment.set_filename_and_id` is not used by the modelled functions. It
  is not modelled.
- `tqdm` progress bars and `print` output have no effect on the results and
  are not modelled.
- `execute` returning `False` when the dataset download fails is I/O, and
  is not modelled.
- AudioConverter.CreateAudioFilesFromSegmentsList: `AudioSegment.from_file`
  runs outside the `try`, and only `IOError` is caught around the export.
  The model has one outcome per segment, the export's, so a source file
  that cannot be read, whose exception propagates instead of `False` being
  returned, is not modelled.
- ConverterBeta.Execute: the thread count is an integer, so the
  `ValueError` that `int(number_threads)` raises at the first search for a
  non-numeric argument is not modelled.
- AudioConverter.CreateSegmentsList: the contract does not state that the
  linked segments are newly allocated.
- AudioConverter.BuildChain: the parse of a line reaches the loop as a
  function of the line, not as statements in the loop body.
- DownloadMp3.FillLinks: the parse and rewrite of a line reach the loop as
  a function of the line (`LineEntry`), not as statements in the loop body.
