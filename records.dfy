/** The line and row formats shared by the two transcript converters:
    tab-separated input lines, the book id inside a transcript filename,
    the `|`-separated output row and the language table. */
module Records {
  import opened Common
  import opened PyStr

  /** `a, b, ... = s.split(sep)` with `n` targets: Python raises `ValueError`
      unless the split yields exactly `n` pieces. */
  function Unpack(s: string, sep: char, n: nat): (r: Result<seq<string>>)
    ensures r.Ok? ==> r.value == Split(s, sep) && |r.value| == n
    ensures r.Ok? ==> Join(r.value, sep) == s && forall p <- r.value :: sep !in p
    ensures r.Err? ==> r.error == UnpackError(n, |Split(s, sep)|) && |Split(s, sep)| != n
  {
    var parts := Split(s, sep);
    JoinSplit(s, sep);
    if |parts| == n then Ok(parts) else Err(UnpackError(n, |parts|))
  }

  /** Unpacking a join of `n` separator-free fields gives back the fields. */
  lemma UnpackJoin(fields: seq<string>, sep: char)
    requires |fields| >= 1 && forall p <- fields :: sep !in p
    ensures Unpack(Join(fields, sep), sep, |fields|) == Ok(fields)
  {
    SplitJoin(fields, sep);
  }

  /** `filename.split('_')[1]`: `IndexError` when there is no underscore. */
  function BookId(filename: string): (r: Result<string>)
    ensures r.Ok? <==> '_' in filename
    ensures r.Err? ==> r.error == IndexError
    ensures r.Ok? ==> '_' !in r.value
  {
    var parts := Split(filename, '_');
    if |parts| < 2 then Err(IndexError) else Ok(parts[1])
  }

  /** The book id is the text between the first and the second underscore,
      or between the first underscore and the end. */
  lemma BookIdLocated(filename: string)
    requires '_' in filename
    ensures BookIdAt(filename, IndexOf(filename, '_') + 1, BookId(filename).value)
  {
    var i := IndexOf(filename, '_') + 1;
    SplitSecond(filename, '_');
    var id := Split(filename[i..], '_')[0];
    assert BookId(filename).value == id;
    PrefixLocated(filename, i, id, '_');
    assert BookIdAt(filename, i, id);
  }

  /** `id` is written in `filename` at position `i`, followed by `_` or by the end. */
  predicate BookIdAt(filename: string, i: nat, id: string) {
    && i + |id| <= |filename| && filename[i..i + |id|] == id
    && (i + |id| == |filename| || filename[i + |id|] == '_')
  }

  /** The book id of a filename built from `_`-separated components is its second component. */
  lemma BookIdOfJoin(parts: seq<string>)
    requires |parts| >= 2 && forall p <- parts :: '_' !in p
    ensures BookId(Join(parts, '_')) == Ok(parts[1])
  {
    SplitJoin(parts, '_');
  }

  /** `'|'.join([filename.strip(), text.strip(), result.strip(), score + '\n'])`. */
  function FormatRow(filename: string, text: string, result: string, score: string): (row: string)
    ensures |row| > 0 && row[|row| - 1] == '\n'
  {
    var fields := [Strip(filename), Strip(text), Strip(result), score + "\n"];
    JoinEndsWithLast(fields, '|');
    Join(fields, '|')
  }

  /** A row splits back on `|` into its four fields when none of them holds a `|`. */
  lemma FormatRowSplit(filename: string, text: string, result: string, score: string)
    requires '|' !in filename && '|' !in text && '|' !in result && '|' !in score
    ensures Split(FormatRow(filename, text, result, score), '|')
         == [Strip(filename), Strip(text), Strip(result), score + "\n"]
  {
    var fields := [Strip(filename), Strip(text), Strip(result), score + "\n"];
    if '|' in Strip(filename) { StripInfix(filename, '|'); }
    if '|' in Strip(text) { StripInfix(text, '|'); }
    if '|' in Strip(result) { StripInfix(result, '|'); }
    SplitJoin(fields, '|');
  }

  /** The `abbrev2language` table. */
  const Abbrev2Language: map<string, string> := map[
    "pt" := "portuguese", "pl" := "polish", "it" := "italian", "sp" := "spanish",
    "fr" := "french", "du" := "dutch", "ge" := "german", "en" := "english"]

  /** `abbrev2language[abbrev]`: `KeyError` for a code outside the table. */
  function LanguageName(abbrev: string): (r: Result<string>)
    ensures r.Ok? <==> abbrev in {"pt", "pl", "it", "sp", "fr", "du", "ge", "en"}
    ensures r.Err? ==> r.error == KeyError(abbrev)
    ensures abbrev == "pl" ==> r == Ok("polish")
    ensures abbrev == "pt" ==> r == Ok("portuguese")
  {
    if abbrev in Abbrev2Language then Ok(Abbrev2Language[abbrev]) else Err(KeyError(abbrev))
  }

  /** What the external search engine returns: the matched text (`None` when
      nothing matched), the similarity and the offset to resume from. */
  datatype Match<S> = Match(text: Option<string>, similarity: S, offset: int)

  /** A transcript file of the dataset: its path and its lines. */
  datatype TranscriptFile = TranscriptFile(path: string, lines: seq<string>)
}
