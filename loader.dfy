/** `load_file`: choose a reader by the path's suffix, or raise ValueError. */
module Loader {
  import opened Basics
  import opened Text
  import opened Frames

  /** The four readers: `pl.read_csv`, `pl.read_parquet`, `pl.read_json`, `pl.read_ipc`. */
  datatype Format = Csv | Parquet | Json | Ipc

  function Suffix(f: Format): string {
    match f
    case Csv => ".csv"
    case Parquet => ".parquet"
    case Json => ".json"
    case Ipc => ".ipc"
  }

  const MessageHead: string := "Unsupported file type: "
  const MessageTail: string := ". Supported formats are: .csv, .parquet, .json, .ipc"

  function UnsupportedMessage(path: string): string {
    MessageHead + path + MessageTail
  }

  /** `t in s` for Python strings. */
  predicate Contains(s: string, t: string) {
    exists i :: 0 <= i <= |s| && t <= s[i..]
  }

  /** The `if`/`elif` chain on `file_path.endswith(...)`. */
  function ChooseReader(path: string): (r: Result<Format, Fault>)
    ensures r.Ok? ==> EndsWith(path, Suffix(r.value))
    ensures r.Err? ==> r.error.ValueError?
  {
    if EndsWith(path, Suffix(Csv)) then Ok(Csv)
    else if EndsWith(path, Suffix(Parquet)) then Ok(Parquet)
    else if EndsWith(path, Suffix(Json)) then Ok(Json)
    else if EndsWith(path, Suffix(Ipc)) then Ok(Ipc)
    else Err(ValueError(UnsupportedMessage(path)))
  }

  /** The last characters of the four suffixes, which tell them apart. */
  function LastChar(f: Format): char {
    match f
    case Csv => 'v'
    case Parquet => 't'
    case Json => 'n'
    case Ipc => 'c'
  }

  lemma EndsWithLastChar(path: string, f: Format)
    ensures EndsWith(path, Suffix(f)) ==> |path| > 0 && path[|path| - 1] == LastChar(f)
  {
    if EndsWith(path, Suffix(f)) {
      assert path[|path| - 1] == path[|path| - |Suffix(f)|..][|Suffix(f)| - 1];
    }
  }

  /** No path ends with two of the suffixes, so at most one reader can apply and the order
      of the `elif` chain does not matter. */
  lemma SuffixesExclusive(path: string, f: Format, g: Format)
    requires f != g
    ensures !(EndsWith(path, Suffix(f)) && EndsWith(path, Suffix(g)))
  {
    EndsWithLastChar(path, f);
    EndsWithLastChar(path, g);
  }

  /** A reader is chosen exactly when the path ends with its suffix. */
  lemma ChooseReaderIff(path: string, f: Format)
    ensures ChooseReader(path) == Ok(f) <==> EndsWith(path, Suffix(f))
  {
    forall g | g != f ensures !(EndsWith(path, Suffix(f)) && EndsWith(path, Suffix(g))) {
      SuffixesExclusive(path, f, g);
    }
  }

  /** Appending a format's suffix to any stem selects that format. */
  lemma ChooseReaderOfSuffix(stem: string, f: Format)
    ensures ChooseReader(stem + Suffix(f)) == Ok(f)
  {
    var path := stem + Suffix(f);
    assert path[|path| - |Suffix(f)|..] == Suffix(f);
    ChooseReaderIff(path, f);
  }

  /** Any other path raises ValueError, and the message names the path. */
  lemma ChooseReaderRejects(path: string)
    ensures ChooseReader(path).Err? <==> forall f :: !EndsWith(path, Suffix(f))
    ensures ChooseReader(path).Err? ==>
      ChooseReader(path).error.ValueError? && Contains(ChooseReader(path).error.message, path)
  {
    forall f ensures ChooseReader(path) == Ok(f) <==> EndsWith(path, Suffix(f)) {
      ChooseReaderIff(path, f);
    }
    var msg := UnsupportedMessage(path);
    assert msg[|MessageHead|..] == path + MessageTail;
  }

  /** A path whose last character ends none of the suffixes is rejected; so matching is
      case-sensitive and on the end of the whole path. */
  lemma ChooseReaderByLastChar(path: string)
    requires |path| == 0 || path[|path| - 1] !in {'v', 't', 'n', 'c'}
    ensures ChooseReader(path).Err?
  {
    EndsWithLastChar(path, Csv);
    EndsWithLastChar(path, Parquet);
    EndsWithLastChar(path, Json);
    EndsWithLastChar(path, Ipc);
  }

  lemma ChooseReaderExamples()
    ensures ChooseReader("data.csv") == Ok(Csv)
    ensures ChooseReader("data.parquet") == Ok(Parquet)
    ensures ChooseReader("data.CSV").Err?
    ensures ChooseReader("data.csv.gz").Err?
  {
    ChooseReaderOfSuffix("data", Csv);
    ChooseReaderOfSuffix("data", Parquet);
    ChooseReaderByLastChar("data.CSV");
    ChooseReaderByLastChar("data.csv.gz");
  }

  /** The chosen format, the frame its reader returned, and the lines logged. */
  datatype Loaded = Loaded(format: Format, frame: Frame, log: seq<string>)

  /** `load_file(file_path, verbose)`. The reader is a parameter: `read(f, path)` is the frame
      the Polars reader for `f` produces from the file at `path`. */
  function LoadFile(path: string, verbose: bool, read: (Format, string) -> Frame): (r: Result<Loaded, Fault>)
    ensures r.Ok? <==> ChooseReader(path).Ok?
    ensures r.Ok? ==> r.value.format == ChooseReader(path).value && r.value.frame == read(r.value.format, path)
  {
    match ChooseReader(path)
    case Err(e) => Err(e)
    case Ok(f) => Ok(Loaded(f, read(f, path), if verbose then ["Loaded " + path] else []))
  }

  /** `verbose` only adds the "Loaded <path>" line: it changes neither the reader nor the
      frame. */
  lemma VerboseOnlyLogs(path: string, read: (Format, string) -> Frame)
    ensures LoadFile(path, true, read).Ok? <==> LoadFile(path, false, read).Ok?
    ensures LoadFile(path, true, read).Ok? ==>
      && LoadFile(path, true, read).value.format == LoadFile(path, false, read).value.format
      && LoadFile(path, true, read).value.frame == LoadFile(path, false, read).value.frame
      && LoadFile(path, false, read).value.log == []
      && LoadFile(path, true, read).value.log == ["Loaded " + path]
    ensures LoadFile(path, true, read).Err? ==> LoadFile(path, true, read) == LoadFile(path, false, read)
  {
  }
}
