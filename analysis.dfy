/**
 * Turning one source into a `WordCountResult`: text extraction from a .docx
 * package (`extractTextFromDocx`) and the per-file and per-batch analysis of
 * `handleFileChange` (src/components/WordCount.tsx).
 */
module Analysis {
  import opened Wrappers
  import opened Unicode
  import opened Tokenize
  import opened WordCounts

  /** The package part that holds the document body. */
  const MainPartPath: string := "word/document.xml"

  /**
   * An uploaded package as the browser and JSZip see it: a file whose bytes
   * cannot be read, bytes that are not a zip archive, or an archive whose
   * parts are given by path. A part is `None` when its data cannot be
   * decompressed or decoded, and otherwise is represented by what the XML
   * parser makes of it: the text contents of its `w:t` elements in document
   * order.
   */
  datatype Archive = FileUnreadable | NotZip | Zip(parts: map<string, Option<seq<string>>>)

  datatype ExtractError =
    | FileReadFailed      // `file.arrayBuffer()` rejects
    | NotAZipArchive      // `zip.loadAsync` rejects
    | DocumentXmlMissing  // "document.xml not found in DOCX file."
    | PartUnreadable      // `xmlFile.async("text")` rejects

  datatype UploadedFile = UploadedFile(name: string, content: Archive)

  datatype WordCountResult = WordCountResult(fileName: string, wordCounts: seq<Entry>, totalWords: nat)

  /** The invariant every stored result keeps: unique keys, positive counts, and a total that is their sum. */
  predicate Consistent(r: WordCountResult)
  {
    && r.totalWords == TotalWords(r.wordCounts)
    && NoDuplicates(Keys(r.wordCounts))
    && forall i :: 0 <= i < |r.wordCounts| ==> r.wordCounts[i].count >= 1
  }

  /**
   * `extractTextFromDocx`: each of its four awaited steps can fail, in order —
   * reading the file, opening the archive, finding the main part, reading that
   * part; otherwise the `w:t` texts joined by single spaces, in canonical
   * composition.
   */
  function ExtractText(u: Tables, a: Archive): (r: Result<string, ExtractError>)
    ensures a.FileUnreadable? ==> r == Err(FileReadFailed)
    ensures a.NotZip? ==> r == Err(NotAZipArchive)
    ensures a.Zip? && MainPartPath !in a.parts ==> r == Err(DocumentXmlMissing)
    ensures a.Zip? && MainPartPath in a.parts && a.parts[MainPartPath].None? ==> r == Err(PartUnreadable)
    ensures r.Ok? <==> a.Zip? && MainPartPath in a.parts && a.parts[MainPartPath].Some?
    ensures r.Ok? ==> r.value == u.nfc(Join(a.parts[MainPartPath].value, " "))
  {
    match a
    case FileUnreadable => Err(FileReadFailed)
    case NotZip => Err(NotAZipArchive)
    case Zip(parts) =>
      if MainPartPath !in parts then Err(DocumentXmlMissing)
      else
        match parts[MainPartPath]
        case None => Err(PartUnreadable)
        case Some(runs) => Ok(u.nfc(Join(runs, " ")))
  }

  /**
   * `{ fileName, wordCounts, totalWords: getTotalWords(wordCounts) }` for a
   * text: a consistent result named `name`, holding one entry per distinct
   * normalized word in order of first occurrence, whose total is the number
   * of letter-bearing words of the text.
   */
  function Analyze(u: Tables, name: string, text: string): (r: WordCountResult)
    ensures r.fileName == name
    ensures Consistent(r)
    ensures Keys(r.wordCounts) == Distinct(Tokens(u, text))
    ensures forall i :: 0 <= i < |r.wordCounts| ==>
              r.wordCounts[i].count == Occurrences(Tokens(u, text), r.wordCounts[i].word)
    ensures r.totalWords == |Words(u, text)|
  {
    var counts := Tally(Tokens(u, text));
    CountWordsSpec(u, text);
    WordCountResult(name, counts, TotalWords(counts))
  }

  /** The body of the `uploadedFiles.map` callback: extract, count, name the result after the file. */
  function AnalyzeFile(u: Tables, f: UploadedFile): (r: Result<WordCountResult, ExtractError>)
    ensures r.Ok? <==> ExtractText(u, f.content).Ok?
    ensures r.Err? ==> r.error == ExtractText(u, f.content).error
    ensures r.Ok? ==> r.value == Analyze(u, f.name, ExtractText(u, f.content).value)
  {
    match ExtractText(u, f.content)
    case Err(e) => Err(e)
    case Ok(text) => Ok(Analyze(u, f.name, text))
  }

  /**
   * `Promise.all(uploadedFiles.map(...))`, taken in upload order: the results
   * of all files, or the error of the first file that fails.
   */
  function AnalyzeBatch(u: Tables, fs: seq<UploadedFile>): (r: Result<seq<WordCountResult>, ExtractError>)
    ensures r.Ok? ==> |r.value| == |fs|
  {
    if fs == [] then Ok([])
    else
      match AnalyzeFile(u, fs[0])
      case Err(e) => Err(e)
      case Ok(first) =>
        match AnalyzeBatch(u, fs[1..])
        case Err(e) => Err(e)
        case Ok(rest) => Ok([first] + rest)
  }

  /** A batch succeeds exactly when every file of it does, and then holds each file's result at the file's position. */
  lemma {:induction false} BatchAllOrNothing(u: Tables, fs: seq<UploadedFile>)
    ensures AnalyzeBatch(u, fs).Ok? <==> forall i :: 0 <= i < |fs| ==> AnalyzeFile(u, fs[i]).Ok?
    ensures AnalyzeBatch(u, fs).Ok? ==> forall i :: 0 <= i < |fs| ==> AnalyzeBatch(u, fs).value[i] == AnalyzeFile(u, fs[i]).value
  {
    if fs != [] {
      var rest := fs[1..];
      BatchAllOrNothing(u, rest);
      assert forall i :: 1 <= i < |fs| ==> fs[i] == rest[i - 1];
      if AnalyzeFile(u, fs[0]).Ok? && AnalyzeBatch(u, rest).Ok? {
        assert AnalyzeBatch(u, fs).value == [AnalyzeFile(u, fs[0]).value] + AnalyzeBatch(u, rest).value;
      }
    }
  }

  /** A failing batch fails with the error of its first failing file; every file before that one succeeds. */
  lemma {:induction false} BatchFirstError(u: Tables, fs: seq<UploadedFile>)
    requires AnalyzeBatch(u, fs).Err?
    ensures exists k :: 0 <= k < |fs| && AnalyzeFile(u, fs[k]).Err? && AnalyzeBatch(u, fs).error == AnalyzeFile(u, fs[k]).error &&
                        forall j :: 0 <= j < k ==> AnalyzeFile(u, fs[j]).Ok?
  {
    if AnalyzeFile(u, fs[0]).Err? {
      assert AnalyzeBatch(u, fs).error == AnalyzeFile(u, fs[0]).error;
    } else {
      var rest := fs[1..];
      BatchFirstError(u, rest);
      var k :| 0 <= k < |rest| && AnalyzeFile(u, rest[k]).Err? && AnalyzeBatch(u, rest).error == AnalyzeFile(u, rest[k]).error &&
               forall j :: 0 <= j < k ==> AnalyzeFile(u, rest[j]).Ok?;
      assert fs[k + 1] == rest[k];
      assert AnalyzeBatch(u, fs).error == AnalyzeBatch(u, rest).error;
      forall j | 0 <= j < k + 1
        ensures AnalyzeFile(u, fs[j]).Ok?
      {
        if j > 0 {
          assert fs[j] == rest[j - 1];
        }
      }
    }
  }

  /** A successful batch has one consistent result per file, named after that file, in upload order. */
  lemma BatchResults(u: Tables, fs: seq<UploadedFile>)
    requires AnalyzeBatch(u, fs).Ok?
    ensures |AnalyzeBatch(u, fs).value| == |fs|
    ensures forall i :: 0 <= i < |fs| ==>
              AnalyzeBatch(u, fs).value[i].fileName == fs[i].name && Consistent(AnalyzeBatch(u, fs).value[i])
  {
    BatchAllOrNothing(u, fs);
  }

  /** A file without the main part makes the whole batch fail, whatever the other files hold. */
  lemma MissingPartFailsBatch(u: Tables, fs: seq<UploadedFile>, k: nat)
    requires k < |fs| && fs[k].content.Zip? && MainPartPath !in fs[k].content.parts
    ensures AnalyzeBatch(u, fs).Err?
  {
    BatchAllOrNothing(u, fs);
    assert AnalyzeFile(u, fs[k]).Err?;
  }
}
