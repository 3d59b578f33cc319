/**
 * The state of the `WordCount` component (src/components/WordCount.tsx) and
 * the handlers that change it. React's `useState` cells become fields; each
 * handler becomes a method that assigns them.
 */
module Session {
  import opened Wrappers
  import opened Unicode
  import opened WordCounts
  import opened Analysis

  datatype Tab = Upload | Text

  /** The label a pasted-text result carries. */
  const InputTextName: string := "Input Text"

  class WordCount {
    var files: seq<UploadedFile>
    var results: seq<WordCountResult>
    var textInput: string
    var activeTab: Tab

    /** Every stored result is consistent: unique keys, positive counts, total equal to their sum. */
    ghost predicate Valid()
      reads this
    {
      forall i :: 0 <= i < |results| ==> Consistent(results[i])
    }

    /** The initial `useState` values. */
    constructor ()
      ensures Valid()
      ensures files == [] && results == [] && textInput == [] && activeTab == Text
    {
      files, results, textInput, activeTab := [], [], [], Text;
    }

    /** `handleTextChange`: the text area's value becomes the text input. */
    method HandleTextChange(value: string)
      requires Valid()
      modifies this
      ensures Valid()
      ensures textInput == value
      ensures files == old(files) && results == old(results) && activeTab == old(activeTab)
    {
      textInput := value;
    }

    /**
     * `handleAnalyzeText`: the result of counting the text input is appended,
     * under the name "Input Text"; earlier results and the other fields are
     * left alone.
     */
    method HandleAnalyzeText(u: Tables)
      requires Valid()
      modifies this
      ensures Valid()
      ensures results == old(results) + [Analyze(u, InputTextName, old(textInput))]
      ensures files == old(files) && textInput == old(textInput) && activeTab == old(activeTab)
    {
      var wordCounts := CountWords(u, textInput);
      var totalWords := TotalWords(wordCounts);
      var result := WordCountResult(InputTextName, wordCounts, totalWords);
      assert result == Analyze(u, InputTextName, textInput);
      assert Consistent(result);
      results := results + [result];
    }

    /** `handleTabChange`: switching tabs forgets the text, the files and every result. */
    method HandleTabChange(tab: Tab)
      requires Valid()
      modifies this
      ensures Valid()
      ensures activeTab == tab && textInput == [] && files == [] && results == []
    {
      activeTab := tab;
      textInput := [];
      files := [];
      results := [];
    }

    /**
     * `handleFileChange`: the picked files (none when the input has no file
     * list) become `files` and the text input is cleared at once. The batch is
     * then analyzed as a whole: on success its results replace the stored ones;
     * on failure the stored results stay as they were and the error is
     * returned, as the handler's promise rejects with it.
     */
    method HandleFileChange(u: Tables, picked: Option<seq<UploadedFile>>) returns (failure: Option<ExtractError>)
      requires Valid()
      modifies this
      ensures Valid()
      ensures files == (if picked.Some? then picked.value else [])
      ensures textInput == [] && activeTab == old(activeTab)
      ensures AnalyzeBatch(u, files).Ok? ==> failure == None && results == AnalyzeBatch(u, files).value
      ensures AnalyzeBatch(u, files).Err? ==> failure == Some(AnalyzeBatch(u, files).error) && results == old(results)
    {
      var uploaded := if picked.Some? then picked.value else [];
      files := uploaded;
      textInput := [];
      var batch := AnalyzeBatch(u, uploaded);
      match batch {
        case Ok(fileResults) =>
          BatchResults(u, uploaded);
          results := fileResults;
          failure := None;
        case Err(e) =>
          failure := Some(e);
      }
    }
  }
}
