/**
 * The paragraph texts `downloadResults` puts into the exported document
 * (src/components/WordCount.tsx). The docx serialization and the browser
 * download are not modelled; only the file name and the text of each
 * section's paragraphs are.
 */
module Export {
  import opened Analysis
  import opened WordCounts

  /** The name `saveAs` offers the document under. */
  const ExportFileName: string := "Word_Count_Results.docx"

  /** The document handed to the download: its file name and, per section, its paragraph texts. */
  datatype Download = Download(fileName: string, sections: seq<seq<string>>)

  predicate IsDigit(c: char)
  {
    '0' as int <= c as int <= '9' as int
  }

  function DigitChar(d: nat): (c: char)
    requires d < 10
    ensures IsDigit(c) && c as int - '0' as int == d
  {
    ('0' as int + d) as char
  }

  /** The number a string of decimal digits denotes. */
  function DigitsValue(s: string): nat
    requires forall i :: 0 <= i < |s| ==> IsDigit(s[i])
  {
    if s == [] then 0
    else
      var last := s[|s| - 1];
      assert IsDigit(last);
      10 * DigitsValue(s[..|s| - 1]) + (last as int - '0' as int)
  }

  /**
   * How a template literal renders a count: the decimal digits of `n`, with no
   * leading zero, denoting `n`.
   */
  function NatToString(n: nat): (s: string)
    ensures |s| >= 1 && forall i :: 0 <= i < |s| ==> IsDigit(s[i])
    ensures s[0] == '0' <==> n == 0
    ensures n == 0 ==> s == "0"
    ensures DigitsValue(s) == n
    decreases n
  {
    if n < 10 then [DigitChar(n)]
    else
      var s := NatToString(n / 10) + [DigitChar(n % 10)];
      assert s[..|s| - 1] == NatToString(n / 10);
      s
  }

  /** The paragraph for one entry: `${word}: ${count}`. */
  function EntryLine(e: Entry): (line: string)
    ensures e.word <= line && |line| > |e.word| + 2
    ensures line[|e.word|..|e.word| + 2] == ": "
    ensures var digits := line[|e.word| + 2..];
            (forall i :: 0 <= i < |digits| ==> IsDigit(digits[i])) && DigitsValue(digits) == e.count
  {
    e.word + ": " + NatToString(e.count)
  }

  function EntryLines(es: seq<Entry>): (lines: seq<string>)
    ensures |lines| == |es|
    ensures forall j :: 0 <= j < |es| ==> lines[j] == EntryLine(es[j])
  {
    if es == [] then [] else [EntryLine(es[0])] + EntryLines(es[1..])
  }

  /**
   * One section: the heading `File: <name>`, then `Total Words: <n>`, then one
   * line per entry in stored order.
   */
  function Section(r: WordCountResult): (lines: seq<string>)
    ensures |lines| == 2 + |r.wordCounts|
    ensures lines[0] == "File: " + r.fileName
    ensures lines[1] == "Total Words: " + NatToString(r.totalWords)
    ensures forall j :: 0 <= j < |r.wordCounts| ==> lines[2 + j] == EntryLine(r.wordCounts[j])
  {
    ["File: " + r.fileName, "Total Words: " + NatToString(r.totalWords)] + EntryLines(r.wordCounts)
  }

  /** `results.map(...)`: one section per result, in result order. */
  function Sections(rs: seq<WordCountResult>): (ss: seq<seq<string>>)
    ensures |ss| == |rs|
    ensures forall i :: 0 <= i < |rs| ==> ss[i] == Section(rs[i])
  {
    if rs == [] then [] else [Section(rs[0])] + Sections(rs[1..])
  }

  /** `downloadResults`: the document of all results, under the fixed file name. */
  function DownloadResults(rs: seq<WordCountResult>): (d: Download)
    ensures d.fileName == ExportFileName
    ensures |d.sections| == |rs|
    ensures forall i :: 0 <= i < |rs| ==> d.sections[i] == Section(rs[i])
  {
    Download(ExportFileName, Sections(rs))
  }

  /** Appending a result appends exactly its section to the export and leaves the earlier sections as they were. */
  lemma ExportAppend(rs: seq<WordCountResult>, r: WordCountResult)
    ensures DownloadResults(rs + [r]).sections == DownloadResults(rs).sections + [Section(r)]
  {
  }

  /** A one-result export example: the four paragraphs, in order. */
  lemma ExportExample()
    ensures DownloadResults([WordCountResult("Input Text", [Entry("hello", 1), Entry("world", 1)], 2)]).sections
            == [["File: Input Text", "Total Words: 2", "hello: 1", "world: 1"]]
  {
    var r := WordCountResult("Input Text", [Entry("hello", 1), Entry("world", 1)], 2);
    assert NatToString(2) == "2" && NatToString(1) == "1";
    assert "File: " + "Input Text" == "File: Input Text";
    assert "Total Words: " + "2" == "Total Words: 2";
    assert "hello" + ": " + "1" == "hello: 1";
    assert "world" + ": " + "1" == "world: 1";
    assert Section(r) == ["File: Input Text", "Total Words: 2", "hello: 1", "world: 1"];
  }
}
