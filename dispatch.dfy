/** `extract_text`: chooses a document parser by the file name's extension. The parsers
    themselves (PyMuPDF, BeautifulSoup, pandas, python-docx) are opaque functions. */
module Dispatch {

  import opened Wrappers
  import opened Text

  type Bytes = seq<bv8>

  /** The foreign parsers; `Err` stands for whatever exception the library raises. */
  datatype Parsers = Parsers(
    pdf: Bytes -> Result<string>,             // every page's text followed by "\n"
    html: Bytes -> Result<string>,            // BeautifulSoup(...).get_text()
    excel: Bytes -> Result<string>,           // read_excel(...).to_string()
    csv: Bytes -> Result<string>,             // read_csv(...).to_string()
    docx: Bytes -> Result<seq<string>>)       // the text of each paragraph

  datatype Format = Pdf | Html | Spreadsheet | Csv | Docx | Unknown

  /** `filename.lower().split(".")[-1]`: the lowered name after its last dot, or the whole
      lowered name when it has no dot. */
  function Extension(filename: string): (r: string)
    ensures '.' !in r
    ensures EndsWith(Lower(filename), r)
    ensures r == Lower(filename) || Lower(filename)[|Lower(filename)| - |r| - 1] == '.'
  {
    var low := Lower(filename);
    match LastIndexOf(low, '.')
    case Some(i) => low[i + 1..]
    case None => low
  }

  function FormatOf(key: string): Format {
    if key == "pdf" then Pdf
    else if key == "htm" || key == "html" then Html
    else if key == "xls" || key == "xlsx" then Spreadsheet
    else if key == "csv" then Csv
    else if key == "docx" then Docx
    else Unknown
  }

  /** `extract_text(file_bytes, filename)`. */
  function ExtractText(p: Parsers, data: Bytes, filename: string): (r: Result<string>)
    ensures FormatOf(Extension(filename)) == Unknown ==> r == Ok("")
    ensures FormatOf(Extension(filename)) == Pdf ==> r == p.pdf(data)
    ensures FormatOf(Extension(filename)) == Html ==> r == p.html(data)
    ensures FormatOf(Extension(filename)) == Spreadsheet ==> r == p.excel(data)
    ensures FormatOf(Extension(filename)) == Csv ==> r == p.csv(data)
    ensures FormatOf(Extension(filename)) == Docx ==>
              r == match p.docx(data)
                   case Ok(paragraphs) => Ok(Join(paragraphs, "\n"))
                   case Err(e) => Err(e)
  {
    match FormatOf(Extension(filename))
    case Pdf => p.pdf(data)
    case Html => p.html(data)
    case Spreadsheet => p.excel(data)
    case Csv => p.csv(data)
    case Docx =>
      (match p.docx(data)
       case Ok(paragraphs) => Ok(Join(paragraphs, "\n"))
       case Err(e) => Err(e))
    case Unknown => Ok("")
  }

  /** The seven keys with a parser; every other key gives the empty text. */
  lemma KnownKeys(key: string)
    ensures FormatOf(key) != Unknown <==>
              key in ["pdf", "htm", "html", "xls", "xlsx", "csv", "docx"]
  {
  }

  /** Two names with the same extension are read the same way. */
  lemma DispatchByExtensionOnly(p: Parsers, data: Bytes, f: string, g: string)
    requires Extension(f) == Extension(g)
    ensures ExtractText(p, data, f) == ExtractText(p, data, g)
  {
  }

  /** The extension of `stem.ext` is `ext` lowered, whatever the stem holds (dots included). */
  lemma {:induction false} ExtensionOfDotted(stem: string, ext: string)
    requires '.' !in ext
    ensures Extension(stem + "." + ext) == Lower(ext)
  {
    var f := stem + "." + ext;
    var low := Lower(f);
    assert low[|stem|] == '.';
    forall k | |stem| < k < |low| ensures low[k] != '.' {
      assert low[k] == LowerChar(ext[k - |stem| - 1]);
      assert ext[k - |stem| - 1] in ext;
    }
    match LastIndexOf(low, '.')
    case Some(i) =>
      assert i == |stem|;
      assert low[i + 1..] == Lower(ext);
    case None =>
      assert false;
  }

  lemma LowerTwice(s: string)
    ensures Lower(Lower(s)) == Lower(s)
  {
  }

  /** Upper- and lower-case names are read the same way. */
  lemma DispatchIgnoresCase(p: Parsers, data: Bytes, f: string)
    ensures ExtractText(p, data, f) == ExtractText(p, data, Lower(f))
  {
    LowerTwice(f);
  }
}
