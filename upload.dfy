/**
 * The upload check of both front ends: a file is accepted when the
 * lower-cased text after the last '.' of its name (the whole name when it
 * has no '.') is csv, xlsx or xls, and that extension chooses between the
 * CSV reader and the Excel reader.
 */
module Upload {
  import opened Wrappers
  import opened StrOps

  /** The extensions a spreadsheet may have, in lower case. */
  const Allowed: set<string> := {"csv", "xlsx", "xls"}

  /** Why the Flask front end refuses an upload. */
  datatype UploadError =
    | FileMissing       // the request carries no file part
    | NoFileSelected    // the file part has an empty name
    | UnsupportedType   // the extension is not an allowed one

  /** Which pandas reader loads the sheet. */
  datatype SheetReader = CsvReader | ExcelReader

  /** r is the text after the last '.' of name, or all of name when it has no '.'. */
  predicate IsLastDotPiece(name: string, r: string) {
    |r| <= |name| && r == name[|name| - |r|..] && '.' !in r &&
    (|r| < |name| ==> name[|name| - |r| - 1] == '.')
  }

  /** name.rsplit('.', 1)[-1]. */
  function Extension(name: string): (ext: string)
    ensures IsLastDotPiece(name, ext)
  {
    if name == [] || name[|name| - 1] == '.' then []
    else
      var front := Extension(name[..|name| - 1]);
      assert name[..|name| - 1][|name| - 1 - |front|..] == name[|name| - 1 - |front|..|name| - 1];
      front + [name[|name| - 1]]
  }

  /** Only one text is the last dot-separated piece of a name. */
  lemma LastDotPieceUnique(name: string, r: string)
    requires IsLastDotPiece(name, r)
    ensures r == Extension(name)
  {
    var e := Extension(name);
  }

  /** A name that splits into several pieces holds a dot. */
  lemma SeveralPiecesHaveDot(t: string)
    requires |Split(t, '.')| > 1
    ensures '.' in t
  {
    SplitCount(t, '.');
    assert '.' in multiset(t);
  }

  /** A name that splits into one piece holds no dot. */
  lemma OnePieceNoDot(t: string)
    requires |Split(t, '.')| == 1
    ensures '.' !in t
  {
    SplitCount(t, '.');
    assert '.' !in multiset(t);
  }

  /** The last piece of t stays the last piece after a character is put in front, unless it was all of t and that character is not a dot. */
  lemma LastPieceExtend(c: char, t: string, last: string)
    requires IsLastDotPiece(t, last)
    requires |last| < |t| || c == '.'
    ensures IsLastDotPiece([c] + t, last)
  {
    var s := [c] + t;
    assert s[|s| - |last|..] == t[|t| - |last|..];
    if |last| < |t| {
      assert s[|s| - |last| - 1] == t[|t| - |last| - 1];
    }
  }

  /** The last of a split's pieces: a piece, so it holds no dot. */
  function LastPiece(s: string): (r: string)
    ensures '.' !in r
  {
    var parts := Split(s, '.');
    SplitSeparatorFree(s, '.');
    parts[|parts| - 1]
  }

  /** A leading dot leaves the last piece as it was. */
  lemma LastPieceLeadingDot(s: string)
    requires s != [] && s[0] == '.'
    requires IsLastDotPiece(s[1..], LastPiece(s[1..]))
    ensures IsLastDotPiece(s, LastPiece(s))
  {
    assert s == [s[0]] + s[1..];
    assert LastPiece(s) == LastPiece(s[1..]);
    LastPieceExtend(s[0], s[1..], LastPiece(s[1..]));
  }

  /** A leading character of a dot-free rest makes the whole text one piece. */
  lemma LastPieceSingle(s: string)
    requires s != [] && s[0] != '.' && |Split(s[1..], '.')| == 1
    ensures IsLastDotPiece(s, LastPiece(s))
  {
    var t := s[1..];
    OnePieceNoDot(t);
    SplitWithoutSep(t, '.');
    assert s == [s[0]] + t;
    assert LastPiece(s) == s;
    assert s[0..] == s;
  }

  /** A leading non-dot before several pieces only lengthens the first one. */
  lemma LastPieceSeveral(s: string)
    requires s != [] && s[0] != '.' && |Split(s[1..], '.')| > 1
    requires IsLastDotPiece(s[1..], LastPiece(s[1..]))
    ensures IsLastDotPiece(s, LastPiece(s))
  {
    var t := s[1..];
    assert s == [s[0]] + t;
    assert LastPiece(s) == LastPiece(t);
    SeveralPiecesHaveDot(t);
    LastPieceExtend(s[0], t, LastPiece(t));
  }

  /** The last piece of a split is the last dot-separated piece. */
  lemma {:induction false} SplitLastPiece(s: string)
    ensures IsLastDotPiece(s, LastPiece(s))
  {
    if s != [] {
      SplitLastPiece(s[1..]);
      if s[0] == '.' {
        LastPieceLeadingDot(s);
      } else if |Split(s[1..], '.')| == 1 {
        LastPieceSingle(s);
      } else {
        LastPieceSeveral(s);
      }
    }
  }

  /** name.split('.')[-1], the Streamlit form, is the same text as rsplit('.', 1)[-1]. */
  lemma SplitFormAgrees(name: string)
    ensures LastPiece(name) == Extension(name)
  {
    SplitLastPiece(name);
    LastDotPieceUnique(name, LastPiece(name));
  }

  /** The extension of stem.ext is ext, whatever dots the stem holds. */
  lemma ExtensionAfterDot(stem: string, ext: string)
    requires '.' !in ext
    ensures Extension(stem + "." + ext) == ext
  {
    var name := stem + "." + ext;
    assert name[|name| - |ext|..] == ext;
    assert name[|name| - |ext| - 1] == '.';
    LastDotPieceUnique(name, ext);
  }

  /** A name without a dot is its own extension. */
  lemma ExtensionWithoutDot(name: string)
    requires '.' !in name
    ensures Extension(name) == name
  {
    assert name[0..] == name;
    LastDotPieceUnique(name, name);
  }

  /** The extension test of upload_file, on the lower-cased extension: refused unless allowed, then csv or Excel. */
  function FlaskReader(ext: string): (r: Result<SheetReader, UploadError>)
    ensures r.Failure? ==> r.error == UnsupportedType
    ensures r == Success(CsvReader) <==> ext == "csv"
    ensures r == Success(ExcelReader) <==> ext == "xlsx" || ext == "xls"
  {
    if ext !in Allowed then Failure(UnsupportedType)
    else if ext == "csv" then Success(CsvReader)
    else Success(ExcelReader)
  }

  /** The Streamlit reader choice on the lower-cased extension: csv, then xlsx or xls, else unsupported. */
  function StreamlitReader(ext: string): (r: Option<SheetReader>)
    ensures r.Some? <==> ext in Allowed
    ensures r == Some(CsvReader) <==> ext == "csv"
  {
    if ext == "csv" then Some(CsvReader)
    else if ext in ["xlsx", "xls"] then Some(ExcelReader)
    else None
  }

  /** Both front ends accept the same extensions and choose the same reader for them. */
  lemma ReadersAgree(ext: string)
    ensures FlaskReader(ext).Success? <==> StreamlitReader(ext).Some?
    ensures StreamlitReader(ext).Some? ==> FlaskReader(ext).value == StreamlitReader(ext).value
    ensures FlaskReader(ext) == Success(CsvReader) <==> ext == "csv"
  {
    assert ext in Allowed <==> ext == "csv" || ext in ["xlsx", "xls"];
  }

  /**
   * upload_file's checks in order: a missing file part, then an empty name,
   * then the extension; an accepted file is read with the CSV reader when
   * its extension is csv and with the Excel reader otherwise.
   */
  function ValidateUpload(filename: Option<string>): (r: Result<SheetReader, UploadError>)
    ensures r == Failure(FileMissing) <==> filename.None?
    ensures r == Failure(NoFileSelected) <==> filename == Some("")
    ensures r.Success? <==> filename.Some? && filename.value != [] && LowerAscii(Extension(filename.value)) in Allowed
  {
    match filename
    case None => Failure(FileMissing)
    case Some(name) =>
      if name == "" then Failure(NoFileSelected)
      else FlaskReader(LowerAscii(Extension(name)))
  }

  /** The reader choice of the Streamlit page for an uploaded file's name. */
  function ReaderFor(name: string): (r: Option<SheetReader>)
    ensures r.Some? ==> name != []
  {
    StreamlitReader(LowerAscii(LastPiece(name)))
  }

  /** For a named file the two front ends accept the same files and choose the same reader. */
  lemma UploadFrontEndsAgree(name: string)
    requires name != []
    ensures ValidateUpload(Some(name)).Success? <==> ReaderFor(name).Some?
    ensures ReaderFor(name).Some? ==> ValidateUpload(Some(name)).value == ReaderFor(name).value
  {
    SplitFormAgrees(name);
    ReadersAgree(LowerAscii(Extension(name)));
  }

  /** The extension test ignores case: STEM.CSV is read as CSV. */
  lemma UpperCaseAccepted(stem: string)
    ensures ValidateUpload(Some(stem + ".CSV")) == Success(CsvReader)
  {
    assert stem + ".CSV" == stem + "." + "CSV";
    ExtensionAfterDot(stem, "CSV");
    LowerCsv("CSV");
    ReadersAgree("csv");
  }

  /** csv in either case lowers to csv. */
  lemma LowerCsv(s: string)
    requires s == "csv" || s == "CSV"
    ensures LowerAscii(s) == "csv"
  {
    var e := LowerAscii(s);
    assert e[0] == 'c' && e[1] == 's' && e[2] == 'v';
  }

  /** A file called just csv has no dot, so its whole name is taken as the extension and it is accepted. */
  lemma DotlessNameAccepted()
    ensures ValidateUpload(Some("csv")) == Success(CsvReader)
  {
    ExtensionWithoutDot("csv");
    LowerCsv("csv");
    ReadersAgree("csv");
  }

  /** A name ending in a dot has an empty extension and is refused. */
  lemma TrailingDotRefused(stem: string)
    ensures ValidateUpload(Some(stem + ".")) == Failure(UnsupportedType)
  {
    ExtensionAfterDot(stem, "");
    assert stem + "." + "" == stem + ".";
  }
}
