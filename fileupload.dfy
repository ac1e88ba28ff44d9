/**
 * The drop-zone upload widget. It runs the same parser as the main page, but
 * a file of any other extension is ignored: no error and no callback.
 */
module FileUpload {
  import opened Wrappers
  import opened Roster
  import opened Ingest
  import MainPage

  /** What one `parseFile` call of the widget ends in. */
  datatype UploadOutcome =
    | Parsed(records: seq<Participant>)  // `onFileParsed(records)` is called
    | Rejected(error: ParseError)        // an error toast; no callback
    | Ignored                            // neither branch is taken

  /** The widget's `parseFile`, as its outcome. */
  function Outcome(u: Upload, parseInt: IntParser): UploadOutcome {
    match FormatOf(u.name)
      case CsvFile => (match ParseCsvSpec(u.text, parseInt) case Success(ps) => Parsed(ps) case Failure(e) => Rejected(e))
      case SheetFile => (match ParseSheetSpec(u.sheet, parseInt) case Success(ps) => Parsed(ps) case Failure(e) => Rejected(e))
      case OtherFile => Ignored
  }

  /**
   * The widget and the main page read a file alike: the same roster, the same
   * errors; only a file of another extension differs, ignored here and
   * refused there.
   */
  lemma SameParserAsPage(u: Upload, parseInt: IntParser)
    ensures Outcome(u, parseInt) == Ignored <==> MainPage.ParseUpload(u, parseInt) == Failure(UnsupportedFormat)
    ensures forall ps :: Outcome(u, parseInt) == Parsed(ps) <==> MainPage.ParseUpload(u, parseInt) == Success(ps)
    ensures forall e :: e != UnsupportedFormat ==>
      (Outcome(u, parseInt) == Rejected(e) <==> MainPage.ParseUpload(u, parseInt) == Failure(e))
  {
  }

  /** The widget's state: the chosen file and the last roster it handed on. */
  class Widget {
    /** The chosen file's name, `null` before a drop and after removal. */
    var file: Option<string>
    var parsedData: seq<Participant>

    constructor()
      ensures file == None && parsedData == []
    {
      file := None;
      parsedData := [];
    }

    /** `parseFile`: on success `parsedData` is set to exactly the roster handed to `onFileParsed`. */
    method ParseFile(u: Upload, parseInt: IntParser) returns (notified: Option<seq<Participant>>)
      modifies this
      ensures file == old(file)
      ensures Outcome(u, parseInt).Parsed? ==> notified == Some(Outcome(u, parseInt).records) && parsedData == notified.value
      ensures !Outcome(u, parseInt).Parsed? ==> notified == None && parsedData == old(parsedData)
    {
      var result: Result<seq<Participant>, ParseError>;
      match FormatOf(u.name) {
        case CsvFile =>
          result := ParseCsv(u.text, parseInt);
        case SheetFile =>
          result := ParseSheet(u.sheet, parseInt);
        case OtherFile =>
          return None;
      }
      if result.Failure? {
        return None;
      }
      parsedData := result.value;
      notified := Some(result.value);
    }

    /** `onDrop`: the first accepted file becomes the chosen file and is parsed. */
    method OnDrop(accepted: seq<Upload>, parseInt: IntParser) returns (notified: Option<seq<Participant>>)
      modifies this
      ensures accepted == [] ==> file == old(file) && parsedData == old(parsedData) && notified == None
      ensures accepted != [] ==> file == Some(accepted[0].name)
      ensures accepted != [] && Outcome(accepted[0], parseInt).Parsed? ==>
        notified == Some(Outcome(accepted[0], parseInt).records) && parsedData == notified.value
      ensures accepted != [] && !Outcome(accepted[0], parseInt).Parsed? ==>
        notified == None && parsedData == old(parsedData)
    {
      if |accepted| == 0 {
        return None;
      }
      file := Some(accepted[0].name);
      notified := ParseFile(accepted[0], parseInt);
    }

    /** `removeFile`: forget the file, empty the roster and hand `[]` to the parent. */
    method RemoveFile() returns (notified: seq<Participant>)
      modifies this
      ensures file == None && parsedData == [] && notified == []
    {
      file := None;
      parsedData := [];
      notified := [];
    }
  }
}
