/**
 * The event page that owns the roster: it loads a file into the roster,
 * removes, edits and appends participants, and checks the preconditions of
 * certificate generation. Every roster change is refused when the route has
 * no event id.
 */
module MainPage {
  import opened Wrappers
  import opened Text
  import opened Roster
  import opened Ingest

  /** `parseFile` of the page: the roster read from the file, or the error shown in a toast. */
  function ParseUpload(u: Upload, parseInt: IntParser): (r: Result<seq<Participant>, ParseError>)
    ensures r == Failure(UnsupportedFormat) <==> FormatOf(u.name) == OtherFile
    ensures FormatOf(u.name) == CsvFile ==> r == ParseCsvSpec(u.text, parseInt)
    ensures FormatOf(u.name) == SheetFile ==> r == ParseSheetSpec(u.sheet, parseInt)
  {
    match FormatOf(u.name)
      case CsvFile => ParseCsvSpec(u.text, parseInt)
      case SheetFile => ParseSheetSpec(u.sheet, parseInt)
      case OtherFile => Failure(UnsupportedFormat)
  }

  /** The page's roster state. */
  class Page {
    /** The `eventId` route parameter; the empty string stands for a missing one (both are falsy). */
    var eventId: string
    var participants: seq<Participant>
    var showAddForm: bool

    constructor(eventId: string)
      ensures this.eventId == eventId && participants == [] && !showAddForm
    {
      this.eventId := eventId;
      participants := [];
      showAddForm := false;
    }

    /** `handleFileParsed`: the parsed roster replaces the whole roster. */
    method HandleFileParsed(parsed: seq<Participant>)
      modifies this
      ensures eventId == old(eventId) && showAddForm == old(showAddForm)
      ensures participants == if eventId == "" then old(participants) else parsed
    {
      if eventId == "" {
        return;
      }
      participants := parsed;
    }

    /** `parseFile`: parse, and hand the roster on only when no error was thrown. */
    method ParseFile(u: Upload, parseInt: IntParser) returns (outcome: Result<seq<Participant>, ParseError>)
      modifies this
      ensures outcome == ParseUpload(u, parseInt)
      ensures eventId == old(eventId) && showAddForm == old(showAddForm)
      ensures participants == if outcome.Success? && eventId != "" then outcome.value else old(participants)
    {
      match FormatOf(u.name) {
        case CsvFile =>
          outcome := ParseCsv(u.text, parseInt);
        case SheetFile =>
          outcome := ParseSheet(u.sheet, parseInt);
        case OtherFile =>
          outcome := Failure(UnsupportedFormat);
      }
      if outcome.Success? {
        HandleFileParsed(outcome.value);
      }
    }

    /** `handleRemoveParticipant`. */
    method RemoveParticipant(index: int)
      modifies this
      ensures eventId == old(eventId) && showAddForm == old(showAddForm)
      ensures participants == if eventId == "" then old(participants) else RemoveAt(old(participants), index)
    {
      if eventId == "" {
        return;
      }
      participants := RemoveAt(participants, index);
    }

    /** `handleUpdateParticipant`. */
    method UpdateParticipant(index: int, updated: Participant)
      modifies this
      ensures eventId == old(eventId) && showAddForm == old(showAddForm)
      ensures participants == if eventId == "" then old(participants) else UpdateAt(old(participants), index, updated)
    {
      if eventId == "" {
        return;
      }
      participants := UpdateAt(participants, index, updated);
    }

    /** `handleRemoveMultipleParticipants`. */
    method RemoveMultipleParticipants(indices: seq<int>)
      modifies this
      ensures eventId == old(eventId) && showAddForm == old(showAddForm)
      ensures participants == if eventId == "" then old(participants) else RemoveMany(old(participants), indices)
    {
      if eventId == "" {
        return;
      }
      participants := RemoveMany(participants, indices);
    }

    /** The `onAdd` callback of the add form: append, then close the form. */
    method AddParticipant(p: Participant)
      modifies this
      ensures eventId == old(eventId)
      ensures eventId == "" ==> participants == old(participants) && showAddForm == old(showAddForm)
      ensures eventId != "" ==> participants == Append(old(participants), p) && !showAddForm
    {
      if eventId == "" {
        return;
      }
      participants := Append(participants, p);
      showAddForm := false;
    }
  }

  /** The add form's initial and reset value. */
  const EmptyForm: Participant := Participant("", "", DefaultRole, Absent)

  /** A form the add form submits: name and e-mail both non-blank. */
  predicate Submittable(form: Participant) {
    TrimJs(form.fio) != "" && TrimJs(form.email) != ""
  }

  /** `AddParticipantForm`: the form's state. */
  class AddForm {
    var formData: Participant

    constructor()
      ensures formData == EmptyForm
    {
      formData := EmptyForm;
    }

    /**
     * `handleSubmit`: refuse when the trimmed name or e-mail is empty;
     * otherwise hand the untrimmed form to `onAdd` and reset the form.
     */
    method HandleSubmit() returns (added: Option<Participant>)
      modifies this
      ensures !Submittable(old(formData)) ==> added == None && formData == old(formData)
      ensures Submittable(old(formData)) ==> added == Some(old(formData)) && formData == EmptyForm
    {
      if TrimJs(formData.fio) == "" || TrimJs(formData.email) == "" {
        return None;
      }
      added := Some(formData);
      formData := EmptyForm;
    }
  }

  /** The request `handleGenerate` sends. */
  datatype GenerateRequest = GenerateRequest(
    templateId: string,
    participants: seq<Participant>,
    eventName: string,
    issueDate: string,
    sendEmail: bool,
    emailSubject: Option<string>,
    emailBody: Option<string>)

  /** Why `handleGenerate` stops before sending, in the order it checks. */
  datatype GenerateRefusal = NoTemplate | NoParticipants | NoEventLoaded

  /**
   * `handleGenerate` up to the request: a template must be selected, the
   * roster must be non-empty and the event must be loaded; the e-mail
   * subject and body go only when e-mail is on.
   */
  function Generate(selectedTemplate: string, participants: seq<Participant>, eventName: Option<string>,
                    issueDate: string, sendEmail: bool, subject: string, body: string): (r: Result<GenerateRequest, GenerateRefusal>)
    ensures r == Failure(NoTemplate) <==> selectedTemplate == ""
    ensures r == Failure(NoParticipants) <==> selectedTemplate != "" && participants == []
    ensures r == Failure(NoEventLoaded) <==> selectedTemplate != "" && participants != [] && eventName == None
    ensures r.Success? <==> selectedTemplate != "" && participants != [] && eventName.Some?
    ensures r.Success? ==>
      r.value.participants == participants && r.value.templateId == selectedTemplate &&
      r.value.eventName == eventName.value && r.value.issueDate == issueDate && r.value.sendEmail == sendEmail &&
      r.value.emailSubject == (if sendEmail then Some(subject) else None) &&
      r.value.emailBody == (if sendEmail then Some(body) else None)
  {
    if selectedTemplate == "" then Failure(NoTemplate)
    else if |participants| == 0 then Failure(NoParticipants)
    else if eventName.None? then Failure(NoEventLoaded)
    else Success(GenerateRequest(selectedTemplate, participants, eventName.value, issueDate, sendEmail,
                                 if sendEmail then Some(subject) else None,
                                 if sendEmail then Some(body) else None))
  }
}
