/**
 * Roster ingestion: the `parseFile` routine the main page and the upload
 * widget share. A `.csv` file is read as text, split into lines and commas;
 * a spreadsheet is read as the rows of its first sheet, with the columns
 * found by looking for words in the header row.
 */
module Ingest {
  import opened Wrappers
  import opened Text
  import opened Roster

  /** `parseInt` as the page uses it: `None` is `NaN`. */
  type IntParser = string -> Option<int>

  /** Why a file yields no roster. */
  datatype ParseError =
    | NoHeaderLine       // every line is blank, so reading `lines[0]` throws
    | TooFewRows         // the sheet has no row below the header
    | MissingColumns     // no header names the name or the e-mail column
    | HeaderHole         // a column scan meets an empty header cell and throws
    | UnsupportedFormat  // the name ends in none of .csv, .xlsx, .xls

  /** `cell ? parseInt(cell) : undefined`. */
  function PlaceOf(cell: string, parseInt: IntParser): (r: Place)
    ensures r == Absent <==> cell == ""
    ensures r.Num? ==> parseInt(cell) == Some(r.n)
    ensures r == NotANumber <==> cell != "" && parseInt(cell) == None
  {
    if cell == "" then Absent
    else match parseInt(cell)
      case Some(n) => Num(n)
      case None => NotANumber
  }

  /**
   * The loop that reads the records after the header and pushes the ones
   * `read` accepts into `participants`, in order.
   */
  function Collect<A>(xs: seq<A>, read: A -> Option<Participant>): (r: seq<Participant>)
    ensures |r| <= |xs|
  {
    if xs == [] then []
    else
      var n := |xs| - 1;
      Collect(xs[..n], read) + match read(xs[n]) case Some(p) => [p] case None => []
  }

  /** Reading one more input appends its record, if any. */
  lemma CollectSnoc<A>(xs: seq<A>, x: A, read: A -> Option<Participant>)
    ensures Collect(xs + [x], read) == Collect(xs, read) + match read(x) case Some(p) => [p] case None => []
  {
    assert (xs + [x])[..|xs|] == xs;
  }

  /**
   * `for (let i = from; i < xs.length; i++)`, pushing each record `read`
   * accepts: the loop both branches of `parseFile` run after the header.
   */
  method CollectFrom<A>(xs: seq<A>, from: nat, read: A -> Option<Participant>) returns (participants: seq<Participant>)
    requires from <= |xs|
    ensures participants == Collect(xs[from..], read)
  {
    participants := [];
    var i := from;
    while i < |xs|
      invariant from <= i <= |xs|
      invariant participants == Collect(xs[from..i], read)
    {
      var record := read(xs[i]);
      if record.Some? {
        participants := participants + [record.value];
      }
      CollectSnoc(xs[from..i], xs[i], read);
      assert xs[from..i] + [xs[i]] == xs[from..i + 1];
      i := i + 1;
    }
    assert xs[from..i] == xs[from..];
  }

  /** When `read` accepts every input, the records are exactly what it reads, one per input. */
  lemma {:induction false} CollectAll<A>(xs: seq<A>, read: A -> Option<Participant>, ps: seq<Participant>)
    requires |xs| == |ps| && forall i :: 0 <= i < |xs| ==> read(xs[i]) == Some(ps[i])
    ensures Collect(xs, read) == ps
  {
    if xs != [] {
      var n := |xs| - 1;
      CollectAll(xs[..n], read, ps[..n]);
      assert ps[..n] + [ps[n]] == ps;
    }
  }

  /** Whether `read` accepts each input. */
  function Accepted<A>(xs: seq<A>, read: A -> Option<Participant>): (r: seq<bool>)
    ensures |r| == |xs| && forall i :: 0 <= i < |xs| ==> r[i] == read(xs[i]).Some?
  {
    seq(|xs|, i requires 0 <= i < |xs| => read(xs[i]).Some?)
  }

  /** The records collected are exactly those read from the accepted inputs, in input order. */
  lemma {:induction false} CollectKept<A>(xs: seq<A>, read: A -> Option<Participant>)
    ensures ReadAt(Collect(xs, read), xs, KeptIndices(Accepted(xs, read)), read)
  {
    if xs != [] {
      var n := |xs| - 1;
      var prefix := xs[..n];
      CollectKept(prefix, read);
      var flags := Accepted(xs, read);
      assert flags[..n] == Accepted(prefix, read);
      var ks0, got0 := KeptIndices(flags[..n]), Collect(prefix, read);
      var ks, got := KeptIndices(flags), Collect(xs, read);
      assert ks == ks0 + if flags[n] then [n] else [];
      assert got == got0 + match read(xs[n]) case Some(p) => [p] case None => [];
      forall j | 0 <= j < |ks|
        ensures read(xs[ks[j]]) == Some(got[j])
      {
        if j < |ks0| {
          assert ks[j] == ks0[j] && got[j] == got0[j] && prefix[ks0[j]] == xs[ks0[j]];
        }
      }
    }
  }

  /** `got` holds, in order, the records `read` gives for the inputs at positions `ks`. */
  ghost predicate ReadAt<A>(got: seq<Participant>, xs: seq<A>, ks: seq<int>, read: A -> Option<Participant>) {
    |got| == |ks| && forall j :: 0 <= j < |ks| ==> 0 <= ks[j] < |xs| && read(xs[ks[j]]) == Some(got[j])
  }

  // ---------------------------------------------------------------- CSV

  /** A line whose trim is empty; `filter((line) => line.trim())` drops it. */
  predicate Blank(line: string) {
    TrimJs(line) == ""
  }

  /** `text.split('\n').filter((line) => line.trim())`. */
  function NonBlankLines(lines: seq<string>): seq<string> {
    if lines == [] then []
    else (if Blank(lines[0]) then [] else [lines[0]]) + NonBlankLines(lines[1..])
  }

  /** The filter keeps exactly the non-blank lines. */
  lemma {:induction false} NonBlankLinesIff(lines: seq<string>)
    ensures forall l :: l in NonBlankLines(lines) <==> l in lines && !Blank(l)
  {
    if lines != [] {
      NonBlankLinesIff(lines[1..]);
      assert forall l :: l in lines <==> l == lines[0] || l in lines[1..];
    }
  }

  /** `line.split(',').map((v) => v.trim())`. */
  function Cells(line: string): (r: seq<string>)
    ensures |r| == |Split(line, ',')| >= 1
  {
    var pieces := Split(line, ',');
    seq(|pieces|, i requires 0 <= i < |pieces| => TrimJs(pieces[i]))
  }

  /**
   * One data line: a record when it has at least two cells, with cell 0 as
   * the name, cell 1 as the e-mail, cell 2 as the role unless it is empty,
   * and cell 3, when non-empty, as the place.
   */
  function CsvRecord(line: string, parseInt: IntParser): Option<Participant> {
    var v := Cells(line);
    if |v| >= 2 then
      Some(Participant(
        v[0],
        v[1],
        if |v| > 2 && v[2] != "" then v[2] else DefaultRole,
        if |v| > 3 then PlaceOf(v[3], parseInt) else Absent))
    else None
  }

  /** The reader of data lines handed to `Collect`. */
  function CsvReader(parseInt: IntParser): string -> Option<Participant> {
    line => CsvRecord(line, parseInt)
  }

  /** The CSV branch of `parseFile`, as the value it hands to `handleFileParsed` or the error it throws. */
  function ParseCsvSpec(text: string, parseInt: IntParser): (r: Result<seq<Participant>, ParseError>)
    ensures r.Failure? ==> r.error == NoHeaderLine
  {
    var lines := NonBlankLines(Split(text, '\n'));
    if lines == [] then Failure(NoHeaderLine)
    else Success(Collect(lines[1..], CsvReader(parseInt)))
  }

  /** The CSV branch as the page runs it: a loop over the lines after the header. */
  method ParseCsv(text: string, parseInt: IntParser) returns (r: Result<seq<Participant>, ParseError>)
    ensures r == ParseCsvSpec(text, parseInt)
  {
    var lines := NonBlankLines(Split(text, '\n'));
    if |lines| == 0 {
      return Failure(NoHeaderLine);
    }
    var participants := CollectFrom(lines, 1, CsvReader(parseInt));
    return Success(participants);
  }

  /** A data line yields a record exactly when it holds a comma. */
  lemma CsvRecordIff(line: string, parseInt: IntParser)
    ensures CsvRecord(line, parseInt).Some? <==> ',' in line
  {
    SplitTwoPiecesIff(line, ',');
  }

  /** Every cell is trimmed. */
  lemma CellsTrimmed(line: string)
    ensures forall i :: 0 <= i < |Cells(line)| ==> TrimJs(Cells(line)[i]) == Cells(line)[i]
  {
    var pieces := Split(line, ',');
    forall i | 0 <= i < |pieces|
      ensures TrimJs(TrimJs(pieces[i])) == TrimJs(pieces[i])
    {
      TrimIdempotent(pieces[i], IsJsSpace);
    }
  }

  /**
   * A record's fields: name and e-mail are the first two cells, trimmed and
   * possibly empty; the role is never empty and is the default exactly when
   * the third cell is missing or empty; the place is absent exactly when the
   * fourth cell is missing or empty.
   */
  lemma CsvRecordFields(line: string, parseInt: IntParser)
    requires CsvRecord(line, parseInt).Some?
    ensures var p, v := CsvRecord(line, parseInt).value, Cells(line);
      p.fio == v[0] && p.email == v[1] && TrimJs(p.fio) == p.fio && TrimJs(p.email) == p.email &&
      p.role != "" && (p.role == DefaultRole <==> |v| <= 2 || v[2] == "" || v[2] == DefaultRole) &&
      (p.place == Absent <==> |v| <= 3 || v[3] == "")
  {
    CellsTrimmed(line);
  }

  /** An empty name is not refused: a line that is a comma and an e-mail is a record with name "". */
  lemma CsvEmptyNameAccepted(email: string, parseInt: IntParser)
    requires ',' !in email && TrimJs(email) == email
    ensures CsvRecord([','] + email, parseInt) == Some(Participant("", email, DefaultRole, Absent))
  {
    SplitAfterPiece([], email, ',');
    SplitNoSeparator(email, ',');
    assert [] + [','] + email == [','] + email;
    TrimOfTrimmed([], IsJsSpace);
  }

  /** Whether each line holds a comma. */
  function HasComma(lines: seq<string>): (r: seq<bool>)
    ensures |r| == |lines| && forall i :: 0 <= i < |lines| ==> r[i] == (',' in lines[i])
  {
    seq(|lines|, i requires 0 <= i < |lines| => ',' in lines[i])
  }

  /** The collected records are those of the data lines holding a comma, in file order. */
  lemma CsvRecordsKept(lines: seq<string>, parseInt: IntParser)
    ensures var ks, got := KeptIndices(HasComma(lines)), Collect(lines, CsvReader(parseInt));
      |got| == |ks| && forall j :: 0 <= j < |ks| ==> got[j] == CsvRecord(lines[ks[j]], parseInt).value
  {
    var read := CsvReader(parseInt);
    forall i | 0 <= i < |lines|
      ensures read(lines[i]).Some? <==> ',' in lines[i]
    {
      CsvRecordIff(lines[i], parseInt);
    }
    CollectKept(lines, read);
    assert Accepted(lines, read) == HasComma(lines);
  }

  /** Each character of `s` satisfies `ws`. */
  predicate AllOf(s: string, ws: char -> bool) {
    forall k :: 0 <= k < |s| ==> ws(s[k])
  }

  /** The pieces are all blank exactly when the text they join is. */
  lemma {:induction false} JoinAllSpace(parts: seq<string>)
    requires |parts| >= 1
    ensures AllOf(Join(parts, '\n'), IsJsSpace) <==> forall i :: 0 <= i < |parts| ==> AllOf(parts[i], IsJsSpace)
  {
    if |parts| > 1 {
      JoinAllSpace(parts[1..]);
      var rest := Join(parts[1..], '\n');
      var whole := parts[0] + ['\n'] + rest;
      assert forall k :: 0 <= k < |parts[0]| ==> whole[k] == parts[0][k];
      assert forall k :: 0 <= k < |rest| ==> whole[|parts[0]| + 1 + k] == rest[k];
      assert forall i :: 1 <= i < |parts| ==> parts[i] == parts[1..][i - 1];
    }
  }

  /** Blank-line filtering leaves nothing exactly when every line is blank. */
  lemma {:induction false} NonBlankEmptyIff(lines: seq<string>)
    ensures NonBlankLines(lines) == [] <==> forall i :: 0 <= i < |lines| ==> AllOf(lines[i], IsJsSpace)
  {
    if lines != [] {
      NonBlankEmptyIff(lines[1..]);
      TrimEmptyIff(lines[0], IsJsSpace);
      assert forall i :: 1 <= i < |lines| ==> lines[i] == lines[1..][i - 1];
    }
  }

  /** The CSV branch throws exactly when the text is all whitespace (line breaks included). */
  lemma CsvFailsIffBlank(text: string, parseInt: IntParser)
    ensures ParseCsvSpec(text, parseInt).Failure? <==> AllOf(text, IsJsSpace)
  {
    var pieces := Split(text, '\n');
    NonBlankEmptyIff(pieces);
    JoinAllSpace(pieces);
  }

  /** The header line is never read: any two non-blank headers give the same result. */
  lemma CsvHeaderIgnored(h1: string, h2: string, body: string, parseInt: IntParser)
    requires '\n' !in h1 && '\n' !in h2 && !Blank(h1) && !Blank(h2)
    ensures ParseCsvSpec(h1 + ['\n'] + body, parseInt) == ParseCsvSpec(h2 + ['\n'] + body, parseInt)
    ensures ParseCsvSpec(h1 + ['\n'] + body, parseInt) ==
      Success(Collect(NonBlankLines(Split(body, '\n')), CsvReader(parseInt)))
  {
    SplitAfterPiece(h1, body, '\n');
    SplitAfterPiece(h2, body, '\n');
    assert ([h1] + Split(body, '\n'))[1..] == Split(body, '\n');
    assert ([h2] + Split(body, '\n'))[1..] == Split(body, '\n');
  }

  // ------------------------------------------------ the downloadable example

  /**
   * `row.map(cell => `"${cell}"`).join(',')`: a line of the example file the
   * page offers for download, with every cell in double quotes.
   */
  function QuotedLine(cells: seq<string>): string
    requires |cells| >= 1
  {
    Join(seq(|cells|, i requires 0 <= i < |cells| => ['"'] + cells[i] + ['"']), ',')
  }

  /**
   * The comma splitter does not undo the quoting: a quoted line of the example
   * reads back with the quote marks inside the name, e-mail and role.
   */
  lemma QuotedLineKeepsQuotes(f: string, e: string, role: string, place: string, parseInt: IntParser)
    requires ',' !in f && ',' !in e && ',' !in role && ',' !in place
    ensures var r := CsvRecord(QuotedLine([f, e, role, place]), parseInt);
      r.Some? && r.value.fio == ['"'] + f + ['"'] && r.value.email == ['"'] + e + ['"'] &&
      r.value.role == ['"'] + role + ['"'] && r.value.fio != f
  {
    var cells := [f, e, role, place];
    var quoted := seq(|cells|, i requires 0 <= i < |cells| => ['"'] + cells[i] + ['"']);
    forall i | 0 <= i < |quoted|
      ensures ',' !in quoted[i] && TrimJs(quoted[i]) == quoted[i]
    {
      TrimOfTrimmed(quoted[i], IsJsSpace);
    }
    SplitJoin(quoted, ',');
    assert |['"'] + f + ['"']| != |f|;
  }

  /** The unquoted text of a place: its digits, or nothing when there is none. */
  function PlaceText(place: Place): string {
    match place
      case Num(n) => if n >= 0 then NatToDecimal(n) else "-" + NatToDecimal(-n)
      case _ => ""
  }

  /** One participant as an unquoted data line. */
  function PlainLine(p: Participant): string {
    Join([p.fio, p.email, p.role, PlaceText(p.place)], ',')
  }

  /** The data lines of a roster, one per participant. */
  function PlainLines(ps: seq<Participant>): (r: seq<string>)
    ensures |r| == |ps| && forall i :: 0 <= i < |ps| ==> r[i] == PlainLine(ps[i])
  {
    seq(|ps|, i requires 0 <= i < |ps| => PlainLine(ps[i]))
  }

  /** The header of the unquoted file. */
  const PlainHeader: string := "fio,email,role,place"

  /** A whole roster as an unquoted CSV file. */
  function PlainCsv(ps: seq<Participant>): string {
    Join([PlainHeader] + PlainLines(ps), '\n')
  }

  /** A field that a CSV line can carry unquoted and read back unchanged. */
  predicate PlainField(s: string) {
    ',' !in s && '\n' !in s && TrimJs(s) == s
  }

  /** A participant the unquoted file carries faithfully: plain fields, a role, a non-negative place or none. */
  predicate Writable(p: Participant) {
    PlainField(p.fio) && PlainField(p.email) && PlainField(p.role) && p.role != "" &&
    (p.place == Absent || (p.place.Num? && p.place.n >= 0))
  }

  /** A `parseInt` that reads every decimal numeral back as its value. */
  ghost predicate ReadsNumerals(parseInt: IntParser) {
    forall n: nat :: parseInt(NatToDecimal(n)) == Some(n)
  }

  /** The text of a writable place is a plain field that reads back as the place. */
  lemma PlaceTextReadsBack(place: Place, parseInt: IntParser)
    requires place == Absent || (place.Num? && place.n >= 0)
    requires ReadsNumerals(parseInt)
    ensures PlainField(PlaceText(place)) && PlaceOf(PlaceText(place), parseInt) == place
  {
    if place.Num? {
      var d := NatToDecimal(place.n);
      TrimOfTrimmed(d, IsJsSpace);
    }
  }

  /** Splitting and trimming comma-joined plain fields gives the fields back. */
  lemma CellsOfJoin(parts: seq<string>)
    requires |parts| >= 1
    requires forall i :: 0 <= i < |parts| ==> PlainField(parts[i])
    ensures Cells(Join(parts, ',')) == parts
    ensures '\n' !in Join(parts, ',')
  {
    SplitJoin(parts, ',');
    JoinNoNewline(parts);
  }

  /** The four fields of a line, when plain, read back from it. */
  lemma CellsOfFour(a: string, b: string, c: string, d: string)
    requires PlainField(a) && PlainField(b) && PlainField(c) && PlainField(d)
    ensures Cells(Join([a, b, c, d], ',')) == [a, b, c, d]
    ensures '\n' !in Join([a, b, c, d], ',') && ',' in Join([a, b, c, d], ',')
  {
    var parts := [a, b, c, d];
    assert forall i :: 0 <= i < |parts| ==> parts[i] == a || parts[i] == b || parts[i] == c || parts[i] == d;
    CellsOfJoin(parts);
    JoinHasSeparator(parts, ',');
  }

  /** Joining pieces without line breaks with commas gives no line break. */
  lemma {:induction false} JoinNoNewline(parts: seq<string>)
    requires |parts| >= 1
    requires forall i :: 0 <= i < |parts| ==> '\n' !in parts[i]
    ensures '\n' !in Join(parts, ',')
  {
    if |parts| > 1 {
      JoinNoNewline(parts[1..]);
    }
  }

  /** Two or more joined pieces hold the separator. */
  lemma JoinHasSeparator(parts: seq<string>, sep: char)
    requires |parts| >= 2
    ensures sep in Join(parts, sep)
  {
    assert Join(parts, sep)[|parts[0]|] == sep;
  }

  /** A line of four cells, the third non-empty, reads as those cells. */
  lemma CsvRecordOfFour(line: string, a: string, b: string, c: string, d: string, parseInt: IntParser)
    requires Cells(line) == [a, b, c, d] && c != ""
    ensures CsvRecord(line, parseInt) == Some(Participant(a, b, c, PlaceOf(d, parseInt)))
  {
  }

  /** One unquoted line reads back as the participant it was written from. */
  lemma PlainLineRoundTrip(p: Participant, parseInt: IntParser)
    requires Writable(p) && ReadsNumerals(parseInt)
    ensures CsvRecord(PlainLine(p), parseInt) == Some(p)
    ensures '\n' !in PlainLine(p) && ',' in PlainLine(p)
  {
    var pt := PlaceText(p.place);
    PlaceTextReadsBack(p.place, parseInt);
    CellsOfFour(p.fio, p.email, p.role, pt);
    CsvRecordOfFour(PlainLine(p), p.fio, p.email, p.role, pt, parseInt);
  }

  /** Reading the unquoted lines of a roster gives the roster back. */
  lemma PlainLinesRoundTrip(ps: seq<Participant>, parseInt: IntParser)
    requires forall i :: 0 <= i < |ps| ==> Writable(ps[i])
    requires ReadsNumerals(parseInt)
    ensures Collect(PlainLines(ps), CsvReader(parseInt)) == ps
  {
    var lines, read := PlainLines(ps), CsvReader(parseInt);
    forall i | 0 <= i < |ps|
      ensures read(lines[i]) == Some(ps[i])
    {
      PlainLineRoundTrip(ps[i], parseInt);
    }
    CollectAll(lines, read, ps);
  }

  /** No data line of a writable roster holds a line break, and each holds a comma. */
  lemma PlainLinesShape(ps: seq<Participant>, parseInt: IntParser)
    requires forall i :: 0 <= i < |ps| ==> Writable(ps[i])
    requires ReadsNumerals(parseInt)
    ensures forall i :: 0 <= i < |ps| ==> '\n' !in PlainLines(ps)[i] && ',' in PlainLines(ps)[i]
  {
    forall i | 0 <= i < |ps|
      ensures '\n' !in PlainLine(ps[i]) && ',' in PlainLine(ps[i])
    {
      PlainLineRoundTrip(ps[i], parseInt);
    }
  }

  /** The header holds a comma and no line break. */
  lemma PlainHeaderShape()
    ensures '\n' !in PlainHeader && ',' in PlainHeader
  {
    assert PlainHeader[3] == ',';
  }

  /**
   * The unquoted file reads back as the roster it was written from, for
   * participants whose fields hold no comma or line break and no outer
   * whitespace, given a `parseInt` that reads decimal numerals.
   */
  lemma PlainCsvRoundTrip(ps: seq<Participant>, parseInt: IntParser)
    requires forall i :: 0 <= i < |ps| ==> Writable(ps[i])
    requires ReadsNumerals(parseInt)
    ensures ParseCsvSpec(PlainCsv(ps), parseInt) == Success(ps)
  {
    var all := [PlainHeader] + PlainLines(ps);
    PlainLinesShape(ps, parseInt);
    PlainHeaderShape();
    assert forall i :: 0 <= i < |all| ==> '\n' !in all[i] && ',' in all[i];
    SplitJoin(all, '\n');
    NonBlankKeepsComma(all);
    assert all[1..] == PlainLines(ps);
    PlainLinesRoundTrip(ps, parseInt);
  }

  /** Lines that each hold a comma are all kept by the blank-line filter. */
  lemma {:induction false} NonBlankKeepsComma(lines: seq<string>)
    requires forall i :: 0 <= i < |lines| ==> ',' in lines[i]
    ensures NonBlankLines(lines) == lines
  {
    if lines != [] {
      NonBlankKeepsComma(lines[1..]);
      CommaNotBlank(lines[0]);
    }
  }

  /** A line holding a comma is not blank. */
  lemma CommaNotBlank(line: string)
    requires ',' in line
    ensures !Blank(line)
  {
    TrimEmptyIff(line, IsJsSpace);
    var k :| 0 <= k < |line| && line[k] == ',';
    assert !IsJsSpace(line[k]);
  }

  // ------------------------------------------------------------ spreadsheet

  /** A cell of `sheet_to_json(ws, { header: 1 })`: `None` is an empty cell or a position past the row's end. */
  type Cell = Option<string>

  /** `row[i]`: undefined outside the row, including at `-1`. */
  function CellAt(row: seq<Cell>, i: int): Cell {
    if 0 <= i < |row| then row[i] else None
  }

  /** A cell JavaScript counts as true: present and not the empty string. */
  predicate Truthy(c: Cell) {
    c.Some? && c.value != ""
  }

  /** `String(h).toLowerCase().trim()` for a header cell that holds text. */
  function HeaderText(s: string): string {
    TrimJs(ToLower(s))
  }

  predicate IsFioHeader(h: string) {
    Contains(h, "фио") || Contains(h, "fio") || Contains(h, "имя")
  }

  predicate IsEmailHeader(h: string) {
    Contains(h, "email") || Contains(h, "почта") || Contains(h, "mail")
  }

  predicate IsRoleHeader(h: string) {
    Contains(h, "роль") || Contains(h, "role")
  }

  predicate IsPlaceHeader(h: string) {
    Contains(h, "место") || Contains(h, "place")
  }

  /**
   * The header row after `data[0].map(h => String(h).toLowerCase().trim())`:
   * `map` skips the holes that empty cells leave, so they stay holes (`None`).
   */
  function Headers(row: seq<Cell>): (r: seq<Option<string>>)
    ensures |r| == |row|
    ensures forall i :: 0 <= i < |row| ==> (r[i].None? <==> row[i].None?)
    ensures forall i :: 0 <= i < |row| && row[i].Some? ==> r[i] == Some(HeaderText(row[i].value))
  {
    seq(|row|, i requires 0 <= i < |row| => match row[i] case Some(s) => Some(HeaderText(s)) case None => None)
  }

  /** Every header before position `i` is present and does not match. */
  predicate NoMatchBefore(headers: seq<Option<string>>, matches: string -> bool, i: int)
    requires 0 <= i <= |headers|
  {
    forall k :: 0 <= k < i ==> headers[k].Some? && !matches(headers[k].value)
  }

  /** No header matches, and the row has no hole. */
  predicate NoneMatches(headers: seq<Option<string>>, matches: string -> bool) {
    NoMatchBefore(headers, matches, |headers|)
  }

  /** The scan meets a hole before any match: `h.includes` is then called on `undefined`. */
  predicate ScanThrows(headers: seq<Option<string>>, matches: string -> bool) {
    exists i :: 0 <= i < |headers| && headers[i].None? && NoMatchBefore(headers, matches, i)
  }

  /**
   * `headers.findIndex(matches)`: `findIndex` visits holes too, so the scan
   * throws (`None`) at a hole it meets before a match; otherwise it gives the
   * first matching position, or -1.
   */
  function FindIndex(headers: seq<Option<string>>, matches: string -> bool): (r: Option<int>)
    ensures r.Some? ==> -1 <= r.value < |headers|
  {
    if headers == [] then Some(-1)
    else if headers[0].None? then None
    else if matches(headers[0].value) then Some(0)
    else match FindIndex(headers[1..], matches)
      case None => None
      case Some(k) => if k == -1 then Some(-1) else Some(k + 1)
  }

  /**
   * The scan throws exactly when a hole comes before every match; it gives -1
   * exactly when every header is present and none matches; otherwise it gives
   * the first match.
   */
  lemma {:induction false} FindIndexSpec(headers: seq<Option<string>>, matches: string -> bool)
    ensures FindIndex(headers, matches).None? <==> ScanThrows(headers, matches)
    ensures FindIndex(headers, matches) == Some(-1) <==> NoneMatches(headers, matches)
    ensures FindFirst(FindIndex(headers, matches), headers, matches)
  {
    if headers == [] {
    } else if headers[0].None? {
      assert NoMatchBefore(headers, matches, 0);
      assert !NoneMatches(headers, matches);
    } else if matches(headers[0].value) {
      assert NoMatchBefore(headers, matches, 0);
      assert !NoneMatches(headers, matches);
      assert forall i :: 0 < i <= |headers| ==> !NoMatchBefore(headers, matches, i);
    } else {
      var tail := headers[1..];
      FindIndexSpec(tail, matches);
      forall i | 0 <= i <= |tail|
        ensures NoMatchBefore(headers, matches, i + 1) <==> NoMatchBefore(tail, matches, i)
      {
        ShiftNoMatch(headers, matches, i);
      }
      if ScanThrows(headers, matches) {
        var i :| 0 <= i < |headers| && headers[i].None? && NoMatchBefore(headers, matches, i);
        assert i > 0 && tail[i - 1].None?;
        assert NoMatchBefore(tail, matches, i - 1);
      }
      if ScanThrows(tail, matches) {
        var i :| 0 <= i < |tail| && tail[i].None? && NoMatchBefore(tail, matches, i);
        assert headers[i + 1].None? && NoMatchBefore(headers, matches, i + 1);
      }
      assert NoneMatches(headers, matches) <==> NoneMatches(tail, matches);
    }
  }

  /** A found position is present, matches, and has only present, unmatched headers before it. */
  predicate FindFirst(r: Option<int>, headers: seq<Option<string>>, matches: string -> bool) {
    r.Some? && r.value != -1 ==>
      0 <= r.value < |headers| && headers[r.value].Some? && matches(headers[r.value].value) &&
      NoMatchBefore(headers, matches, r.value)
  }

  /** Dropping a present, unmatched first header shifts the unmatched prefix by one. */
  lemma ShiftNoMatch(headers: seq<Option<string>>, matches: string -> bool, i: int)
    requires headers != [] && headers[0].Some? && !matches(headers[0].value)
    requires 0 <= i < |headers|
    ensures NoMatchBefore(headers, matches, i + 1) <==> NoMatchBefore(headers[1..], matches, i)
  {
    var tail := headers[1..];
    assert forall k :: 0 <= k < i ==> tail[k] == headers[k + 1];
    if NoMatchBefore(tail, matches, i) {
      forall k | 0 <= k < i + 1
        ensures headers[k].Some? && !matches(headers[k].value)
      {
        if k > 0 {
          assert headers[k] == tail[k - 1];
        }
      }
    }
  }

  /** The four column positions found in the header row; -1 when none matches. */
  datatype Columns = Columns(fio: int, email: int, role: int, place: int)

  /** One of the four scans meets a hole before its first match. */
  predicate AnyScanThrows(headers: seq<Option<string>>) {
    ScanThrows(headers, IsFioHeader) || ScanThrows(headers, IsEmailHeader) ||
    ScanThrows(headers, IsRoleHeader) || ScanThrows(headers, IsPlaceHeader)
  }

  /**
   * The four scans, in order name, e-mail, role, place; `None` when one of
   * them throws. Each field takes the first header that names it,
   * independently of the others.
   */
  function DetectColumns(row: seq<Cell>): (r: Option<Columns>)
    ensures r.None? <==> AnyScanThrows(Headers(row))
    ensures r.Some? ==>
      (r.value.fio == -1 <==> NoneMatches(Headers(row), IsFioHeader)) &&
      (r.value.email == -1 <==> NoneMatches(Headers(row), IsEmailHeader)) &&
      FindFirst(Some(r.value.fio), Headers(row), IsFioHeader) &&
      FindFirst(Some(r.value.email), Headers(row), IsEmailHeader) &&
      FindFirst(Some(r.value.role), Headers(row), IsRoleHeader) &&
      FindFirst(Some(r.value.place), Headers(row), IsPlaceHeader)
  {
    var hs := Headers(row);
    FindIndexSpec(hs, IsFioHeader);
    FindIndexSpec(hs, IsEmailHeader);
    FindIndexSpec(hs, IsRoleHeader);
    FindIndexSpec(hs, IsPlaceHeader);
    var fio, email := FindIndex(hs, IsFioHeader), FindIndex(hs, IsEmailHeader);
    var role, place := FindIndex(hs, IsRoleHeader), FindIndex(hs, IsPlaceHeader);
    if fio.None? || email.None? || role.None? || place.None? then None
    else Some(Columns(fio.value, email.value, role.value, place.value))
  }

  /**
   * One data row: a record when its name and e-mail cells are truthy, both
   * trimmed; the role cell as it is unless it is falsy; the place parsed
   * when its cell is truthy.
   */
  function SheetRecord(row: seq<Cell>, cols: Columns, parseInt: IntParser): Option<Participant> {
    var fio, email, role, place := CellAt(row, cols.fio), CellAt(row, cols.email),
                                   CellAt(row, cols.role), CellAt(row, cols.place);
    if Truthy(fio) && Truthy(email) then
      Some(Participant(
        TrimJs(fio.value),
        TrimJs(email.value),
        if Truthy(role) then role.value else DefaultRole,
        if Truthy(place) then PlaceOf(place.value, parseInt) else Absent))
    else None
  }

  /** The reader of data rows handed to `Collect`. */
  function SheetReader(cols: Columns, parseInt: IntParser): seq<Cell> -> Option<Participant> {
    row => SheetRecord(row, cols, parseInt)
  }

  /**
   * The spreadsheet branch of `parseFile`, as the value it hands on or the
   * error it throws: too few rows; a column scan that meets an empty header
   * cell (checked before the missing columns, because all four scans run
   * first); no name or no e-mail column.
   */
  function ParseSheetSpec(data: seq<seq<Cell>>, parseInt: IntParser): (r: Result<seq<Participant>, ParseError>)
    ensures r == Failure(TooFewRows) <==> |data| < 2
    ensures r == Failure(HeaderHole) <==> |data| >= 2 && AnyScanThrows(Headers(data[0]))
    ensures r == Failure(MissingColumns) <==>
      (|data| >= 2 && !AnyScanThrows(Headers(data[0])) &&
       (NoneMatches(Headers(data[0]), IsFioHeader) || NoneMatches(Headers(data[0]), IsEmailHeader)))
    ensures r.Success? ==> |r.value| <= |data| - 1
  {
    if |data| < 2 then Failure(TooFewRows)
    else match DetectColumns(data[0])
      case None => Failure(HeaderHole)
      case Some(cols) =>
        if cols.fio == -1 || cols.email == -1 then Failure(MissingColumns)
        else Success(Collect(data[1..], SheetReader(cols, parseInt)))
  }

  /**
   * An empty header cell between the name column and the e-mail column stops
   * the upload, whatever the rows below hold.
   */
  lemma HoleBeforeEmailThrows(name: string, email: string, rows: seq<seq<Cell>>, parseInt: IntParser)
    requires !IsEmailHeader(HeaderText(name)) && rows != []
    ensures ParseSheetSpec([[Some(name), None, Some(email)]] + rows, parseInt) == Failure(HeaderHole)
  {
    var data := [[Some(name), None, Some(email)]] + rows;
    var hs := Headers(data[0]);
    assert hs[0] == Some(HeaderText(name)) && hs[1].None?;
    assert NoMatchBefore(hs, IsEmailHeader, 1);
    assert ScanThrows(hs, IsEmailHeader);
  }

  /** The spreadsheet branch as the page runs it: a loop over the rows after the header. */
  method ParseSheet(data: seq<seq<Cell>>, parseInt: IntParser) returns (r: Result<seq<Participant>, ParseError>)
    ensures r == ParseSheetSpec(data, parseInt)
  {
    if |data| < 2 {
      return Failure(TooFewRows);
    }
    var detected := DetectColumns(data[0]);
    if detected.None? {
      return Failure(HeaderHole);
    }
    var cols := detected.value;
    if cols.fio == -1 || cols.email == -1 {
      return Failure(MissingColumns);
    }
    var participants := CollectFrom(data, 1, SheetReader(cols, parseInt));
    return Success(participants);
  }

  /** Whether each row has a truthy name cell and a truthy e-mail cell. */
  function HasNameAndEmail(rows: seq<seq<Cell>>, cols: Columns): (r: seq<bool>)
    ensures |r| == |rows|
    ensures forall i :: 0 <= i < |rows| ==>
      r[i] == (Truthy(CellAt(rows[i], cols.fio)) && Truthy(CellAt(rows[i], cols.email)))
  {
    seq(|rows|, i requires 0 <= i < |rows| => Truthy(CellAt(rows[i], cols.fio)) && Truthy(CellAt(rows[i], cols.email)))
  }

  /**
   * The collected records are those of the rows whose name and e-mail cells
   * are truthy, in sheet order.
   */
  lemma SheetRecordsKept(rows: seq<seq<Cell>>, cols: Columns, parseInt: IntParser)
    ensures var ks, got := KeptIndices(HasNameAndEmail(rows, cols)), Collect(rows, SheetReader(cols, parseInt));
      |got| == |ks| && forall j :: 0 <= j < |ks| ==> got[j] == SheetRecord(rows[ks[j]], cols, parseInt).value
  {
    var read := SheetReader(cols, parseInt);
    CollectKept(rows, read);
    assert Accepted(rows, read) == HasNameAndEmail(rows, cols);
  }

  /**
   * An accepted row's name and e-mail are its cells trimmed (a cell of spaces
   * is truthy and gives an empty name); the role is never empty; the place is
   * absent exactly when its column is missing or its cell is falsy.
   */
  lemma SheetRecordFields(row: seq<Cell>, cols: Columns, parseInt: IntParser)
    requires SheetRecord(row, cols, parseInt).Some?
    ensures var p := SheetRecord(row, cols, parseInt).value;
      p.fio == TrimJs(CellAt(row, cols.fio).value) && TrimJs(p.fio) == p.fio &&
      p.email == TrimJs(CellAt(row, cols.email).value) && TrimJs(p.email) == p.email &&
      p.role != "" && (p.place == Absent <==> !Truthy(CellAt(row, cols.place)))
  {
    TrimIdempotent(CellAt(row, cols.fio).value, IsJsSpace);
    TrimIdempotent(CellAt(row, cols.email).value, IsJsSpace);
  }

  // ------------------------------------------------------------ the file

  /**
   * A chosen file as it crosses the I/O boundary: its name, its text as
   * `file.text()` reads it, and the rows of its first sheet as
   * `sheet_to_json(ws, { header: 1 })` returns them.
   */
  datatype Upload = Upload(name: string, text: string, sheet: seq<seq<Cell>>)

  /** Which branch of `parseFile` a file name selects. */
  datatype Format = CsvFile | SheetFile | OtherFile

  /** `.csv` is tested first, then `.xlsx` or `.xls`; the test is case-sensitive. */
  function FormatOf(name: string): Format {
    if EndsWith(name, ".csv") then CsvFile
    else if EndsWith(name, ".xlsx") || EndsWith(name, ".xls") then SheetFile
    else OtherFile
  }
}
