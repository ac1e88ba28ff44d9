/**
 * Placeholder substitution on the server: the e-mail text of
 * `replace_email_placeholders` and the certificate template of
 * `generate_pdf_certificate`. Both walk a dictionary of placeholder -> value
 * in its insertion order and apply Python's `str.replace` for each entry in
 * turn, so the output of one step is the input of the next.
 */
module Placeholders {
  import opened Wrappers
  import opened Text

  /** The server's participant record: the place is an optional integer. */
  datatype Participant = Participant(fio: string, email: string, role: string, place: Option<int>)

  /** `str(place) if place else ''`: no text for a missing place or place 0. */
  function PlaceText(place: Option<int>): string {
    if place.Some? && place.value != 0 then IntToDecimal(place.value) else ""
  }

  /** `issue_date if issue_date else fallback`: the fallback for a missing or empty date. */
  function DateOr(issueDate: Option<string>, fallback: string): string {
    if issueDate.Some? && issueDate.value != "" then issueDate.value else fallback
  }

  /** Missing or zero places print as nothing; any other place prints as its decimal numeral. */
  lemma PlaceTextCases(n: int)
    ensures PlaceText(None) == "" && PlaceText(Some(0)) == ""
    ensures n != 0 ==> PlaceText(Some(n)) == IntToDecimal(n) && PlaceText(Some(n)) != ""
  {
  }

  // ------------------------------------------------------- the fold

  /**
   * Entries `lo..hi` of the dictionary applied in order:
   * `for placeholder, value in items: result = result.replace(placeholder, value)`.
   */
  function ApplyRange(text: string, keys: seq<string>, vals: seq<string>, lo: nat, hi: nat): string
    requires |keys| == |vals| && hi <= |keys|
    requires forall i :: 0 <= i < |keys| ==> |keys[i]| > 0
    decreases hi
  {
    if hi <= lo then text
    else ReplaceAll(ApplyRange(text, keys, vals, lo, hi - 1), keys[hi - 1], vals[hi - 1])
  }

  /** The whole dictionary applied in order. */
  function ApplyAll(text: string, keys: seq<string>, vals: seq<string>): string
    requires |keys| == |vals|
    requires forall i :: 0 <= i < |keys| ==> |keys[i]| > 0
  {
    ApplyRange(text, keys, vals, 0, |keys|)
  }

  /** The replacement loop, proved to compute the fold. */
  method ReplaceInOrder(text: string, keys: seq<string>, vals: seq<string>) returns (result: string)
    requires |keys| == |vals|
    requires forall i :: 0 <= i < |keys| ==> |keys[i]| > 0
    ensures result == ApplyAll(text, keys, vals)
  {
    result := text;
    for i := 0 to |keys|
      invariant result == ApplyRange(text, keys, vals, 0, i)
    {
      result := ReplaceAll(result, keys[i], vals[i]);
    }
  }

  /** Applying `lo..hi` is applying `lo..mid`, then `mid..hi` to the result. */
  lemma {:induction false} ApplySplit(text: string, keys: seq<string>, vals: seq<string>, lo: nat, mid: nat, hi: nat)
    requires |keys| == |vals| && lo <= mid <= hi <= |keys|
    requires forall i :: 0 <= i < |keys| ==> |keys[i]| > 0
    ensures ApplyRange(text, keys, vals, lo, hi) == ApplyRange(ApplyRange(text, keys, vals, lo, mid), keys, vals, mid, hi)
    decreases hi
  {
    if mid < hi {
      ApplySplit(text, keys, vals, lo, mid, hi - 1);
    }
  }

  /** A text in which none of the entries' placeholders occurs comes back unchanged. */
  lemma {:induction false} ApplyAbsent(text: string, keys: seq<string>, vals: seq<string>, lo: nat, hi: nat)
    requires |keys| == |vals| && hi <= |keys|
    requires forall i :: 0 <= i < |keys| ==> |keys[i]| > 0
    requires forall i :: lo <= i < hi ==> !Contains(text, keys[i])
    ensures ApplyRange(text, keys, vals, lo, hi) == text
    decreases hi
  {
    if lo < hi {
      ApplyAbsent(text, keys, vals, lo, hi - 1);
    }
  }

  /** A text without `{` comes back unchanged when every placeholder starts with `{`. */
  lemma NoBraceUnchanged(text: string, keys: seq<string>, vals: seq<string>, lo: nat, hi: nat)
    requires |keys| == |vals| && hi <= |keys|
    requires forall i :: 0 <= i < |keys| ==> |keys[i]| > 0 && keys[i][0] == '{'
    requires '{' !in text
    ensures ApplyRange(text, keys, vals, lo, hi) == text
  {
    forall i | lo <= i < hi
      ensures !Contains(text, keys[i])
    {
      NotContainsMissingChar(text, keys[i], '{');
    }
    ApplyAbsent(text, keys, vals, lo, hi);
  }

  /**
   * A text that is exactly the placeholder of entry `j`, run through entries
   * `lo..` with `lo <= j`, becomes entry `j`'s value: no earlier entry's
   * placeholder occurs in it, and the value, having no `{`, is left alone by
   * the later ones.
   */
  lemma PlaceholderBecomesValue(keys: seq<string>, vals: seq<string>, lo: nat, j: nat)
    requires |keys| == |vals| && lo <= j < |keys|
    requires forall i :: 0 <= i < |keys| ==> |keys[i]| > 0 && keys[i][0] == '{'
    requires forall i :: lo <= i < j ==> !Contains(keys[j], keys[i])
    requires '{' !in vals[j]
    ensures ApplyRange(keys[j], keys, vals, lo, |keys|) == vals[j]
  {
    ApplySplit(keys[j], keys, vals, lo, j, |keys|);
    ApplyAbsent(keys[j], keys, vals, lo, j);
    ApplySplit(keys[j], keys, vals, j, j + 1, |keys|);
    ReplaceWhole(keys[j], vals[j]);
    NoBraceUnchanged(vals[j], keys, vals, j + 1, |keys|);
  }

  // ----------------------------------------------------- placeholder shapes

  /** `{name}` with no brace inside. */
  predicate BraceToken(k: string) {
    |k| >= 2 && k[0] == '{' && k[|k| - 1] == '}' &&
    forall j :: 0 < j < |k| - 1 ==> k[j] != '{' && k[j] != '}'
  }

  /** `{{name}}` with no brace inside. */
  predicate DoubleBraceToken(k: string) {
    |k| >= 4 && k[0] == '{' && k[1] == '{' && k[|k| - 2] == '}' && k[|k| - 1] == '}' &&
    forall j :: 1 < j < |k| - 2 ==> k[j] != '{' && k[j] != '}'
  }

  /** One `{name}` occurs in another only when they are the same. */
  lemma BraceTokenContains(a: string, b: string)
    requires BraceToken(a) && BraceToken(b) && Contains(a, b)
    ensures a == b
  {
    ContainsIff(a, b);
    var i :| OccursAt(a, b, i);
    assert a[i..i + |b|][0] == b[0];
    assert i == 0;
    assert a[..|b|][|b| - 1] == b[|b| - 1];
  }

  /** One `{{name}}` occurs in another only when they are the same. */
  lemma DoubleBraceTokenContains(a: string, b: string)
    requires DoubleBraceToken(a) && DoubleBraceToken(b) && Contains(a, b)
    ensures a == b
  {
    ContainsIff(a, b);
    var i :| OccursAt(a, b, i);
    assert a[i..i + |b|][1] == b[1];
    assert i == 0;
    assert a[..|b|][|b| - 2] == b[|b| - 2];
  }

  // --------------------------------------------------------- the e-mail text

  /** The placeholders of `replace_email_placeholders`, in dictionary order. */
  const EmailKeys: seq<string> := [
    "{имя}", "{fio}", "{Имя}", "{ФИО}",
    "{email}", "{Email}",
    "{роль}", "{role}", "{Роль}",
    "{место}", "{place}", "{Место}",
    "{название мероприятия}", "{event_name}", "{название}", "{event}", "{Название мероприятия}",
    "{дата}", "{issue_date}", "{Дата}", "{date}"]

  /** Their values: name, e-mail, role, place text, event name, date text. */
  function EmailValues(p: Participant, eventName: string, issueDate: Option<string>): (r: seq<string>)
    ensures |r| == |EmailKeys|
  {
    var place, date := PlaceText(p.place), DateOr(issueDate, "");
    [p.fio, p.fio, p.fio, p.fio,
     p.email, p.email,
     p.role, p.role, p.role,
     place, place, place,
     eventName, eventName, eventName, eventName, eventName,
     date, date, date, date]
  }

  /** The e-mail placeholders are 21 `{name}` tokens. */
  lemma EmailKeysAreTokens()
    ensures |EmailKeys| == 21
    ensures forall i :: 0 <= i < |EmailKeys| ==> BraceToken(EmailKeys[i])
  {
    EmailKeysAreTokensLow();
    EmailKeysAreTokensHigh();
  }

  lemma EmailKeysAreTokensLow()
    ensures forall i :: 0 <= i < 11 ==> BraceToken(EmailKeys[i])
  {
  }

  lemma EmailKeysAreTokensHigh()
    ensures forall i :: 11 <= i < 21 ==> BraceToken(EmailKeys[i])
  {
  }

  /** No e-mail placeholder is listed twice. */
  lemma EmailKeysDistinct()
    ensures forall i, j :: 0 <= i < j < |EmailKeys| ==> EmailKeys[i] != EmailKeys[j]
  {
  }

  /** Distinct `{name}` tokens do not occur in one another. */
  lemma EmailKeysApart(i: int, j: int)
    requires 0 <= i < |EmailKeys| && 0 <= j < |EmailKeys| && i != j
    ensures !Contains(EmailKeys[j], EmailKeys[i])
  {
    EmailKeysAreTokens();
    EmailKeysDistinct();
    if Contains(EmailKeys[j], EmailKeys[i]) {
      BraceTokenContains(EmailKeys[j], EmailKeys[i]);
    }
  }

  /** `replace_email_placeholders(text, participant, event_name, issue_date)`. */
  method ReplaceEmailPlaceholders(text: string, p: Participant, eventName: string, issueDate: Option<string>)
    returns (result: string)
    ensures result == ApplyAll(text, EmailKeys, EmailValues(p, eventName, issueDate))
  {
    EmailKeysAreTokens();
    result := ReplaceInOrder(text, EmailKeys, EmailValues(p, eventName, issueDate));
  }

  /** None of the values the e-mail placeholders stand for holds a `{`. */
  predicate BraceFreeValues(p: Participant, eventName: string, issueDate: Option<string>) {
    '{' !in p.fio && '{' !in p.email && '{' !in p.role && '{' !in eventName && '{' !in DateOr(issueDate, "")
  }

  /** A numeral has no `{`. */
  lemma PlaceTextBraceFree(place: Option<int>)
    ensures '{' !in PlaceText(place)
  {
    if place.Some? && place.value != 0 {
      var s := NatToDecimal(if place.value < 0 then -place.value else place.value);
      assert forall i :: 0 <= i < |s| ==> s[i] != '{';
    }
  }

  /**
   * A text made of one e-mail placeholder becomes that placeholder's value
   * (the participant's name, e-mail, role, place text, the event name or the
   * date text), when none of the values holds a `{`.
   */
  lemma EmailPlaceholderValue(p: Participant, eventName: string, issueDate: Option<string>, j: nat)
    requires j < |EmailKeys| && BraceFreeValues(p, eventName, issueDate)
    ensures var vals := EmailValues(p, eventName, issueDate);
      ApplyAll(EmailKeys[j], EmailKeys, vals) == vals[j]
  {
    EmailKeysAreTokens();
    PlaceTextBraceFree(p.place);
    forall i | 0 <= i < j
      ensures !Contains(EmailKeys[j], EmailKeys[i])
    {
      EmailKeysApart(i, j);
    }
    PlaceholderBecomesValue(EmailKeys, EmailValues(p, eventName, issueDate), 0, j);
  }

  /** A text with no `{` is returned unchanged. */
  lemma EmailWithoutPlaceholders(text: string, p: Participant, eventName: string, issueDate: Option<string>)
    requires '{' !in text
    ensures ApplyAll(text, EmailKeys, EmailValues(p, eventName, issueDate)) == text
  {
    EmailKeysAreTokens();
    NoBraceUnchanged(text, EmailKeys, EmailValues(p, eventName, issueDate), 0, |EmailKeys|);
  }

  /**
   * Substitution is chained: when the value of entry `i` is the placeholder
   * of a later entry `j`, a text made of placeholder `i` ends up as the value
   * of `j`.
   */
  lemma ChainedPlaceholder(keys: seq<string>, vals: seq<string>, i: nat, j: nat)
    requires |keys| == |vals| && i < j < |keys|
    requires forall m :: 0 <= m < |keys| ==> |keys[m]| > 0 && keys[m][0] == '{'
    requires vals[i] == keys[j]
    requires forall m :: i < m < j ==> !Contains(keys[j], keys[m])
    requires forall m :: 0 <= m < i ==> !Contains(keys[i], keys[m])
    requires '{' !in vals[j]
    ensures ApplyRange(keys[i], keys, vals, 0, |keys|) == vals[j]
  {
    ApplySplit(keys[i], keys, vals, 0, i, |keys|);
    ApplyAbsent(keys[i], keys, vals, 0, i);
    ApplySplit(keys[i], keys, vals, i, i + 1, |keys|);
    ReplaceWhole(keys[i], vals[i]);
    PlaceholderBecomesValue(keys, vals, i + 1, j);
  }

  /**
   * In the e-mail text: a participant whose name is the later placeholder
   * `{email}` (entry 4) has `{имя}` (entry 0) replaced by the e-mail address.
   */
  lemma EmailChained(p: Participant, eventName: string, issueDate: Option<string>)
    requires p.fio == EmailKeys[4] && '{' !in p.email
    ensures ApplyAll(EmailKeys[0], EmailKeys, EmailValues(p, eventName, issueDate)) == p.email
  {
    var vals := EmailValues(p, eventName, issueDate);
    assert vals[0] == EmailKeys[4] && vals[4] == p.email;
    EmailKeysOpen();
    forall m | 0 < m < 4
      ensures !Contains(EmailKeys[4], EmailKeys[m])
    {
      EmailKeysApart(m, 4);
    }
    ChainedPlaceholder(EmailKeys, vals, 0, 4);
  }

  /** Every e-mail placeholder opens with `{`. */
  lemma EmailKeysOpen()
    ensures forall m :: 0 <= m < |EmailKeys| ==> |EmailKeys[m]| > 0 && EmailKeys[m][0] == '{'
  {
    EmailKeysAreTokens();
  }

  // -------------------------------------------------- the certificate template

  /** The placeholders of the template loop: the `{{name}}` forms, then the `{name}` forms. */
  const TemplateKeys: seq<string> := [
    "{{fio}}", "{{email}}", "{{role}}", "{{place}}", "{{event_name}}", "{{issue_date}}",
    "{fio}", "{email}", "{role}", "{place}", "{event_name}", "{issue_date}"]

  /** Their values; `today` is `datetime.now().strftime('%d.%m.%Y')`. */
  function TemplateValues(p: Participant, eventName: string, issueDate: Option<string>, today: string): (r: seq<string>)
    ensures |r| == |TemplateKeys|
  {
    var place, date := PlaceText(p.place), DateOr(issueDate, today);
    [p.fio, p.email, p.role, place, eventName, date,
     p.fio, p.email, p.role, place, eventName, date]
  }

  /** Six distinct `{{name}}` tokens followed by the six matching `{name}` tokens. */
  lemma TemplateKeysShape()
    ensures |TemplateKeys| == 12
    ensures forall i :: 0 <= i < 6 ==> DoubleBraceToken(TemplateKeys[i])
    ensures forall i :: 6 <= i < 12 ==> BraceToken(TemplateKeys[i])
    ensures forall i, j :: 0 <= i < j < 12 ==> TemplateKeys[i] != TemplateKeys[j]
  {
  }

  /** The replacement loop of `generate_pdf_certificate`. */
  method FillTemplate(content: string, p: Participant, eventName: string, issueDate: Option<string>, today: string)
    returns (result: string)
    ensures result == ApplyAll(content, TemplateKeys, TemplateValues(p, eventName, issueDate, today))
  {
    TemplateKeysShape();
    result := ReplaceInOrder(content, TemplateKeys, TemplateValues(p, eventName, issueDate, today));
  }

  /**
   * Because the `{{name}}` forms come first, a `{{name}}` token becomes its
   * bare value with no stray braces, when the values hold no `{`.
   */
  lemma DoubleBraceLeavesNoBraces(p: Participant, eventName: string, issueDate: Option<string>, today: string, j: nat)
    requires j < 6
    requires '{' !in p.fio && '{' !in p.email && '{' !in p.role && '{' !in eventName && '{' !in DateOr(issueDate, today)
    ensures var vals := TemplateValues(p, eventName, issueDate, today);
      ApplyAll(TemplateKeys[j], TemplateKeys, vals) == vals[j] && '{' !in vals[j]
  {
    TemplateKeysShape();
    PlaceTextBraceFree(p.place);
    forall i | 0 <= i < j
      ensures !Contains(TemplateKeys[j], TemplateKeys[i])
    {
      if Contains(TemplateKeys[j], TemplateKeys[i]) {
        DoubleBraceTokenContains(TemplateKeys[j], TemplateKeys[i]);
      }
    }
    PlaceholderBecomesValue(TemplateKeys, TemplateValues(p, eventName, issueDate, today), 0, j);
  }

  /** Had `{fio}` come first, `{{fio}}` would have kept a pair of braces around the name. */
  lemma SingleFirstKeepsBraces(v: string)
    ensures ReplaceAll("{{fio}}", "{fio}", v) == "{" + v + "}"
  {
    var s := "{{fio}}";
    assert s[..5][1] != "{fio}"[1];
    assert s[1..][..5] == "{fio}";
    assert s[1..][5..] == "}";
    assert ReplaceAll("}", "{fio}", v) == "}";
  }
}
