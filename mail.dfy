/**
 * The mail record: five optional text fields, the address check, the
 * completeness check with its error text, and the two fixed line sequences
 * used to replay a mail over the submission protocol and to show it.
 */
module Mails {
  import opened Optional
  import opened Text

  /**
   * A mail under composition. `None` is a field that was never set (a Java
   * null). The Java setters are the update expressions `m.(to := Some(t))`.
   */
  datatype Mail = Mail(
    to: Option<string>,
    from: Option<string>,
    subject: Option<string>,
    data: Option<string>,
    hash: Option<string>)

  /** `new Mail()`: nothing set yet. */
  const EmptyMail := Mail(None, None, None, None, None)

  /** Java string concatenation of a possibly null String renders null as "null". */
  function Show(field: Option<string>): string {
    match field
    case None => "null"
    case Some(t) => t
  }

  /** The hash line shows nothing, not "null", for an unset hash. */
  function HashDisplay(m: Mail): string {
    match m.hash
    case None => ""
    case Some(h) => h
  }

  /** An address has an '@', no space, and its first '@' is also its last. */
  predicate ValidMail(email: string) {
    && '@' in email
    && ' ' !in email
    && IndexOf(email, '@') == LastIndexOf(email, '@')
  }

  /** An address is valid exactly when it holds one '@' and no space. */
  lemma ValidMailExactlyOneAt(email: string)
    ensures ValidMail(email) <==> multiset(email)['@'] == 1 && ' ' !in email
  {
    if '@' in email {
      var i, j := IndexOf(email, '@'), LastIndexOf(email, '@');
      assert email == email[..i] + [email[i]] + email[i + 1..];
      assert multiset(email)['@'] == multiset(email[..i])['@'] + 1 + multiset(email[i + 1..])['@'];
      assert multiset(email[..i])['@'] == 0;
      if i == j {
        assert multiset(email[i + 1..])['@'] == 0;
      } else {
        assert i < j;
        assert email[i + 1..][j - i - 1] == '@';
        assert '@' in multiset(email[i + 1..]);
      }
    }
  }

  /** Text before the only '@' of a valid address. */
  function LocalPart(email: string): string
    requires ValidMail(email)
  {
    email[..IndexOf(email, '@')]
  }

  /** Text after the only '@' of a valid address. */
  function DomainPart(email: string): string
    requires ValidMail(email)
  {
    email[IndexOf(email, '@') + 1..]
  }

  /**
   * A valid address is its local part, '@', and its domain part, and Java's
   * `split("@")` gives back those two parts unless the domain part is empty,
   * in which case index 1 of the split does not exist.
   */
  lemma ValidMailParts(email: string)
    requires ValidMail(email)
    ensures email == LocalPart(email) + "@" + DomainPart(email)
    ensures '@' !in LocalPart(email) && '@' !in DomainPart(email)
    ensures DomainPart(email) != "" ==> JavaSplit(email, '@') == [LocalPart(email), DomainPart(email)]
    ensures DomainPart(email) == "" ==> |JavaSplit(email, '@')| < 2
  {
    var k := IndexOf(email, '@');
    var a, b := LocalPart(email), DomainPart(email);
    assert email == a + "@" + b;
    SplitOnce(a, '@', b);
    assert Split(email, '@') == [a, b];
    DropTrailingEmptyPrefix([a, b]);
  }

  /** Joining a local part and a domain without '@' or space gives a valid address with those parts. */
  lemma AddressParts(user: string, domain: string)
    requires '@' !in user && ' ' !in user && '@' !in domain && ' ' !in domain
    ensures var email := user + "@" + domain;
      && ValidMail(email) && LocalPart(email) == user && DomainPart(email) == domain
      && (domain != "" ==> JavaSplit(email, '@') == [user, domain])
  {
    var email := user + "@" + domain;
    assert email == user + ['@'] + domain;
    assert email[|user|] == '@';
    assert ValidMail(email) by {
      ValidMailExactlyOneAt(email);
      assert multiset(email) == multiset(user) + multiset(['@']) + multiset(domain);
    }
    assert IndexOf(email, '@') == |user| by {
      assert email[..|user|] == user;
    }
    assert email[|user| + 1..] == domain;
    ValidMailParts(email);
  }

  /** The four fields a mail needs before it can be sent; the hash is optional. */
  predicate Complete(m: Mail) {
    m.to.Some? && m.from.Some? && m.subject.Some? && m.data.Some?
  }

  /** The hash never decides completeness. */
  lemma CompleteIgnoresHash(m: Mail, h: Option<string>)
    ensures Complete(m.(hash := h)) == Complete(m)
  {
  }

  /**
   * The labels of the missing fields, in the order to, from, subject, data,
   * with the label meant for each field ("no recipients" for a missing to,
   * "no sender" for a missing from).
   */
  function MissingLabels(m: Mail): (labels: seq<string>)
    ensures |labels| <= 4
    ensures forall i :: 0 <= i < |labels| ==> labels[i] != "" && ',' !in labels[i]
  {
    (if m.to.None? then ["no recipients"] else [])
    + (if m.from.None? then ["no sender"] else [])
    + (if m.subject.None? then ["no subject"] else [])
    + (if m.data.None? then ["no data"] else [])
  }

  /** A label is reported exactly for each missing field. */
  lemma MissingLabelsExact(m: Mail)
    ensures ("no recipients" in MissingLabels(m)) <==> m.to.None?
    ensures ("no sender" in MissingLabels(m)) <==> m.from.None?
    ensures ("no subject" in MissingLabels(m)) <==> m.subject.None?
    ensures ("no data" in MissingLabels(m)) <==> m.data.None?
    ensures MissingLabels(m) == [] <==> Complete(m)
  {
  }

  /**
   * The text that follows "error " when `send` finds the mail incomplete:
   * empty for a complete mail, otherwise the labels of the missing fields
   * joined by commas. This is the corrected labelling; see
   * IncompleteMessageAsWritten for the labels as the source writes them.
   */
  function IncompleteMessage(m: Mail): (r: string)
    ensures r == "" <==> Complete(m)
    ensures !Complete(m) ==> Split(r, ',') == MissingLabels(m)
  {
    if Complete(m) then ""
    else
      var labels := MissingLabels(m);
      SplitJoin(labels, ',');
      JoinNonEmpty(labels, ",");
      Join(labels, ",")
  }

  lemma {:induction false} JoinNonEmpty(parts: seq<string>, sep: string)
    requires |parts| >= 1 && parts[|parts| - 1] != ""
    ensures Join(parts, sep) != ""
  {
  }

  /**
   * The labels incompleteMessage() as written reports, in the order to,
   * from, subject, data: a missing `to` is labelled "no sender" and a
   * missing `from` "no recipients".
   */
  function MissingLabelsAsWritten(m: Mail): (labels: seq<string>)
    ensures |labels| <= 4
    ensures forall i :: 0 <= i < |labels| ==> labels[i] != "" && ',' !in labels[i]
  {
    (if m.to.None? then ["no sender"] else [])
    + (if m.from.None? then ["no recipients"] else [])
    + (if m.subject.None? then ["no subject"] else [])
    + (if m.data.None? then ["no data"] else [])
  }

  /** As written, "no sender" reports a missing `to` and "no recipients" a missing `from`. */
  lemma MissingLabelsAsWrittenExact(m: Mail)
    ensures ("no sender" in MissingLabelsAsWritten(m)) <==> m.to.None?
    ensures ("no recipients" in MissingLabelsAsWritten(m)) <==> m.from.None?
    ensures ("no subject" in MissingLabelsAsWritten(m)) <==> m.subject.None?
    ensures ("no data" in MissingLabelsAsWritten(m)) <==> m.data.None?
    ensures MissingLabelsAsWritten(m) == [] <==> Complete(m)
  {
  }

  /**
   * incompleteMessage() as written: empty for a complete mail, otherwise the
   * swapped labels of the missing fields joined by commas.
   */
  function IncompleteMessageAsWritten(m: Mail): (r: string)
    ensures r == "" <==> Complete(m)
    ensures !Complete(m) ==> Split(r, ',') == MissingLabelsAsWritten(m)
  {
    if Complete(m) then ""
    else
      var labels := MissingLabelsAsWritten(m);
      SplitJoin(labels, ',');
      JoinNonEmpty(labels, ",");
      Join(labels, ",")
  }

  /**
   * The message as written and the corrected one agree exactly when both
   * `to` and `from` are set.
   */
  lemma IncompleteMessageAgreesIff(m: Mail)
    ensures IncompleteMessageAsWritten(m) == IncompleteMessage(m) <==> m.to.Some? && m.from.Some?
  {
    if m.to.Some? && m.from.Some? {
      assert MissingLabelsAsWritten(m) == MissingLabels(m);
    } else {
      var labels := MissingLabels(m);
      assert labels[0] == "no recipients" || labels[0] == "no sender";
      assert MissingLabelsAsWritten(m)[0] != labels[0];
      assert Split(IncompleteMessageAsWritten(m), ',') != Split(IncompleteMessage(m), ',');
    }
  }

  /**
   * A mail whose recipients are set but whose sender is missing is told
   * "no recipients" by the code as written, and "no sender" by the
   * corrected message.
   */
  lemma IncompleteMessageSwapsLabels()
    ensures var m := EmptyMail.(to := Some("bob@earth.planet"), subject := Some("hi"), data := Some("hello"));
      IncompleteMessageAsWritten(m) == "no recipients" && IncompleteMessage(m) == "no sender"
  {
  }

  /** The five field lines, as `show` sends them. */
  function Display(m: Mail): (lines: seq<string>)
    ensures |lines| == 5
    ensures StartsWith(lines[0], "to ") && lines[0][3..] == Show(m.to)
    ensures StartsWith(lines[1], "from ") && lines[1][5..] == Show(m.from)
    ensures StartsWith(lines[2], "subject ") && lines[2][8..] == Show(m.subject)
    ensures StartsWith(lines[3], "data ") && lines[3][5..] == Show(m.data)
    ensures StartsWith(lines[4], "hash ") && lines[4][5..] == HashDisplay(m)
  {
    [ "to " + Show(m.to),
      "from " + Show(m.from),
      "subject " + Show(m.subject),
      "data " + Show(m.data),
      "hash " + HashDisplay(m) ]
  }

  /**
   * The submission commands that recreate the mail at another node: begin,
   * the five field lines, send and quit.
   */
  function Messages(m: Mail): (lines: seq<string>)
    ensures |lines| == 8
    ensures lines[0] == "begin" && lines[6] == "send" && lines[7] == "quit"
    ensures lines[1..6] == Display(m)
  {
    ["begin"] + Display(m) + ["send", "quit"]
  }

  /**
   * Replaying a complete mail's field lines rebuilds the same five fields:
   * each line splits at its first space into the field's command and the
   * field's text (every field except the hash is set; an unset hash is
   * replayed as the empty hash).
   */
  lemma MessagesRebuildFields(m: Mail)
    requires Complete(m)
    ensures var lines := Messages(m);
      && SplitCommand(lines[1]) == ("to", m.to.value)
      && SplitCommand(lines[2]) == ("from", m.from.value)
      && SplitCommand(lines[3]) == ("subject", m.subject.value)
      && SplitCommand(lines[4]) == ("data", m.data.value)
      && SplitCommand(lines[5]) == ("hash", HashDisplay(m))
  {
    var lines := Messages(m);
    assert lines[1] == "to" + " " + m.to.value;
    assert lines[2] == "from" + " " + m.from.value;
    assert lines[3] == "subject" + " " + m.subject.value;
    assert lines[4] == "data" + " " + m.data.value;
    assert lines[5] == "hash" + " " + HashDisplay(m);
    FieldLine("to", m.to.value);
    FieldLine("from", m.from.value);
    FieldLine("subject", m.subject.value);
    FieldLine("data", m.data.value);
    FieldLine("hash", HashDisplay(m));
  }

  /** A command word, a space and any text split back into the two. */
  lemma FieldLine(command: string, text: string)
    requires ' ' !in command
    ensures SplitCommand(command + " " + text) == (command, text)
  {
    var line := command + " " + text;
    assert line[|command|] == ' ';
    var k := IndexOf(line, ' ');
    assert line[..|command|] == command;
    assert k == |command|;
    assert line[k + 1..] == text;
  }
}
