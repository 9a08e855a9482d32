/**
 * The submission side of a transfer server: one client connection, read line
 * by line. After the greeting the first line must be `begin`; then each line
 * is a command and its content, building up one mail that `send` hands to
 * the delivery engine.
 */
module TransferSession {
  import opened Optional
  import opened Text
  import opened Mails
  import opened Protocol

  /**
   * A session: the mail under composition, whether the connection is still
   * read, the replies written so far, and the mails handed to the delivery
   * engine so far.
   */
  datatype Session = Session(mail: Mail, open: bool, replies: seq<string>, submitted: seq<Mail>)

  /** The position of the first entry that is not a valid address, or -1. */
  function FirstInvalid(emails: seq<string>): (k: int)
    ensures -1 <= k < |emails|
    ensures k == -1 <==> forall i :: 0 <= i < |emails| ==> ValidMail(emails[i])
    ensures k >= 0 ==> !ValidMail(emails[k]) && forall i :: 0 <= i < k ==> ValidMail(emails[i])
    decreases |emails|
  {
    if |emails| == 0 then -1
    else if !ValidMail(emails[0]) then 0
    else
      var k := FirstInvalid(emails[1..]);
      if k == -1 then -1 else k + 1
  }

  /**
   * The reply to `to`: "ok N" for N comma entries all valid, else an error
   * naming the 1-based position and text of the first invalid entry.
   */
  function ToReply(content: string): string {
    var emails := JavaSplit(content, ',');
    var k := FirstInvalid(emails);
    if k == -1 then "ok " + IntToString(|emails|)
    else "error invalid recipient email (nr. " + IntToString(k + 1) + ": '" + emails[k] + "')"
  }

  /** The reply to `to` is an "ok" exactly when every entry is a valid address. */
  lemma ToReplyOk(content: string)
    ensures var emails := JavaSplit(content, ',');
      && (StartsWith(ToReply(content), "ok") <==> forall i :: 0 <= i < |emails| ==> ValidMail(emails[i]))
      && ((forall i :: 0 <= i < |emails| ==> ValidMail(emails[i])) ==> ToReply(content) == "ok " + IntToString(|emails|))
  {
    var r := ToReply(content);
    if FirstInvalid(JavaSplit(content, ',')) == -1 {
      assert r[..2] == "ok";
    } else {
      assert r[0] == 'e';
    }
  }

  /** The first invalid entry is the one after a run of valid ones. */
  lemma FirstInvalidAt(emails: seq<string>, i: int)
    requires 0 <= i < |emails| && !ValidMail(emails[i])
    requires forall j :: 0 <= j < i ==> ValidMail(emails[j])
    ensures FirstInvalid(emails) == i
  {
  }

  /** The validity loop of `to`: stops at the first invalid entry. */
  method CheckRecipients(content: string) returns (reply: string)
    ensures reply == ToReply(content)
  {
    var emails := JavaSplit(content, ',');
    var i := 0;
    while i < |emails|
      invariant 0 <= i <= |emails|
      invariant forall j :: 0 <= j < i ==> ValidMail(emails[j])
    {
      var email := emails[i];
      if !ValidMail(email) {
        FirstInvalidAt(emails, i);
        return "error invalid recipient email (nr. " + IntToString(i + 1) + ": '" + email + "')";
      }
      i := i + 1;
    }
    assert FirstInvalid(emails) == -1;
    return "ok " + IntToString(|emails|);
  }

  /** One command of an open session, with the text after the command word. */
  function Apply(s: Session, command: Command, content: string): Session {
    match command
    case Begin => s.(mail := EmptyMail, replies := s.replies + ["ok"])
    case Hash => s.(mail := s.mail.(hash := Some(content)), replies := s.replies + ["ok"])
    case To => s.(mail := s.mail.(to := Some(content)), replies := s.replies + [ToReply(content)])
    case From => s.(mail := s.mail.(from := Some(content)), replies := s.replies + [FromReply(content)])
    case Subject => s.(mail := s.mail.(subject := Some(content)), replies := s.replies + ["ok"])
    case Data => s.(mail := s.mail.(data := Some(content)), replies := s.replies + ["ok"])
    case Send =>
      if !Complete(s.mail) then s.(replies := s.replies + ["error " + IncompleteMessage(s.mail)])
      else s.(mail := EmptyMail, replies := s.replies + ["ok"], submitted := s.submitted + [s.mail])
    case Quit => s.(open := false, replies := s.replies + ["ok bye"])
    case Unknown => s.(open := false, replies := s.replies + [ProtocolError])
  }

  /** One line of an open session. */
  function Step(s: Session, line: string): Session {
    var (word, content) := SplitCommand(line);
    Apply(s, ParseCommand(word), content)
  }

  /** The lines read one after the other; nothing is read once the session closed. */
  function Feed(s: Session, lines: seq<string>): Session
    decreases |lines|
  {
    if |lines| == 0 then s
    else
      var t := Feed(s, lines[..|lines| - 1]);
      if t.open then Step(t, lines[|lines| - 1]) else t
  }

  const Begun := Session(EmptyMail, true, [Greeting, "ok"], [])

  /**
   * A whole connection given the lines the client sends before the end of
   * its stream: the greeting, the `begin` gate, then the commands.
   */
  function Serve(lines: seq<string>): Session {
    if |lines| == 0 || lines[0] != "begin" then Session(EmptyMail, false, [Greeting, ProtocolError], [])
    else Feed(Begun, lines[1..])
  }

  /** Once closed, a session reads no further line. */
  lemma {:induction false} FeedClosed(s: Session, lines: seq<string>, i: nat)
    requires i <= |lines|
    requires !Feed(s, lines[..i]).open
    ensures Feed(s, lines) == Feed(s, lines[..i])
    decreases |lines| - i
  {
    if i < |lines| {
      assert lines[..i + 1][..i] == lines[..i];
      FeedClosed(s, lines, i + 1);
    } else {
      assert lines[..i] == lines;
    }
  }

  /** run: the connection handler, line by line. */
  method Run(lines: seq<string>) returns (replies: seq<string>, submitted: seq<Mail>)
    ensures replies == Serve(lines).replies && submitted == Serve(lines).submitted
  {
    replies := [Greeting];
    if |lines| == 0 || lines[0] != "begin" {
      replies := replies + [ProtocolError];
      return replies, [];
    }
    replies := replies + ["ok"];
    submitted := [];
    var mail := EmptyMail;
    var open := true;
    var rest := lines[1..];
    var i := 0;
    while i < |rest| && open
      invariant 0 <= i <= |rest|
      invariant Feed(Begun, rest[..i]) == Session(mail, open, replies, submitted)
    {
      assert rest[..i + 1][..i] == rest[..i];
      var (word, content) := SplitCommand(rest[i]);
      match ParseCommand(word) {
        case Begin =>
          mail := EmptyMail;
          replies := replies + ["ok"];
        case Hash =>
          mail := mail.(hash := Some(content));
          replies := replies + ["ok"];
        case To =>
          mail := mail.(to := Some(content));
          var reply := CheckRecipients(content);
          replies := replies + [reply];
        case From =>
          mail := mail.(from := Some(content));
          if !ValidMail(content) {
            replies := replies + ["error invalid sender email"];
          } else {
            replies := replies + ["ok"];
          }
        case Subject =>
          mail := mail.(subject := Some(content));
          replies := replies + ["ok"];
        case Data =>
          mail := mail.(data := Some(content));
          replies := replies + ["ok"];
        case Send =>
          if !Complete(mail) {
            replies := replies + ["error " + IncompleteMessage(mail)];
          } else {
            submitted := submitted + [mail];
            mail := EmptyMail;
            replies := replies + ["ok"];
          }
        case Quit =>
          replies := replies + ["ok bye"];
          open := false;
        case Unknown =>
          replies := replies + [ProtocolError];
          open := false;
      }
      i := i + 1;
    }
    if !open {
      FeedClosed(Begun, rest, i);
    }
    assert rest[..i] == rest || !open;
  }

  // ---------------------------------------------------------------------
  // Properties of a session.

  /** Without `begin` first, the session answers the protocol error and ends. */
  lemma BeginGate(lines: seq<string>)
    ensures |lines| > 0 && lines[0] == "begin" <==> [Greeting, "ok"] <= Serve(lines).replies
    ensures !(|lines| > 0 && lines[0] == "begin") ==>
      Serve(lines).replies == [Greeting, ProtocolError] && Serve(lines).submitted == [] && !Serve(lines).open
  {
    if |lines| > 0 && lines[0] == "begin" {
      FeedKeepsHistory(Begun, lines[1..]);
    } else {
      assert Serve(lines).replies == [Greeting, ProtocolError];
      assert Serve(lines).replies[1] != "ok";
    }
  }

  /** A step only appends to the replies and the hand-offs, and hands off complete mails only. */
  lemma StepAppends(s: Session, line: string)
    ensures s.replies <= Step(s, line).replies
    ensures s.submitted <= Step(s, line).submitted
    ensures forall m :: m in Step(s, line).submitted ==> m in s.submitted || Complete(m)
  {
    var (word, content) := SplitCommand(line);
    ApplyAppends(s, ParseCommand(word), content);
  }

  lemma ApplyAppends(s: Session, command: Command, content: string)
    ensures var t := Apply(s, command, content);
      && s.replies <= t.replies
      && (t.submitted == s.submitted || (Complete(s.mail) && t.submitted == s.submitted + [s.mail]))
  {
    match command
    case Send =>
    case _ =>
  }

  /** Replies and hand-offs are only ever appended. */
  lemma {:induction false} FeedKeepsHistory(s: Session, lines: seq<string>)
    ensures s.replies <= Feed(s, lines).replies
    ensures s.submitted <= Feed(s, lines).submitted
    decreases |lines|
  {
    if |lines| > 0 {
      var t := Feed(s, lines[..|lines| - 1]);
      FeedKeepsHistory(s, lines[..|lines| - 1]);
      StepAppends(t, lines[|lines| - 1]);
    }
  }

  /** Every mail handed to the delivery engine is complete. */
  lemma {:induction false} SubmittedComplete(s: Session, lines: seq<string>)
    requires forall m :: m in s.submitted ==> Complete(m)
    ensures forall m :: m in Feed(s, lines).submitted ==> Complete(m)
    decreases |lines|
  {
    if |lines| > 0 {
      var t := Feed(s, lines[..|lines| - 1]);
      SubmittedComplete(s, lines[..|lines| - 1]);
      StepAppends(t, lines[|lines| - 1]);
    }
  }

  /**
   * `send` on an incomplete mail answers the missing fields and keeps the
   * mail; on a complete mail it hands exactly that mail over, answers "ok"
   * and starts a new empty mail.
   */
  lemma SendStep(s: Session)
    ensures var t := Step(s, "send");
      && t.open == s.open
      && (!Complete(s.mail) ==> t.mail == s.mail && t.submitted == s.submitted
                                && t.replies == s.replies + ["error " + IncompleteMessage(s.mail)])
      && (Complete(s.mail) ==> t.mail == EmptyMail && t.submitted == s.submitted + [s.mail]
                               && t.replies == s.replies + ["ok"])
  {
    assert SplitCommand("send") == ("send", "");
    assert ParseCommand("send") == Send;
    var t := Step(s, "send");
    assert t == if !Complete(s.mail) then s.(replies := s.replies + ["error " + IncompleteMessage(s.mail)])
      else s.(mail := EmptyMail, replies := s.replies + ["ok"], submitted := s.submitted + [s.mail]);
  }

  /** `to` stores its content even when it is not valid; the reply tells whether it is. */
  lemma ToStepStores(s: Session, content: string)
    ensures var t := Step(s, "to " + content);
      t.mail == s.mail.(to := Some(content)) && t.replies == s.replies + [ToReply(content)] && t.open == s.open
  {
    FieldLine("to", content);
    assert "to" + " " + content == "to " + content;
    assert ParseCommand("to") == To;
  }

  /** `from` stores its content even when it is not a valid address. */
  lemma FromStepStores(s: Session, content: string)
    ensures var t := Step(s, "from " + content);
      && t.mail == s.mail.(from := Some(content)) && t.open == s.open
      && t.replies == s.replies + [FromReply(content)]
  {
    FieldLine("from", content);
    assert "from" + " " + content == "from " + content;
    assert ParseCommand("from") == From;
  }

  /** `quit` and any unknown command end the session; only `send` hands a mail over. */
  lemma ClosingCommands(s: Session, line: string)
    ensures line == "quit" ==> Step(s, line) == s.(open := false, replies := s.replies + ["ok bye"])
    ensures ParseCommand(SplitCommand(line).0) == Unknown ==>
      Step(s, line) == s.(open := false, replies := s.replies + [ProtocolError])
    ensures Step(s, line).submitted != s.submitted ==> ParseCommand(SplitCommand(line).0) == Send
  {
    if line == "quit" {
      assert SplitCommand(line) == ("quit", "");
    }
  }

  /**
   * Replaying a complete mail's submission commands hands over that same
   * mail (an unset hash arrives as the empty hash): every field command is
   * answered, `send` answers "ok" and `quit` ends the session.
   */
  lemma ReplayMessages(m: Mail)
    requires Complete(m)
    ensures var r := Serve(Messages(m));
      && r.submitted == [m.(hash := Some(HashDisplay(m)))]
      && !r.open
      && |r.replies| == 9 && r.replies[7] == "ok" && r.replies[8] == "ok bye"
  {
    var rest := Messages(m)[1..];
    ReplayFields(m);
    assert rest == rest[..5] + ["send", "quit"];
    FeedAppend(Begun, rest[..5], ["send", "quit"]);
    ReplayClose(Feed(Begun, rest[..5]));
  }

  /** Feeding two batches of lines is feeding them one after the other. */
  lemma {:induction false} FeedAppend(s: Session, a: seq<string>, b: seq<string>)
    ensures Feed(s, a + b) == Feed(Feed(s, a), b)
    decreases |b|
  {
    if |b| == 0 {
      assert a + b == a;
    } else {
      assert (a + b)[..|a + b| - 1] == a + b[..|b| - 1];
      FeedAppend(s, a, b[..|b| - 1]);
    }
  }

  /** After the field lines, `send` hands over the complete mail and `quit` ends the session. */
  lemma ReplayClose(t: Session)
    requires t.open && Complete(t.mail)
    ensures Feed(t, ["send", "quit"]) == t.(mail := EmptyMail, open := false, replies := t.replies + ["ok", "ok bye"],
                                         submitted := t.submitted + [t.mail])
  {
    assert ["send", "quit"][..1] == ["send"];
    assert ["send"][..0] == [];
    SendStep(t);
    var u := Step(t, "send");
    ClosingCommands(u, "quit");
    assert t.replies + ["ok"] + ["ok bye"] == t.replies + ["ok", "ok bye"];
  }

  /** The five field lines of a complete mail rebuild it in a fresh session. */
  lemma ReplayFields(m: Mail)
    requires Complete(m)
    ensures var t := Feed(Begun, Messages(m)[1..][..5]);
      && t.mail == m.(hash := Some(HashDisplay(m))) && t.open && t.submitted == []
      && |t.replies| == 7
  {
    var lines := Messages(m);
    var rest := lines[1..];
    MessagesRebuildFields(m);
    assert rest[0] == lines[1] && rest[1] == lines[2] && rest[2] == lines[3] && rest[3] == lines[4];
    assert rest[4] == lines[5];
    CommandWords();
    assert rest[..0] == [];
    var t1 := Apply(Begun, To, m.to.value);
    ReplayStep(Begun, rest, 0, To, m.to.value);
    var t2 := Apply(t1, From, m.from.value);
    ReplayStep(Begun, rest, 1, From, m.from.value);
    var t3 := Apply(t2, Subject, m.subject.value);
    ReplayStep(Begun, rest, 2, Subject, m.subject.value);
    var t4 := Apply(t3, Data, m.data.value);
    ReplayStep(Begun, rest, 3, Data, m.data.value);
    ReplayStep(Begun, rest, 4, Hash, HashDisplay(m));
  }

  /** Line k of an open session is the command its word names. */
  lemma ReplayStep(s: Session, lines: seq<string>, k: nat, command: Command, content: string)
    requires k < |lines| && Feed(s, lines[..k]).open
    requires ParseCommand(SplitCommand(lines[k]).0) == command && SplitCommand(lines[k]).1 == content
    ensures Feed(s, lines[..k + 1]) == Apply(Feed(s, lines[..k]), command, content)
  {
    assert lines[..k + 1][..k] == lines[..k];
  }
}
