/**
 * The relay-receiving side of a mailbox server: a transfer server replays a
 * mail here with the submission protocol. After the greeting the first line
 * must be `begin`; `to` checks every recipient against the server's own
 * domain and its configured users, and `send` files the mail in the
 * mailboxes of the local recipients.
 */
module DmtpSession {
  import opened Optional
  import opened Text
  import opened Mails
  import opened MailStore
  import opened Protocol

  // ---------------------------------------------------------------------
  // The recipient check of `to`.

  /**
   * What the recipient scan has found: the error lines written so far, the
   * number of known local recipients, whether every entry was acceptable,
   * and whether the scan died on an entry (an uncaught exception).
   */
  datatype Tally = Tally(lines: seq<string>, count: nat, valid: bool, crashed: bool)

  predicate AllErrors(lines: seq<string>) {
    forall i :: 0 <= i < |lines| ==> StartsWith(lines[i], "error")
  }

  /**
   * An entry `to` accepts: a valid address with a domain part, which, when
   * it is this server's domain, names a configured user.
   */
  predicate Acceptable(email: string, domain: string, users: set<string>) {
    && ValidMail(email)
    && DomainPart(email) != ""
    && (DomainPart(email) == domain ==> LocalPart(email) in users)
  }

  predicate AllAcceptable(emails: seq<string>, domain: string, users: set<string>) {
    forall i :: 0 <= i < |emails| ==> Acceptable(emails[i], domain, users)
  }

  lemma AllAcceptableFirst(emails: seq<string>, domain: string, users: set<string>)
    requires |emails| > 0
    ensures AllAcceptable(emails, domain, users) <==>
      Acceptable(emails[0], domain, users) && AllAcceptable(emails[1..], domain, users)
  {
    assert forall i :: 1 <= i < |emails| ==> emails[i] == emails[1..][i - 1];
  }

  /** The local parts of the valid entries addressed to this domain, in order. */
  function LocalRecipients(emails: seq<string>, domain: string): seq<string>
    decreases |emails|
  {
    if |emails| == 0 then []
    else
      var e := emails[0];
      (if ValidMail(e) && DomainPart(e) == domain then [LocalPart(e)] else []) + LocalRecipients(emails[1..], domain)
  }

  /**
   * The scan of the `to` entries in order: an invalid address writes its
   * error and stops the scan; a valid address without a domain part kills
   * the handler (index 1 of its split does not exist); other domains are
   * skipped; an unknown local user writes its error and the scan goes on;
   * a known local user is counted.
   */
  function Scan(emails: seq<string>, domain: string, users: set<string>): (t: Tally)
    ensures AllErrors(t.lines)
    ensures !t.valid ==> |t.lines| > 0
    decreases |emails|
  {
    if |emails| == 0 then Tally([], 0, true, false)
    else
      var email := emails[0];
      var split := JavaSplit(email, '@');
      if !ValidMail(email) then
        assert StartsWith("error invalid email " + email, "error");
        Tally(["error invalid email " + email], 0, false, false)
      else if |split| < 2 then Tally([], 0, true, true)
      else if split[1] != domain then Scan(emails[1..], domain, users)
      else
        var t := Scan(emails[1..], domain, users);
        if split[0] !in users then
          assert StartsWith("error unknown recipient " + split[0], "error");
          t.(lines := ["error unknown recipient " + split[0]] + t.lines, valid := false)
        else t.(count := t.count + 1)
  }

  /** The lines `to` writes, and whether the handler died writing them. */
  function ToAnswer(content: string, domain: string, users: set<string>): (seq<string>, bool) {
    var t := Scan(JavaSplit(content, ','), domain, users);
    if t.crashed then (t.lines, true)
    else if !t.valid then (t.lines, false)
    else if t.count == 0 then (t.lines + ["error no relevant recipient"], false)
    else (t.lines + ["ok " + IntToString(t.count)], false)
  }

  /**
   * The scan neither stops nor fails exactly when every entry is
   * acceptable; it then writes nothing and counts the known local
   * recipients, other domains not included.
   */
  lemma {:induction false} ScanAcceptable(emails: seq<string>, domain: string, users: set<string>)
    ensures var t := Scan(emails, domain, users);
      && (!t.crashed && t.valid <==> AllAcceptable(emails, domain, users))
      && (!t.crashed && t.valid ==> t.lines == [] && t.count == |LocalRecipients(emails, domain)|)
    decreases |emails|
  {
    if |emails| > 0 {
      var email := emails[0];
      var rest := emails[1..];
      ScanAcceptable(rest, domain, users);
      AllAcceptableFirst(emails, domain, users);
      if ValidMail(email) {
        ValidMailParts(email);
        if DomainPart(email) != "" {
          ScanAcceptableStep(emails, domain, users);
        }
      }
    }
  }

  /** One valid entry with a domain part in front of the scan of the rest. */
  lemma ScanAcceptableStep(emails: seq<string>, domain: string, users: set<string>)
    requires |emails| > 0 && ValidMail(emails[0]) && DomainPart(emails[0]) != ""
    requires JavaSplit(emails[0], '@') == [LocalPart(emails[0]), DomainPart(emails[0])]
    ensures var t := Scan(emails[1..], domain, users);
      var e := emails[0];
      && LocalRecipients(emails, domain) ==
           (if DomainPart(e) == domain then [LocalPart(e)] else []) + LocalRecipients(emails[1..], domain)
      && Scan(emails, domain, users) ==
           if DomainPart(e) != domain then t
           else if LocalPart(e) !in users then
             t.(lines := ["error unknown recipient " + LocalPart(e)] + t.lines, valid := false)
           else t.(count := t.count + 1)
  {
  }

  /**
   * The three outcomes of `to`: "ok N" for N known local recipients when
   * every entry is acceptable; "error no relevant recipient" when every
   * entry is acceptable but none is local; otherwise error lines only.
   */
  lemma ToAnswerOutcomes(content: string, domain: string, users: set<string>)
    ensures var emails := JavaSplit(content, ',');
      var n := |LocalRecipients(emails, domain)|;
      && (AllAcceptable(emails, domain, users) && n > 0 ==>
            ToAnswer(content, domain, users) == (["ok " + IntToString(n)], false))
      && (AllAcceptable(emails, domain, users) && n == 0 ==>
            ToAnswer(content, domain, users) == (["error no relevant recipient"], false))
      && (!AllAcceptable(emails, domain, users) ==>
            AllErrors(ToAnswer(content, domain, users).0))
  {
    var emails := JavaSplit(content, ',');
    var t := Scan(emails, domain, users);
    ScanAcceptable(emails, domain, users);
    if !t.crashed && t.valid {
      assert t.lines + ["error no relevant recipient"] == ["error no relevant recipient"];
      assert t.lines + ["ok " + IntToString(t.count)] == ["ok " + IntToString(t.count)];
    }
  }

  /** Puts the scan of a prefix in front of the scan of what follows it. */
  function Combine(a: Tally, b: Tally): Tally {
    Tally(a.lines + b.lines, a.count + b.count, a.valid && b.valid, b.crashed)
  }

  /** The flags after one valid entry with a domain part: skipped, an unknown user, or counted. */
  function Advance(a: Tally, split: seq<string>, domain: string, users: set<string>): Tally
    requires |split| >= 2
  {
    if split[1] != domain then a
    else if split[0] !in users then a.(lines := a.lines + ["error unknown recipient " + split[0]], valid := false)
    else a.(count := a.count + 1)
  }

  /** One entry of the scan moves from the rest of the list into the tally so far. */
  lemma ScanAdvance(emails: seq<string>, i: nat, domain: string, users: set<string>, a: Tally)
    requires i < |emails| && ValidMail(emails[i]) && |JavaSplit(emails[i], '@')| >= 2
    ensures Combine(a, Scan(emails[i..], domain, users)) ==
      Combine(Advance(a, JavaSplit(emails[i], '@'), domain, users), Scan(emails[i + 1..], domain, users))
  {
    assert emails[i..][1..] == emails[i + 1..] && emails[i..][0] == emails[i];
    var split := JavaSplit(emails[i], '@');
    var t := Scan(emails[i + 1..], domain, users);
    if split[1] == domain && split[0] !in users {
      assert a.lines + (["error unknown recipient " + split[0]] + t.lines)
          == a.lines + ["error unknown recipient " + split[0]] + t.lines;
    }
  }

  /** The scan ends at an entry that is invalid or has no domain part. */
  lemma ScanStops(emails: seq<string>, i: nat, domain: string, users: set<string>)
    requires i < |emails| && (!ValidMail(emails[i]) || |JavaSplit(emails[i], '@')| < 2)
    ensures !ValidMail(emails[i]) ==>
      Scan(emails[i..], domain, users) == Tally(["error invalid email " + emails[i]], 0, false, false)
    ensures ValidMail(emails[i]) ==> Scan(emails[i..], domain, users) == Tally([], 0, true, true)
  {
    assert emails[i..][0] == emails[i];
  }

  /** The `to` branch: the scan loop with its count and valid flags, then the summary line. */
  method CheckRecipients(content: string, domain: string, data: UserData) returns (lines: seq<string>, crashed: bool)
    ensures (lines, crashed) == ToAnswer(content, domain, data.passwords.Keys)
  {
    var users := data.passwords.Keys;
    var emails := JavaSplit(content, ',');
    var count := 0;
    var valid := true;
    lines := [];
    var i := 0;
    while i < |emails|
      invariant 0 <= i <= |emails|
      invariant Combine(Tally(lines, count, valid, false), Scan(emails[i..], domain, users)) == Scan(emails, domain, users)
    {
      var email := emails[i];
      var split := JavaSplit(email, '@');
      if !ValidMail(email) {
        // the scan breaks off, and a false `valid` adds no summary line
        ScanStops(emails, i, domain, users);
        return lines + ["error invalid email " + email], false;
      }
      if |split| < 2 {
        ScanStops(emails, i, domain, users);
        assert lines + [] == lines;
        return lines, true;
      }
      ScanAdvance(emails, i, domain, users, Tally(lines, count, valid, false));
      var domainPart := split[1];
      if domainPart != domain {
        i := i + 1;
        continue;
      }
      var user := split[0];
      if data.Lookup(user).None? {
        valid := false;
        lines := lines + ["error unknown recipient " + user];
        i := i + 1;
        continue;
      }
      count := count + 1;
      i := i + 1;
    }
    assert emails[i..] == [] && lines + [] == lines;
    if !valid {
      return lines, false;
    }
    if count == 0 {
      return lines + ["error no relevant recipient"], false;
    }
    return lines + ["ok " + IntToString(count)], false;
  }

  // ---------------------------------------------------------------------
  // Filing the mail at `send`.

  /**
   * The handler as written: every comma entry's text before its first '@'
   * is a user to file the mail for, whatever its domain; an entry that
   * Java's split("@") turns into no piece at all (such as "@") kills the
   * handler, with the earlier entries already filed.
   */
  function FileAsWritten(s: Store, entries: seq<string>, mail: Mail): (r: (Store, bool))
    ensures r.0.boxes.Keys == s.boxes.Keys
    decreases |entries|
  {
    if |entries| == 0 then (s, false)
    else
      var split := JavaSplit(entries[0], '@');
      if |split| == 0 then (s, true)
      else FileAsWritten(Save(s, split[0], mail), entries[1..], mail)
  }

  /** One entry, as intended: only a valid address of this domain names a user to file for. */
  function FileOne(s: Store, entry: string, domain: string, mail: Mail): Store {
    if ValidMail(entry) && DomainPart(entry) == domain then Save(s, LocalPart(entry), mail) else s
  }

  /** `send` as intended: the mail is filed once per local recipient, in order. */
  function FileLocal(s: Store, entries: seq<string>, domain: string, mail: Mail): (r: Store)
    ensures r.boxes.Keys == s.boxes.Keys
    decreases |entries|
  {
    if |entries| == 0 then s else FileLocal(FileOne(s, entries[0], domain, mail), entries[1..], domain, mail)
  }

  /**
   * Filing keeps the store valid and loses no mail; the mailboxes that
   * change are exactly those of the configured users among the local
   * recipients, and every new id in them holds the mail.
   */
  lemma {:induction false} FileLocalKeeps(s: Store, users: set<string>, entries: seq<string>, domain: string, mail: Mail)
    requires StoreValid(s, users)
    ensures var r := FileLocal(s, entries, domain, mail);
      && StoreValid(r, users)
      && r.idCounter >= s.idCounter
      && (forall u, k :: u in s.boxes && k in s.boxes[u] ==> k in r.boxes[u] && r.boxes[u][k] == s.boxes[u][k])
      && (forall u, k :: u in s.boxes && k in r.boxes[u] && k !in s.boxes[u] ==> r.boxes[u][k] == mail && k > s.idCounter)
    decreases |entries|
  {
    if |entries| > 0 {
      var e := entries[0];
      var s1 := FileOne(s, e, domain, mail);
      assert FileLocal(s, entries, domain, mail) == FileLocal(s1, entries[1..], domain, mail);
      if ValidMail(e) && DomainPart(e) == domain {
        SaveFreshId(s, users, LocalPart(e), mail);
      }
      FileLocalKeeps(s1, users, entries[1..], domain, mail);
    }
  }

  lemma {:induction false} FileLocalTouches(s: Store, users: set<string>, entries: seq<string>, domain: string, mail: Mail)
    requires StoreValid(s, users)
    ensures var r := FileLocal(s, entries, domain, mail);
      forall u :: u in s.boxes ==> (r.boxes[u] == s.boxes[u] <==> u !in LocalRecipients(entries, domain))
    decreases |entries|
  {
    if |entries| > 0 {
      var e := entries[0];
      var s1 := FileOne(s, e, domain, mail);
      var r := FileLocal(s, entries, domain, mail);
      assert r == FileLocal(s1, entries[1..], domain, mail);
      var local := ValidMail(e) && DomainPart(e) == domain;
      if local {
        SaveFreshId(s, users, LocalPart(e), mail);
      }
      FileLocalKeeps(s1, users, entries[1..], domain, mail);
      FileLocalTouches(s1, users, entries[1..], domain, mail);
      assert LocalRecipients(entries, domain)
          == (if local then [LocalPart(e)] else []) + LocalRecipients(entries[1..], domain);
      forall u | u in s.boxes
        ensures r.boxes[u] == s.boxes[u] <==> u !in LocalRecipients(entries, domain)
      {
        if local && u == LocalPart(e) {
          assert s1.idCounter in s1.boxes[u] && s1.idCounter !in s.boxes[u];
          assert s1.idCounter in r.boxes[u];
        }
      }
    }
  }

  /**
   * Filing at `send` keeps the store valid and every stored mail; the new
   * ids hold this mail and lie above the old counter; a mailbox changes
   * exactly when its user is a local recipient.
   */
  lemma FileLocalEffect(s: Store, users: set<string>, entries: seq<string>, domain: string, mail: Mail)
    requires StoreValid(s, users)
    ensures var r := FileLocal(s, entries, domain, mail);
      && StoreValid(r, users)
      && r.boxes.Keys == s.boxes.Keys
      && r.idCounter >= s.idCounter
      && (forall u, k :: u in s.boxes && k in s.boxes[u] ==> k in r.boxes[u] && r.boxes[u][k] == s.boxes[u][k])
      && (forall u, k :: u in s.boxes && k in r.boxes[u] && k !in s.boxes[u] ==> r.boxes[u][k] == mail && k > s.idCounter)
      && (forall u :: u in s.boxes ==> (r.boxes[u] == s.boxes[u] <==> u !in LocalRecipients(entries, domain)))
  {
    FileLocalKeeps(s, users, entries, domain, mail);
    FileLocalTouches(s, users, entries, domain, mail);
  }

  /**
   * The discrepancy: a recipient at another domain whose local part is a
   * user of this server gets the mail filed as written, though `to` did
   * not count it; the intended filing leaves that mailbox alone.
   */
  lemma FileAsWrittenCrossesDomains(s: Store, users: set<string>, user: string, other: string, domain: string, mail: Mail)
    requires StoreValid(s, users) && user in users
    requires '@' !in user && ' ' !in user && '@' !in other && ' ' !in other && other != "" && other != domain
    ensures var entry := user + "@" + other;
      && FileAsWritten(s, [entry], mail).0.boxes[user] != s.boxes[user]
      && FileLocal(s, [entry], domain, mail).boxes[user] == s.boxes[user]
  {
    var entry := user + "@" + other;
    AddressParts(user, other);
    SaveFreshId(s, users, user, mail);
    assert FileAsWritten(s, [entry], mail).0 == Save(s, user, mail);
    assert s.idCounter + 1 in Save(s, user, mail).boxes[user];
    FileLocalEffect(s, users, [entry], domain, mail);
    assert LocalRecipients([entry], domain) == [];
  }

  /**
   * As written, an entry that `to` rejected as invalid is still filed: a bare
   * user name splits to itself and the mail lands in that user's mailbox.
   * The corrected filing skips it.
   */
  lemma FileAsWrittenFilesInvalid(s: Store, users: set<string>, user: string, domain: string, mail: Mail)
    requires StoreValid(s, users) && user in users
    requires '@' !in user && user != ""
    ensures !ValidMail(user)
    ensures FileAsWritten(s, [user], mail).0.boxes[user] != s.boxes[user]
    ensures FileLocal(s, [user], domain, mail) == s
  {
    assert LastIndexOf(user, '@') == -1;
    assert Split(user, '@') == [user];
    assert JavaSplit(user, '@') == [user];
    SaveFreshId(s, users, user, mail);
    assert FileAsWritten(s, [user], mail).0 == Save(s, user, mail);
    assert s.idCounter + 1 in Save(s, user, mail).boxes[user];
  }

  /**
   * As written, an entry made only of '@' kills the handler at `send`: its
   * split is empty, so `split[0]` throws. `to` only answers it with an error
   * line, and the corrected filing skips it.
   */
  lemma FileAsWrittenDiesOnBareAts(s: Store, domain: string, users: set<string>, mail: Mail)
    ensures FileAsWritten(s, ["@@"], mail).1
    ensures !ToAnswer("@@", domain, users).1
    ensures FileLocal(s, ["@@"], domain, mail) == s
  {
    assert !ValidMail("@@") by {
      assert IndexOf("@@", '@') == 0;
      assert LastIndexOf("@@", '@') == 1;
    }
    SplitOnlySeparators();
    assert JavaSplit("@@", '@') == [];
  }

  /** The filing loop of `send`, as intended. */
  method FileRecipients(data: UserData, domain: string, mail: Mail)
    requires data.Valid() && mail.to.Some?
    modifies data
    ensures data.State() == FileLocal(old(data.State()), JavaSplit(mail.to.value, ','), domain, mail)
    ensures data.Valid()
  {
    var emails := JavaSplit(mail.to.value, ',');
    var i := 0;
    while i < |emails|
      invariant 0 <= i <= |emails|
      invariant data.Valid()
      invariant FileLocal(data.State(), emails[i..], domain, mail) == FileLocal(old(data.State()), emails, domain, mail)
    {
      var email := emails[i];
      assert emails[i..][1..] == emails[i + 1..];
      if ValidMail(email) && DomainPart(email) == domain {
        data.SaveMail(LocalPart(email), mail);
      }
      i := i + 1;
    }
  }

  // ---------------------------------------------------------------------
  // The session.

  /**
   * A session: the mail under composition, whether the connection is
   * still read, whether the handler died, the replies written so far and
   * the store it files mails in.
   */
  datatype Session = Session(mail: Mail, open: bool, crashed: bool, replies: seq<string>, store: Store)

  /** One command of an open session, with the text after the command word. */
  function Apply(s: Session, command: Command, content: string, domain: string, users: set<string>): Session {
    match command
    case Begin => s.(mail := EmptyMail, replies := s.replies + ["ok"])
    case Hash => s.(mail := s.mail.(hash := Some(content)), replies := s.replies + ["ok"])
    case To =>
      var (lines, crashed) := ToAnswer(content, domain, users);
      s.(mail := s.mail.(to := Some(content)), replies := s.replies + lines, open := !crashed, crashed := crashed)
    case From => s.(mail := s.mail.(from := Some(content)), replies := s.replies + [FromReply(content)])
    case Subject => s.(mail := s.mail.(subject := Some(content)), replies := s.replies + ["ok"])
    case Data => s.(mail := s.mail.(data := Some(content)), replies := s.replies + ["ok"])
    case Send =>
      if !Complete(s.mail) then s.(replies := s.replies + ["error " + IncompleteMessage(s.mail)])
      else
        s.(store := FileLocal(s.store, JavaSplit(s.mail.to.value, ','), domain, s.mail),
           mail := EmptyMail, replies := s.replies + ["ok"])
    case Quit => s.(open := false, replies := s.replies + ["ok bye"])
    case Unknown => s.(open := false, replies := s.replies + [ProtocolError])
  }

  /** One line of an open session. */
  function Step(s: Session, line: string, domain: string, users: set<string>): Session {
    var (word, content) := SplitCommand(line);
    Apply(s, ParseCommand(word), content, domain, users)
  }

  /** The lines read one after the other; nothing is read once the session closed. */
  function Feed(s: Session, lines: seq<string>, domain: string, users: set<string>): Session
    decreases |lines|
  {
    if |lines| == 0 then s
    else
      var t := Feed(s, lines[..|lines| - 1], domain, users);
      if t.open then Step(t, lines[|lines| - 1], domain, users) else t
  }

  /** A whole connection: the greeting, the `begin` gate, then the commands. */
  function Serve(lines: seq<string>, domain: string, users: set<string>, store: Store): Session {
    if |lines| == 0 || lines[0] != "begin" then Session(EmptyMail, false, false, [Greeting, ProtocolError], store)
    else Feed(Session(EmptyMail, true, false, [Greeting, "ok"], store), lines[1..], domain, users)
  }

  /** Once closed, a session reads no further line. */
  lemma {:induction false} FeedClosed(s: Session, lines: seq<string>, i: nat, domain: string, users: set<string>)
    requires i <= |lines|
    requires !Feed(s, lines[..i], domain, users).open
    ensures Feed(s, lines, domain, users) == Feed(s, lines[..i], domain, users)
    decreases |lines| - i
  {
    if i < |lines| {
      assert lines[..i + 1][..i] == lines[..i];
      FeedClosed(s, lines, i + 1, domain, users);
    } else {
      assert lines[..i] == lines;
    }
  }

  /** One command line of an open session: the switch over the command word. */
  method CommandLine(data: UserData, domain: string, s: Session, line: string) returns (r: Session)
    requires data.Valid() && s.store == data.State()
    modifies data
    ensures r == Step(s, line, domain, data.passwords.Keys) && r.store == data.State()
    ensures data.Valid()
  {
    var (word, content) := SplitCommand(line);
    match ParseCommand(word) {
      case Begin =>
        r := s.(mail := EmptyMail, replies := s.replies + ["ok"]);
      case Hash =>
        r := s.(mail := s.mail.(hash := Some(content)), replies := s.replies + ["ok"]);
      case To =>
        var answer, died := CheckRecipients(content, domain, data);
        r := s.(mail := s.mail.(to := Some(content)), replies := s.replies + answer, open := !died, crashed := died);
      case From =>
        if !ValidMail(content) {
          r := s.(mail := s.mail.(from := Some(content)), replies := s.replies + ["error invalid sender email"]);
        } else {
          r := s.(mail := s.mail.(from := Some(content)), replies := s.replies + ["ok"]);
        }
      case Subject =>
        r := s.(mail := s.mail.(subject := Some(content)), replies := s.replies + ["ok"]);
      case Data =>
        r := s.(mail := s.mail.(data := Some(content)), replies := s.replies + ["ok"]);
      case Send =>
        if !Complete(s.mail) {
          r := s.(replies := s.replies + ["error " + IncompleteMessage(s.mail)]);
        } else {
          FileRecipients(data, domain, s.mail);
          r := s.(store := data.State(), mail := EmptyMail, replies := s.replies + ["ok"]);
        }
      case Quit =>
        r := s.(open := false, replies := s.replies + ["ok bye"]);
      case Unknown =>
        r := s.(open := false, replies := s.replies + [ProtocolError]);
    }
  }

  /** run: the connection handler, line by line, filing into the node's store. */
  method Run(data: UserData, domain: string, lines: seq<string>) returns (replies: seq<string>, crashed: bool)
    requires data.Valid()
    modifies data
    ensures var r := Serve(lines, domain, data.passwords.Keys, old(data.State()));
      replies == r.replies && crashed == r.crashed && data.State() == r.store
    ensures data.Valid()
  {
    if |lines| == 0 || lines[0] != "begin" {
      return [Greeting, ProtocolError], false;
    }
    var start := Session(EmptyMail, true, false, [Greeting, "ok"], data.State());
    var s := start;
    var rest := lines[1..];
    var i := 0;
    while i < |rest| && s.open
      invariant 0 <= i <= |rest|
      invariant data.Valid() && s.store == data.State()
      invariant Feed(start, rest[..i], domain, data.passwords.Keys) == s
    {
      assert rest[..i + 1][..i] == rest[..i];
      s := CommandLine(data, domain, s, rest[i]);
      i := i + 1;
    }
    if !s.open {
      FeedClosed(start, rest, i, domain, data.passwords.Keys);
    }
    assert rest[..i] == rest || !s.open;
    return s.replies, s.crashed;
  }

  // ---------------------------------------------------------------------
  // Properties of a session.

  /**
   * A single known local recipient is acknowledged with "ok 1", as a
   * transfer server's relay of a mail for that user expects.
   */
  lemma SingleLocalRecipient(user: string, domain: string, users: set<string>)
    requires user in users && domain != ""
    requires '@' !in user && ' ' !in user && ',' !in user && '@' !in domain && ' ' !in domain && ',' !in domain
    ensures ToAnswer(user + "@" + domain, domain, users) == (["ok 1"], false)
  {
    var entry := user + "@" + domain;
    AddressParts(user, domain);
    assert ',' !in entry by {
      assert entry == user + ['@'] + domain;
    }
    assert JavaSplit(entry, ',') == [entry];
    assert Scan([entry][1..], domain, users) == Tally([], 0, true, false);
    assert Scan([entry], domain, users) == Tally([], 1, true, false);
    assert IntToString(1) == "1";
    assert "ok " + "1" == "ok 1";
    assert [] + ["ok 1"] == ["ok 1"];
  }

  /**
   * One step keeps the store valid and never removes or alters a stored
   * mail; only `send` files mails, and only `to` can kill the handler.
   */
  lemma StepKeepsMail(s: Session, line: string, domain: string, users: set<string>)
    requires StoreValid(s.store, users)
    ensures var r := Step(s, line, domain, users);
      && StoreValid(r.store, users)
      && (forall u, k :: u in s.store.boxes && k in s.store.boxes[u] ==>
            k in r.store.boxes[u] && r.store.boxes[u][k] == s.store.boxes[u][k])
      && (r.store != s.store ==> ParseCommand(SplitCommand(line).0) == Send)
      && (r.crashed != s.crashed ==> ParseCommand(SplitCommand(line).0) == To)
  {
    var (word, content) := SplitCommand(line);
    if ParseCommand(word) == Send && Complete(s.mail) {
      FileLocalEffect(s.store, users, JavaSplit(s.mail.to.value, ','), domain, s.mail);
    }
  }

  /** A whole relay session keeps the store valid and never removes or alters a stored mail. */
  lemma {:induction false} FeedKeepsMail(s: Session, lines: seq<string>, domain: string, users: set<string>)
    requires StoreValid(s.store, users)
    ensures var r := Feed(s, lines, domain, users);
      && StoreValid(r.store, users)
      && (forall u, k :: u in s.store.boxes && k in s.store.boxes[u] ==>
            k in r.store.boxes[u] && r.store.boxes[u][k] == s.store.boxes[u][k])
    decreases |lines|
  {
    if |lines| > 0 {
      var t := Feed(s, lines[..|lines| - 1], domain, users);
      FeedKeepsMail(s, lines[..|lines| - 1], domain, users);
      if t.open {
        StepKeepsMail(t, lines[|lines| - 1], domain, users);
      }
    }
  }

  /** Without `begin` first, the session answers the protocol error, ends, and files nothing. */
  lemma BeginGate(lines: seq<string>, domain: string, users: set<string>, store: Store)
    requires !(|lines| > 0 && lines[0] == "begin")
    ensures var r := Serve(lines, domain, users, store);
      r.replies == [Greeting, ProtocolError] && !r.open && r.store == store
  {
  }
}
