/**
 * The access side of a mailbox server: a user's client logs in, lists,
 * shows and deletes the mails filed for that user. The session may first
 * switch to an encrypted channel with `startsecure`; the model works on the
 * lines as read and written in the clear, and the cryptography is given as
 * an oracle.
 */
module DmapSession {
  import opened Optional
  import opened Text
  import opened Mails
  import opened MailStore

  const Greeting := "ok DMAP2.0"
  const NotLoggedIn := "error not logged in"
  const UnknownId := "error unknown message id"
  const WrongFormat := "error wrong format for number: 'show number'"
  const LoginSyntax := "error syntax: 'login username password'"

  /** What installing the session key proposed by the client gives. */
  datatype KeyCheck =
    | BadEncoding   // a key or IV that is not Base64: an exception the handshake catches
    | KeyFails      // the cipher refuses the key: the connection is closed
    | KeyWorks

  /**
   * The cryptography the handshake relies on: whether the server's private
   * key can be loaded, the RSA decryption of the client's answer (None when
   * it throws), and the check of the proposed AES key and IV.
   */
  datatype Crypto = Crypto(hasPrivateKey: bool, unwrap: string -> Option<string>, keyCheck: (string, string) -> KeyCheck)

  /** Where the handshake stands: no handshake, waiting for the client's answer, or for its "ok". */
  datatype Phase = Ready | AwaitAnswer | AwaitAck

  /**
   * A session: the logged-in user, the handshake phase, whether the channel
   * is encrypted, whether the connection is still read, whether the handler
   * died, the replies written so far and the store.
   */
  datatype Session = Session(
    user: Option<string>, phase: Phase, secure: bool,
    open: bool, crashed: bool, replies: seq<string>, store: Store)

  /** What the handler knows of its node: its component id, the user table and the cryptography. */
  datatype Node = Node(componentId: string, passwords: map<string, string>, crypto: Crypto)

  /** The commands of the access protocol; any other word is Unknown. */
  datatype Command = StartSecure | Login | List | Show | Delete | Logout | Quit | Unknown

  function ParseCommand(word: string): Command {
    if word == "startsecure" then StartSecure
    else if word == "login" then Login
    else if word == "list" then List
    else if word == "show" then Show
    else if word == "delete" then Delete
    else if word == "logout" then Logout
    else if word == "quit" then Quit
    else Unknown
  }

  function Say(s: Session, lines: seq<string>): Session {
    s.(replies := s.replies + lines)
  }

  function Close(s: Session): Session {
    s.(open := false)
  }

  /** An uncaught runtime exception: the handler thread dies without another reply. */
  function Crash(s: Session): Session {
    s.(open := false, crashed := true)
  }

  /** login: two space-separated words, a configured user and that user's password. */
  function LoginStep(s: Session, content: string, node: Node): (r: Session)
    ensures r.secure == s.secure && r.phase == s.phase && r.store == s.store
  {
    var split := JavaSplit(content, ' ');
    if |split| != 2 then Say(s, [LoginSyntax])
    else if split[0] !in node.passwords then Say(s, ["error unknown user"])
    else if node.passwords[split[0]] != split[1] then Say(s, ["error wrong password"])
    else Say(s.(user := Some(split[0])), ["ok"])
  }

  /** list: the logged-in user's listing; a user without a mailbox raises an exception. */
  ghost function ListStep(s: Session): (r: Session)
    ensures r.secure == s.secure && r.phase == s.phase && r.store == s.store
  {
    if s.user.None? then Say(s, [NotLoggedIn])
    else
      match MailStore.List(s.store, s.user.value)
      case None => Crash(s)
      case Some(lines) => Say(s, lines + ["ok"])
  }

  /** show: the mail's lines for a decimal id; a too large number raises an exception. */
  function ShowStep(s: Session, content: string): (r: Session)
    ensures r.secure == s.secure && r.phase == s.phase && r.store == s.store
  {
    if s.user.None? then Say(s, [NotLoggedIn])
    else if !IsDigits(content) then Say(s, [WrongFormat])
    else
      match ParseLong(content)
      case None => Crash(s)
      case Some(id) =>
        match Load(s.store, s.user.value, id)
        case None => Say(s, [UnknownId])
        case Some(lines) => Say(s, lines + ["ok"])
  }

  /** delete: removes the mail; an argument that is no number raises an exception. */
  function DeleteStep(s: Session, content: string): (r: Session)
    ensures r.secure == s.secure && r.phase == s.phase
    ensures r.store == s.store ||
      (s.user.Some? && ParseLong(content).Some? && r.store == MailStore.Delete(s.store, s.user.value, ParseLong(content).value).1)
  {
    if s.user.None? then Say(s, [NotLoggedIn])
    else
      match ParseLong(content)
      case None => Crash(s)
      case Some(id) =>
        var (ok, store) := MailStore.Delete(s.store, s.user.value, id);
        if !ok then Say(s, [UnknownId]) else Say(s.(store := store), ["ok"])
  }

  /** One command line of a session with no handshake under way. */
  ghost function Apply(s: Session, command: Command, content: string, node: Node): Session {
    match command
    case StartSecure =>
      var s' := Say(s, ["ok " + node.componentId]);
      if node.crypto.hasPrivateKey then s'.(phase := AwaitAnswer) else s'
    case Login => LoginStep(s, content, node)
    case List => ListStep(s)
    case Show => ShowStep(s, content)
    case Delete => DeleteStep(s, content)
    case Logout =>
      if s.user.None? then Say(s, [NotLoggedIn]) else Say(s.(user := None), ["ok"])
    case Quit => Close(Say(s, ["ok bye"]))
    case Unknown => Close(Say(s, ["error protocol error"]))
  }

  function Answer(s: Session, line: string, node: Node): Session {
    match node.crypto.unwrap(line)
    case None => s.(phase := Ready)
    case Some(answer) =>
      var tokens := JavaSplit(answer, ' ');
      if |tokens| != 4 || tokens[0] != "ok" then Close(s)
      else
        match node.crypto.keyCheck(tokens[2], tokens[3])
        case BadEncoding => s.(phase := Ready)
        case KeyFails => Close(s)
        case KeyWorks => Say(s.(phase := AwaitAck, secure := true), ["ok " + tokens[1]])
  }

  /** One line read by the handler, whatever the phase. */
  ghost function Step(s: Session, line: string, node: Node): Session {
    match s.phase
    case AwaitAnswer => Answer(s, line, node)
    case AwaitAck => if line != "ok" then Close(s) else s.(phase := Ready)
    case Ready =>
      var (word, content) := SplitCommand(line);
      Apply(s, ParseCommand(word), content, node)
  }

  /** The lines read one after the other; nothing is read once the session closed. */
  ghost function Feed(s: Session, lines: seq<string>, node: Node): Session
    decreases |lines|
  {
    if |lines| == 0 then s
    else
      var t := Feed(s, lines[..|lines| - 1], node);
      if t.open then Step(t, lines[|lines| - 1], node) else t
  }

  function Start(store: Store): Session {
    Session(None, Ready, false, true, false, [Greeting], store)
  }

  /** A whole connection: the greeting, then the lines the client sends. */
  ghost function Serve(lines: seq<string>, node: Node, store: Store): Session {
    Feed(Start(store), lines, node)
  }

  /** Once closed, a session reads no further line. */
  lemma {:induction false} FeedClosed(s: Session, lines: seq<string>, i: nat, node: Node)
    requires i <= |lines|
    requires !Feed(s, lines[..i], node).open
    ensures Feed(s, lines, node) == Feed(s, lines[..i], node)
    decreases |lines| - i
  {
    if i < |lines| {
      assert lines[..i + 1][..i] == lines[..i];
      FeedClosed(s, lines, i + 1, node);
    } else {
      assert lines[..i] == lines;
    }
  }

  /** The handshake line the handler reads after "ok <component id>" or after its own "ok <challenge>". */
  method HandshakeLine(s: Session, line: string, node: Node) returns (r: Session)
    requires s.phase != Ready
    ensures r == Step(s, line, node)
  {
    r := s;
    if s.phase == AwaitAck {
      if line != "ok" {
        r := Close(s);
      } else {
        r := s.(phase := Ready);
      }
      return;
    }
    var unwrapped := node.crypto.unwrap(line);
    if unwrapped.None? {
      r := s.(phase := Ready);
      return;
    }
    var tokens := JavaSplit(unwrapped.value, ' ');
    if |tokens| != 4 || tokens[0] != "ok" {
      r := Close(s);
      return;
    }
    var check := node.crypto.keyCheck(tokens[2], tokens[3]);
    if check == BadEncoding {
      r := s.(phase := Ready);
    } else if check == KeyFails {
      r := Close(s);
    } else {
      r := s.(phase := AwaitAck, secure := true, replies := s.replies + ["ok " + tokens[1]]);
    }
  }

  /** The `list` branch of the command switch. */
  method ListLine(data: UserData, s: Session) returns (r: Session)
    requires s.store == data.State()
    ensures r == ListStep(s)
  {
    if s.user.None? {
      r := Say(s, [NotLoggedIn]);
    } else {
      var listed := data.ListMail(s.user.value);
      if listed.None? {
        r := Crash(s);
      } else {
        r := Say(s, listed.value + ["ok"]);
      }
    }
  }

  /** The `show` branch of the command switch. */
  method ShowLine(data: UserData, s: Session, content: string) returns (r: Session)
    requires s.store == data.State()
    ensures r == ShowStep(s, content)
  {
    if s.user.None? {
      r := Say(s, [NotLoggedIn]);
    } else if !IsDigits(content) {
      r := Say(s, [WrongFormat]);
    } else {
      var id := ParseLong(content);
      if id.None? {
        r := Crash(s);
      } else {
        var shown := data.LoadMail(s.user.value, id.value);
        if shown.None? {
          r := Say(s, [UnknownId]);
        } else {
          r := Say(s, shown.value + ["ok"]);
        }
      }
    }
  }

  /** The `delete` branch of the command switch. */
  method DeleteLine(data: UserData, s: Session, content: string) returns (r: Session)
    requires data.Valid() && s.store == data.State()
    modifies data
    ensures r == DeleteStep(s, content) && r.store == data.State()
    ensures data.Valid()
  {
    if s.user.None? {
      r := Say(s, [NotLoggedIn]);
    } else {
      var id := ParseLong(content);
      if id.None? {
        r := Crash(s);
      } else {
        var ok := data.DeleteMail(s.user.value, id.value);
        if !ok {
          r := Say(s, [UnknownId]);
        } else {
          r := Say(s.(store := data.State()), ["ok"]);
        }
      }
    }
  }

  /** The `login` branch of the command switch. */
  method LoginLine(data: UserData, s: Session, content: string, node: Node) returns (r: Session)
    requires node.passwords == data.passwords
    ensures r == LoginStep(s, content, node)
  {
    var split := JavaSplit(content, ' ');
    if |split| != 2 {
      r := Say(s, [LoginSyntax]);
    } else {
      var pw := data.Lookup(split[0]);
      if pw.None? {
        r := Say(s, ["error unknown user"]);
      } else if pw.value != split[1] {
        r := Say(s, ["error wrong password"]);
      } else {
        r := Say(s.(user := Some(split[0])), ["ok"]);
      }
    }
  }

  /** The switch over the command word. */
  method Dispatch(data: UserData, s: Session, command: Command, content: string, node: Node) returns (r: Session)
    requires data.Valid() && s.store == data.State()
    requires node.componentId == data.componentId && node.passwords == data.passwords
    modifies data
    ensures r == Apply(s, command, content, node) && r.store == data.State()
    ensures data.Valid()
  {
    match command {
      case StartSecure =>
        r := Say(s, ["ok " + data.componentId]);
        if node.crypto.hasPrivateKey {
          r := r.(phase := AwaitAnswer);
        }
      case Login =>
        r := LoginLine(data, s, content, node);
      case List =>
        r := ListLine(data, s);
      case Show =>
        r := ShowLine(data, s, content);
      case Delete =>
        r := DeleteLine(data, s, content);
      case Logout =>
        if s.user.None? {
          r := Say(s, [NotLoggedIn]);
        } else {
          r := Say(s.(user := None), ["ok"]);
        }
      case Quit =>
        r := Close(Say(s, ["ok bye"]));
      case Unknown =>
        r := Close(Say(s, ["error protocol error"]));
    }
  }

  /** A command line: the command word and its argument. */
  method CommandLine(data: UserData, s: Session, line: string, node: Node) returns (r: Session)
    requires data.Valid() && s.phase == Ready && s.store == data.State()
    requires node.componentId == data.componentId && node.passwords == data.passwords
    modifies data
    ensures r == Step(s, line, node) && r.store == data.State()
    ensures data.Valid()
  {
    var (word, content) := SplitCommand(line);
    r := Dispatch(data, s, ParseCommand(word), content, node);
  }

  /** One line read by the handler: a handshake line or a command. */
  method ReadLine(data: UserData, s: Session, line: string, node: Node) returns (r: Session)
    requires data.Valid() && s.store == data.State()
    requires node.componentId == data.componentId && node.passwords == data.passwords
    modifies data
    ensures r == Step(s, line, node) && r.store == data.State()
    ensures data.Valid()
  {
    if s.phase != Ready {
      r := HandshakeLine(s, line, node);
      assert r.store == s.store;
    } else {
      r := CommandLine(data, s, line, node);
    }
  }

  /** run: the connection handler over a node's store, line by line. */
  method Run(data: UserData, crypto: Crypto, lines: seq<string>) returns (replies: seq<string>, crashed: bool)
    requires data.Valid()
    modifies data
    ensures var r := Serve(lines, Node(data.componentId, data.passwords, crypto), old(data.State()));
      replies == r.replies && crashed == r.crashed && data.State() == r.store
    ensures data.Valid()
  {
    var node := Node(data.componentId, data.passwords, crypto);
    var s := Start(data.State());
    var i := 0;
    while i < |lines| && s.open
      invariant 0 <= i <= |lines|
      invariant data.Valid() && s.store == data.State()
      invariant Feed(Start(old(data.State())), lines[..i], node) == s
    {
      assert lines[..i + 1][..i] == lines[..i];
      s := ReadLine(data, s, lines[i], node);
      i := i + 1;
    }
    if !s.open {
      FeedClosed(Start(old(data.State())), lines, i, node);
    }
    assert lines[..i] == lines || !s.open;
    return s.replies, s.crashed;
  }

  // ---------------------------------------------------------------------
  // Properties of a session.

  /** Before a login, every mailbox command is refused and changes nothing else. */
  lemma NotLoggedInRefused(s: Session, command: Command, content: string, node: Node)
    requires s.user.None? && command in {List, Show, Delete, Logout}
    ensures Apply(s, command, content, node) == s.(replies := s.replies + [NotLoggedIn])
  {
  }

  /**
   * A login succeeds, and answers "ok", exactly for two space-separated
   * words naming a configured user and that user's password; a failed login
   * keeps whatever user was logged in.
   */
  lemma LoginIff(s: Session, content: string, node: Node)
    ensures var r := LoginStep(s, content, node);
      var split := JavaSplit(content, ' ');
      && (r.replies == s.replies + ["ok"] <==>
            |split| == 2 && split[0] in node.passwords && node.passwords[split[0]] == split[1])
      && (r.replies == s.replies + ["ok"] ==> r.user == Some(split[0]))
      && (r.replies != s.replies + ["ok"] ==> r.user == s.user)
      && r.store == s.store && r.open == s.open && r.phase == s.phase
  {
    var r := LoginStep(s, content, node);
    var split := JavaSplit(content, ' ');
    if !(|split| == 2 && split[0] in node.passwords && node.passwords[split[0]] == split[1]) {
      assert r.replies[|s.replies|] != "ok";
    }
  }

  /** `login <user> <password>` with words free of spaces logs in exactly on a matching password. */
  lemma LoginWords(s: Session, name: string, password: string, node: Node)
    requires ' ' !in name && ' ' !in password && password != ""
    ensures var r := LoginStep(s, name + " " + password, node);
      r.user == if name in node.passwords && node.passwords[name] == password then Some(name) else s.user
  {
    var content := name + " " + password;
    assert content == name + [' '] + password;
    SplitOnce(name, ' ', password);
    DropTrailingEmptyPrefix([name, password]);
    assert content[|name|] == ' ';
    assert JavaSplit(content, ' ') == [name, password];
  }

  /**
   * `show` of a mail id written in decimal answers the mail's five field
   * lines and "ok" when the logged-in user has that mail, and "error unknown
   * message id" otherwise.
   */
  lemma ShowById(s: Session, id: nat, node: Node)
    requires s.user.Some? && id <= LongMax
    ensures Apply(s, Show, NatToString(id), node) ==
      match Load(s.store, s.user.value, id)
      case None => s.(replies := s.replies + [UnknownId])
      case Some(lines) => s.(replies := s.replies + lines + ["ok"])
  {
    assert Apply(s, Show, NatToString(id), node) == ShowStep(s, NatToString(id));
    ShowStepById(s, id);
  }

  lemma ShowStepById(s: Session, id: nat)
    requires s.user.Some? && id <= LongMax
    ensures ShowStep(s, NatToString(id)) ==
      match Load(s.store, s.user.value, id)
      case None => s.(replies := s.replies + [UnknownId])
      case Some(lines) => s.(replies := s.replies + lines + ["ok"])
  {
    ParseNatString(id);
  }

  /** A mail once deleted can no longer be shown, and deleting it again fails. */
  lemma DeleteThenShow(s: Session, id: nat, node: Node, users: set<string>)
    requires s.user.Some? && id <= LongMax && StoreValid(s.store, users)
    requires s.user.value in s.store.boxes && id in s.store.boxes[s.user.value]
    ensures var d := Apply(s, Delete, NatToString(id), node);
      && d.replies == s.replies + ["ok"] && d.open == s.open
      && Apply(d, Show, NatToString(id), node).replies == d.replies + [UnknownId]
      && Apply(d, Delete, NatToString(id), node).replies == d.replies + [UnknownId]
  {
    ParseNatString(id);
    var user := s.user.value;
    DeleteOnlyThatMail(s.store, users, user, id);
    var (ok, store) := MailStore.Delete(s.store, user, id);
    assert ok;
    var d := Apply(s, Delete, NatToString(id), node);
    assert d == Say(s.(store := store), ["ok"]);
    DeleteOnlyThatMail(d.store, users, user, id);
    ShowById(d, id, node);
  }

  /**
   * What a command line may do besides replying: only `delete` touches the
   * store, and nothing but a handshake changes the security of the channel.
   */
  lemma ApplyFrame(s: Session, command: Command, content: string, node: Node)
    ensures var r := Apply(s, command, content, node);
      && r.secure == s.secure
      && (r.phase == s.phase || (command == StartSecure && r.phase == AwaitAnswer))
      && (r.store == s.store ||
            (command == Delete && s.user.Some? && ParseLong(content).Some? &&
             r.store == MailStore.Delete(s.store, s.user.value, ParseLong(content).value).1))
  {
  }

  /**
   * A step keeps the store valid and only removes mails, and only from the
   * mailbox of the user logged in.
   */
  lemma StepOnlyRemovesOwnMail(s: Session, line: string, node: Node, users: set<string>)
    requires StoreValid(s.store, users)
    ensures var r := Step(s, line, node);
      && StoreValid(r.store, users)
      && r.store.boxes.Keys == s.store.boxes.Keys
      && (forall u, k :: u in r.store.boxes && k in r.store.boxes[u] ==>
            k in s.store.boxes[u] && r.store.boxes[u][k] == s.store.boxes[u][k])
      && (forall u :: u in s.store.boxes && r.store.boxes[u] != s.store.boxes[u] ==> s.user == Some(u))
  {
    var r := Step(s, line, node);
    if s.phase == Ready {
      var (word, content) := SplitCommand(line);
      ApplyFrame(s, ParseCommand(word), content, node);
      if r.store != s.store {
        var user, id := s.user.value, ParseLong(content).value;
        assert r.store == MailStore.Delete(s.store, user, id).1;
        DeleteRemovesOwn(s.store, users, user, id);
      }
    } else {
      assert r.store == s.store;
    }
  }

  /** Deleting from one user's mailbox only removes that mail, and only there. */
  lemma DeleteRemovesOwn(store: Store, users: set<string>, user: string, id: int)
    requires StoreValid(store, users)
    ensures var after := MailStore.Delete(store, user, id).1;
      && StoreValid(after, users)
      && after.boxes.Keys == store.boxes.Keys
      && (forall u, k :: u in after.boxes && k in after.boxes[u] ==>
            k in store.boxes[u] && after.boxes[u][k] == store.boxes[u][k])
      && (forall u :: u in store.boxes && after.boxes[u] != store.boxes[u] ==> u == user)
  {
    DeleteOnlyThatMail(store, users, user, id);
  }

  /** A whole session keeps the store valid and never adds or alters a mail. */
  lemma {:induction false} FeedOnlyRemoves(s: Session, lines: seq<string>, node: Node, users: set<string>)
    requires StoreValid(s.store, users)
    ensures var r := Feed(s, lines, node);
      && StoreValid(r.store, users)
      && (forall u, k :: u in r.store.boxes && k in r.store.boxes[u] ==>
            u in s.store.boxes && k in s.store.boxes[u] && r.store.boxes[u][k] == s.store.boxes[u][k])
    decreases |lines|
  {
    if |lines| > 0 {
      var t := Feed(s, lines[..|lines| - 1], node);
      FeedOnlyRemoves(s, lines[..|lines| - 1], node, users);
      if t.open {
        StepOnlyRemovesOwnMail(t, lines[|lines| - 1], node, users);
      }
    }
  }

  /**
   * The channel becomes secure only on a client answer that decrypts to
   * "ok <challenge> <key> <iv>" with a working key, and the server then
   * answers "ok <challenge>".
   */
  lemma SecureOnlyAfterHandshake(s: Session, line: string, node: Node)
    requires !s.secure
    ensures var r := Step(s, line, node);
      r.secure ==>
        && s.phase == AwaitAnswer
        && node.crypto.unwrap(line).Some?
        && var tokens := JavaSplit(node.crypto.unwrap(line).value, ' ');
          && |tokens| == 4 && tokens[0] == "ok"
          && node.crypto.keyCheck(tokens[2], tokens[3]) == KeyWorks
          && r.replies == s.replies + ["ok " + tokens[1]]
          && r.phase == AwaitAck
  {
    if s.phase == Ready {
      var (word, content) := SplitCommand(line);
      ApplyFrame(s, ParseCommand(word), content, node);
    }
  }
}
