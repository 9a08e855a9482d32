/**
 * The delivery engine of a transfer server: for each recipient domain of a
 * submitted mail, resolve the domain through the nameserver directory, relay
 * the mail's submission lines to the mailbox server found, and collect the
 * failures into one bounce to the sender. The registry is the root zone (or
 * None when it cannot be reached); the mailbox servers are an oracle giving
 * how the server at an address answers a sequence of lines.
 */
module Delivery {
  import opened Optional
  import opened Text
  import opened Mails
  import opened Directory

  /** An I/O exception: its toString() text, and whether it is a java.net.SocketException. */
  datatype IoError = IoError(text: string, socketError: bool)

  /** What one readLine() on the connection gives: a line, null, or an exception. */
  datatype Reply = Line(text: string) | EndOfStream | ReadFailed(error: IoError)

  /**
   * A mailbox server as seen from the sender: the connection attempt fails,
   * or it succeeds and the server sends a greeting and then one reply per
   * line received (a reply past the end of `replies` is the end of the stream).
   */
  datatype Peer = ConnectFailed(error: IoError) | Connected(greeting: Reply, replies: seq<Reply>)

  /**
   * sendMessage's result: null (Delivered), an error text (Failed), or an
   * uncaught runtime exception that ends the sender thread (Crashed).
   */
  datatype SendResult = Delivered | Failed(message: string) | Crashed

  datatype Resolution = Resolved(address: string) | NotFound(message: string) | ResolveCrashed

  const Greeting := "ok DMTP2.0"

  function DomainNotFoundText(domain: string): string {
    "Domain '" + domain + "' not found. "
  }

  function NameserverNotFoundText(name: string, domain: string): string {
    "Nameserver '" + name + "' for domain '" + domain + "' not found. "
  }

  function WrongProtocolText(domain: string): string {
    "Wrong Domain Protocol '" + domain + "'. "
  }

  function WrongResponseText(domain: string, message: string): string {
    "Wrong Domain Response at '" + domain + "' after message '" + message + "'. "
  }

  // ---------------------------------------------------------------------
  // Resolution.

  /**
   * The domain's labels from the last down to the second name nameservers to
   * descend through; the first label is looked up as a mailbox there. A
   * domain that splits into no labels at all (such as ".") makes the lookup
   * of label 0 fail with an index exception.
   */
  function Resolve(registry: Option<Zone>, domain: string): Resolution {
    if registry.None? then NotFound(DomainNotFoundText(domain))
    else
      var split := JavaSplit(domain, '.');
      if |split| == 0 then ResolveCrashed
      else
        match Walk(registry.value, Reverse(split[1..]))
        case Missing(n) => NotFound(NameserverNotFoundText(n, domain))
        case Reached(z) =>
          match Lookup(z, split[0])
          case None => NotFound(DomainNotFoundText(domain))
          case Some(address) => Resolved(address)
  }

  lemma ReverseStep(s: seq<string>, i: int)
    requires 1 <= i < |s|
    ensures Reverse(s[1..i + 1]) == [s[i]] + Reverse(s[1..i])
  {
    var a, b := Reverse(s[1..i + 1]), [s[i]] + Reverse(s[1..i]);
    assert |a| == |b|;
    forall k | 0 <= k < |a| ensures a[k] == b[k] {
      if k > 0 {
        assert a[k] == s[1..i + 1][i - 1 - k];
      }
    }
  }

  /** The resolution part of sendMessage: a loop down the labels, then one lookup. */
  method ResolveDomain(registry: Option<Zone>, domain: string) returns (r: Resolution)
    ensures r == Resolve(registry, domain)
  {
    if registry.None? {
      return NotFound(DomainNotFoundText(domain));
    }
    var server := registry.value;
    var split := JavaSplit(domain, '.');
    var i := |split| - 1;
    if |split| > 0 {
      assert split[1..i + 1] == split[1..];
    }
    while i > 0
      invariant -1 <= i < |split|
      invariant |split| > 0 ==> 0 <= i && Walk(registry.value, Reverse(split[1..])) == Walk(server, Reverse(split[1..i + 1]))
      decreases i
    {
      ReverseStep(split, i);
      var next := GetNameserver(server, split[i]);
      if next.None? {
        return NotFound(NameserverNotFoundText(split[i], domain));
      }
      server := next.value;
      i := i - 1;
    }
    if |split| == 0 {
      return ResolveCrashed;
    }
    assert split[1..1] == [];
    var address := Lookup(server, split[0]);
    if address.None? {
      return NotFound(DomainNotFoundText(domain));
    }
    return Resolved(address.value);
  }

  /** Java's split drops nothing from a name that does not end with '.'. */
  lemma JavaSplitOfName(domain: string)
    requires |domain| == 0 || domain[|domain| - 1] != '.'
    ensures JavaSplit(domain, '.') == Split(domain, '.')
  {
    if '.' in domain {
      var k := LastIndexOf(domain, '.');
      var parts := Split(domain, '.');
      assert parts[|parts| - 1] == domain[k + 1..];
      assert domain[|domain| - 1] in domain[k + 1..];
    }
  }

  /** The zones resolution descends through are the registration's parent path, and the leaf is label 0. */
  lemma PathOfSplit(domain: string)
    ensures var split := Split(domain, '.');
      ParentPath(domain) == Reverse(split[1..]) && Leaf(domain) == split[0]
  {
    LabelsJoin(domain);
    var split := Split(domain, '.');
    var path := Labels(domain);
    var a, b := ParentPath(domain), Reverse(split[1..]);
    assert |a| == |b|;
    forall k | 0 <= k < |a| ensures a[k] == b[k] {
      assert a[k] == path[k];
    }
  }

  /**
   * A mailbox server registered under a name that does not end with '.' is
   * what the sender's resolution of that name finds.
   */
  lemma ResolveAfterRegister(z: Zone, domain: string, address: string)
    requires RegisterMailboxServer(z, domain, address).Done?
    requires |domain| == 0 || domain[|domain| - 1] != '.'
    ensures Resolve(Some(RegisterMailboxServer(z, domain, address).zone), domain) == Resolved(address)
  {
    RegisterMailboxServerByPath(z, domain, address);
    JavaSplitOfName(domain);
    PathOfSplit(domain);
  }

  // ---------------------------------------------------------------------
  // Relaying one mail to one mailbox server.

  /** How an I/O exception ends the relay: its text is the failure. */
  function OnIoError(e: IoError, socketErrorsSucceed: bool): SendResult {
    if socketErrorsSucceed && e.socketError then Delivered else Failed(e.text)
  }

  function ReplyAt(replies: seq<Reply>, i: nat): Reply {
    if i < |replies| then replies[i] else EndOfStream
  }

  /** The replies from line i on: every one must be a line starting with "ok". */
  function CheckReplies(replies: seq<Reply>, domain: string, lines: seq<string>, i: nat, socketErrorsSucceed: bool): SendResult
    decreases |lines| - i
  {
    if i >= |lines| then Delivered
    else
      match ReplyAt(replies, i)
      case EndOfStream => Crashed
      case ReadFailed(e) => OnIoError(e, socketErrorsSucceed)
      case Line(t) =>
        if !StartsWith(t, "ok") then Failed(WrongResponseText(domain, lines[i]))
        else CheckReplies(replies, domain, lines, i + 1, socketErrorsSucceed)
  }

  /**
   * The conversation with one mailbox server: the greeting must be exactly
   * "ok DMTP2.0", then every line sent must get a reply starting with "ok".
   * A null greeting or reply is dereferenced and crashes the sender.
   */
  function Conversation(peer: Peer, domain: string, lines: seq<string>, socketErrorsSucceed: bool): SendResult {
    match peer
    case ConnectFailed(e) => OnIoError(e, socketErrorsSucceed)
    case Connected(greeting, replies) =>
      match greeting
      case EndOfStream => Crashed
      case ReadFailed(e) => OnIoError(e, socketErrorsSucceed)
      case Line(t) =>
        if t != Greeting then Failed(WrongProtocolText(domain))
        else CheckReplies(replies, domain, lines, 0, socketErrorsSucceed)
  }

  /**
   * The relay as written: a SocketException (a refused or reset connection
   * among them) is caught without returning its text, so the relay reports
   * success.
   */
  function ConverseAsWritten(peer: Peer, domain: string, lines: seq<string>): SendResult {
    Conversation(peer, domain, lines, true)
  }

  /** The relay with every I/O exception reported as the failure it is. */
  function Converse(peer: Peer, domain: string, lines: seq<string>): SendResult {
    Conversation(peer, domain, lines, false)
  }

  /** A mailbox server that refuses the connection counts as delivered as written. */
  lemma SocketErrorCountsAsDelivered(domain: string, lines: seq<string>, text: string)
    ensures ConverseAsWritten(ConnectFailed(IoError(text, true)), domain, lines) == Delivered
    ensures Converse(ConnectFailed(IoError(text, true)), domain, lines) == Failed(text)
  {
  }

  predicate OkReply(r: Reply) {
    r.Line? && StartsWith(r.text, "ok")
  }

  lemma {:induction false} CheckRepliesDelivered(replies: seq<Reply>, domain: string, lines: seq<string>, i: nat)
    requires i <= |lines|
    ensures CheckReplies(replies, domain, lines, i, false) == Delivered <==>
      forall j :: i <= j < |lines| ==> OkReply(ReplyAt(replies, j))
    decreases |lines| - i
  {
    if i < |lines| {
      CheckRepliesDelivered(replies, domain, lines, i + 1);
    }
  }

  /**
   * A relay succeeds exactly when the connection is made, the greeting is
   * exactly "ok DMTP2.0", and every line sent gets a reply starting with "ok".
   */
  lemma DeliveredOnlyAfterOkReplies(peer: Peer, domain: string, lines: seq<string>)
    ensures Converse(peer, domain, lines) == Delivered <==>
      && peer.Connected?
      && peer.greeting == Line(Greeting)
      && forall j :: 0 <= j < |lines| ==> OkReply(ReplyAt(peer.replies, j))
  {
    if peer.Connected? {
      CheckRepliesDelivered(peer.replies, domain, lines, 0);
    }
  }

  /**
   * The relay stops at the first reply that is a line not starting with
   * "ok", and the failure names the line that reply answered.
   */
  lemma {:induction false} StopsAtFirstBadReply(replies: seq<Reply>, domain: string, lines: seq<string>, i: nat, j: nat)
    requires i <= j < |lines|
    requires forall k :: i <= k < j ==> OkReply(ReplyAt(replies, k))
    requires ReplyAt(replies, j).Line? && !OkReply(ReplyAt(replies, j))
    ensures CheckReplies(replies, domain, lines, i, false) == Failed(WrongResponseText(domain, lines[j]))
    decreases j - i
  {
    if i < j {
      StopsAtFirstBadReply(replies, domain, lines, i + 1, j);
    }
  }

  /** The reply check of sendMessage: one reply read per line sent. */
  method Relay(peer: Peer, domain: string, lines: seq<string>) returns (r: SendResult)
    ensures r == Converse(peer, domain, lines)
  {
    if peer.ConnectFailed? {
      return Failed(peer.error.text);
    }
    match peer.greeting {
      case EndOfStream => return Crashed;
      case ReadFailed(e) => return Failed(e.text);
      case Line(t) =>
        if t != Greeting {
          return Failed(WrongProtocolText(domain));
        }
    }
    var i := 0;
    while i < |lines|
      invariant 0 <= i <= |lines|
      invariant CheckReplies(peer.replies, domain, lines, i, false) == Converse(peer, domain, lines)
    {
      var response := ReplyAt(peer.replies, i);
      match response {
        case EndOfStream => return Crashed;
        case ReadFailed(e) => return Failed(e.text);
        case Line(t) =>
          if !StartsWith(t, "ok") {
            return Failed(WrongResponseText(domain, lines[i]));
          }
      }
      i := i + 1;
    }
    return Delivered;
  }

  // ---------------------------------------------------------------------
  // sendMessage.

  /**
   * The port of an "ip:port" address, or None when the address has no port
   * part, the port is not a number, or it is outside 0..65535 (each an
   * unchecked exception in the sender).
   */
  function PortOf(address: string): Option<int> {
    var ipPort := JavaSplit(address, ':');
    if |ipPort| < 2 then None
    else
      match ParseLong(ipPort[1])
      case None => None
      case Some(p) => if 0 <= p <= 65535 then Some(p) else None
  }

  /** sendMessage: resolve the domain, then relay the mail's lines to the address found. */
  function SendMessageSpec(registry: Option<Zone>, peers: (string, seq<string>) -> Peer, domain: string, mail: Mail): SendResult {
    match Resolve(registry, domain)
    case ResolveCrashed => Crashed
    case NotFound(message) => Failed(message)
    case Resolved(address) =>
      if PortOf(address).None? then Crashed
      else Converse(peers(address, Messages(mail)), domain, Messages(mail))
  }

  method SendMessage(registry: Option<Zone>, peers: (string, seq<string>) -> Peer, domain: string, mail: Mail)
    returns (r: SendResult)
    ensures r == SendMessageSpec(registry, peers, domain, mail)
  {
    var lookup := ResolveDomain(registry, domain);
    match lookup {
      case ResolveCrashed => return Crashed;
      case NotFound(message) => return Failed(message);
      case Resolved(address) =>
        if PortOf(address).None? {
          return Crashed;
        }
        var lines := Messages(mail);
        r := Relay(peers(address, lines), domain, lines);
    }
  }

  // ---------------------------------------------------------------------
  // run: one attempt per domain, failures collected, one bounce.

  /**
   * The bookkeeping of run: the domains already sent to and those that
   * failed, the recipients in failed domains, the failure texts, and the
   * domains sendMessage was called for, in call order.
   */
  datatype Progress = Progress(
    sent: set<string>,
    failed: set<string>,
    failMails: seq<string>,
    failData: string,
    attempts: seq<string>)

  const Start := Progress({}, {}, [], "", [])

  /** The domain of a recipient (index 1 of split("@")), or None when that index does not exist. */
  function RecipientDomain(recipient: string): Option<string> {
    var split := JavaSplit(recipient, '@');
    if |split| < 2 then None else Some(split[1])
  }

  /** One recipient of the loop in run; None when the sender thread crashes. */
  function Visit(send: string -> SendResult, p: Progress, recipient: string): Option<Progress> {
    match RecipientDomain(recipient)
    case None => None
    case Some(domain) =>
      if domain in p.failed then Some(p.(failMails := p.failMails + [recipient]))
      else if domain in p.sent then Some(p)
      else
        match send(domain)
        case Crashed => None
        case Delivered => Some(p.(sent := p.sent + {domain}, attempts := p.attempts + [domain]))
        case Failed(message) =>
          Some(Progress(p.sent + {domain}, p.failed + {domain}, p.failMails + [recipient],
                        p.failData + message, p.attempts + [domain]))
  }

  /** The loop of run over the recipients. */
  function Deliver(send: string -> SendResult, recipients: seq<string>): Option<Progress>
    decreases |recipients|
  {
    if |recipients| == 0 then Some(Start)
    else
      match Deliver(send, recipients[..|recipients| - 1])
      case None => None
      case Some(p) => Visit(send, p, recipients[|recipients| - 1])
  }

  /** The distinct domains of the recipients, each where it first occurs. */
  function FirstSeenDomains(recipients: seq<string>): seq<string>
    decreases |recipients|
  {
    if |recipients| == 0 then []
    else
      var init := FirstSeenDomains(recipients[..|recipients| - 1]);
      match RecipientDomain(recipients[|recipients| - 1])
      case None => init
      case Some(d) => if d in init then init else init + [d]
  }

  /** The recipients whose domain's relay failed, in input order. */
  function FailedRecipients(send: string -> SendResult, recipients: seq<string>): seq<string>
    decreases |recipients|
  {
    if |recipients| == 0 then []
    else
      var init := FailedRecipients(send, recipients[..|recipients| - 1]);
      var r := recipients[|recipients| - 1];
      match RecipientDomain(r)
      case None => init
      case Some(d) => if send(d).Failed? then init + [r] else init
  }

  /** The failure texts of the failed domains, concatenated in call order. */
  function Details(send: string -> SendResult, domains: seq<string>): string
    decreases |domains|
  {
    if |domains| == 0 then ""
    else
      var init := Details(send, domains[..|domains| - 1]);
      match send(domains[|domains| - 1])
      case Failed(message) => init + message
      case _ => init
  }

  predicate NoDuplicates(s: seq<string>) {
    forall i, j :: 0 <= i < j < |s| ==> s[i] != s[j]
  }

  lemma FirstSeenDomainsDistinct(recipients: seq<string>)
    ensures NoDuplicates(FirstSeenDomains(recipients))
    ensures forall d :: d in FirstSeenDomains(recipients) <==>
      exists r :: r in recipients && RecipientDomain(r) == Some(d)
  {
    FirstSeenNoDuplicates(recipients);
    FirstSeenMembers(recipients);
  }

  lemma {:induction false} FirstSeenNoDuplicates(recipients: seq<string>)
    ensures NoDuplicates(FirstSeenDomains(recipients))
    decreases |recipients|
  {
    if |recipients| > 0 {
      var init := FirstSeenDomains(recipients[..|recipients| - 1]);
      FirstSeenNoDuplicates(recipients[..|recipients| - 1]);
      var r := FirstSeenDomains(recipients);
      if r != init {
        var d := r[|r| - 1];
        assert r == init + [d] && d !in init;
        forall i, j | 0 <= i < j < |r| ensures r[i] != r[j] {
          if j == |r| - 1 {
            assert r[i] == init[i] && init[i] in init;
          } else {
            assert r[i] == init[i] && r[j] == init[j];
          }
        }
      }
    }
  }

  lemma {:induction false} FirstSeenMembers(recipients: seq<string>)
    ensures forall d :: d in FirstSeenDomains(recipients) <==>
      exists r :: r in recipients && RecipientDomain(r) == Some(d)
    decreases |recipients|
  {
    if |recipients| > 0 {
      var init := recipients[..|recipients| - 1];
      var last := recipients[|recipients| - 1];
      FirstSeenMembers(init);
      assert recipients == init + [last];
      forall d ensures d in FirstSeenDomains(recipients) <==>
        exists r :: r in recipients && RecipientDomain(r) == Some(d)
      {
        if exists r :: r in recipients && RecipientDomain(r) == Some(d) {
          var r :| r in recipients && RecipientDomain(r) == Some(d);
          if r != last {
            assert r in init;
          }
        }
        if d in FirstSeenDomains(init) {
          var r :| r in init && RecipientDomain(r) == Some(d);
          assert r in recipients;
        }
      }
    }
  }

  /**
   * What the loop of run keeps track of, after any prefix of the recipients
   * that did not crash it: sendMessage was called once for each distinct
   * domain, in first-seen order, and never crashed; the sent set is exactly
   * those domains, the failed set exactly the ones whose relay failed; the
   * failed recipients are exactly the recipients in failed domains, in input
   * order; and the details are the failure texts in call order.
   */
  ghost predicate Tracks(send: string -> SendResult, recipients: seq<string>, p: Progress) {
    && p.attempts == FirstSeenDomains(recipients)
    && (forall d :: d in p.sent <==> d in p.attempts)
    && (forall d :: d in p.failed <==> d in p.attempts && send(d).Failed?)
    && (forall d :: d in p.attempts ==> !send(d).Crashed?)
    && p.failMails == FailedRecipients(send, recipients)
    && p.failData == Details(send, p.attempts)
    && (forall r :: r in recipients ==> RecipientDomain(r).Some?)
  }

  lemma {:induction false} DeliverTracks(send: string -> SendResult, recipients: seq<string>)
    ensures Deliver(send, recipients).Some? ==> Tracks(send, recipients, Deliver(send, recipients).value)
    decreases |recipients|
  {
    if |recipients| > 0 && Deliver(send, recipients).Some? {
      var init := recipients[..|recipients| - 1];
      var last := recipients[|recipients| - 1];
      assert recipients == init + [last];
      DeliverTracks(send, init);
      VisitTracks(send, init, last, Deliver(send, init).value);
    }
  }

  /** One visit keeps the bookkeeping of the loop. */
  lemma VisitTracks(send: string -> SendResult, init: seq<string>, last: string, p: Progress)
    requires Tracks(send, init, p) && Visit(send, p, last).Some?
    ensures Tracks(send, init + [last], Visit(send, p, last).value)
  {
    var d := RecipientDomain(last).value;
    AppendOne(send, init, last);
    if d in p.failed {
      VisitFailedDomain(send, init, last, p);
    } else if d in p.sent {
      VisitSentDomain(send, init, last, p);
    } else {
      VisitNewDomain(send, init, last, p);
    }
  }

  /** The three sequences the loop tracks, one recipient further. */
  lemma AppendOne(send: string -> SendResult, init: seq<string>, last: string)
    requires RecipientDomain(last).Some?
    ensures var d := RecipientDomain(last).value;
      && FirstSeenDomains(init + [last]) ==
           (if d in FirstSeenDomains(init) then FirstSeenDomains(init) else FirstSeenDomains(init) + [d])
      && FailedRecipients(send, init + [last]) ==
           (if send(d).Failed? then FailedRecipients(send, init) + [last] else FailedRecipients(send, init))
      && (forall r :: r in init + [last] <==> r in init || r == last)
  {
    assert (init + [last])[..|init|] == init;
  }

  lemma VisitFailedDomain(send: string -> SendResult, init: seq<string>, last: string, p: Progress)
    requires Tracks(send, init, p) && RecipientDomain(last).Some? && RecipientDomain(last).value in p.failed
    requires FirstSeenDomains(init + [last]) == FirstSeenDomains(init)
    requires FailedRecipients(send, init + [last]) == FailedRecipients(send, init) + [last]
    requires forall r :: r in init + [last] <==> r in init || r == last
    ensures Visit(send, p, last) == Some(p.(failMails := p.failMails + [last]))
    ensures Tracks(send, init + [last], p.(failMails := p.failMails + [last]))
  {
  }

  lemma VisitSentDomain(send: string -> SendResult, init: seq<string>, last: string, p: Progress)
    requires Tracks(send, init, p) && RecipientDomain(last).Some?
    requires RecipientDomain(last).value in p.sent - p.failed
    requires FirstSeenDomains(init + [last]) == FirstSeenDomains(init)
    requires FailedRecipients(send, init + [last]) == FailedRecipients(send, init)
    requires forall r :: r in init + [last] <==> r in init || r == last
    ensures Visit(send, p, last) == Some(p)
    ensures Tracks(send, init + [last], p)
  {
  }

  lemma VisitNewDomain(send: string -> SendResult, init: seq<string>, last: string, p: Progress)
    requires Tracks(send, init, p) && RecipientDomain(last).Some?
    requires RecipientDomain(last).value !in p.sent
    requires Visit(send, p, last).Some?
    requires FirstSeenDomains(init + [last]) == FirstSeenDomains(init) + [RecipientDomain(last).value]
    requires FailedRecipients(send, init + [last]) ==
      (if send(RecipientDomain(last).value).Failed? then FailedRecipients(send, init) + [last] else FailedRecipients(send, init))
    requires forall r :: r in init + [last] <==> r in init || r == last
    ensures Tracks(send, init + [last], Visit(send, p, last).value)
  {
    var d := RecipientDomain(last).value;
    var q := Visit(send, p, last).value;
    var recipients := init + [last];
    assert d !in p.attempts;
    assert q.attempts == p.attempts + [d];
    assert q.attempts[..|q.attempts| - 1] == p.attempts;
    assert Details(send, q.attempts) ==
      Details(send, p.attempts) + (if send(d).Failed? then send(d).message else "");
    if send(d).Failed? {
      assert q == Progress(p.sent + {d}, p.failed + {d}, p.failMails + [last],
                           p.failData + send(d).message, p.attempts + [d]);
    } else {
      assert send(d).Delivered?;
      assert q == p.(sent := p.sent + {d}, attempts := p.attempts + [d]);
    }
    assert q.attempts == FirstSeenDomains(recipients);
    assert forall x :: x in q.sent <==> x in q.attempts;
    assert forall x :: x in q.failed <==> x in q.attempts && send(x).Failed?;
    assert forall x :: x in q.attempts ==> !send(x).Crashed?;
    assert q.failMails == FailedRecipients(send, recipients);
    assert q.failData == Details(send, q.attempts);
    assert forall r :: r in recipients ==> RecipientDomain(r).Some?;
  }

  /** A crash ends the loop: nothing after it runs. */
  lemma {:induction false} DeliverStaysCrashed(send: string -> SendResult, recipients: seq<string>, i: nat)
    requires i <= |recipients|
    requires Deliver(send, recipients[..i]).None?
    ensures Deliver(send, recipients).None?
    decreases |recipients| - i
  {
    if i < |recipients| {
      assert recipients[..i + 1][..i] == recipients[..i];
      DeliverStaysCrashed(send, recipients, i + 1);
    } else {
      assert recipients[..i] == recipients;
    }
  }

  /** sendMessage is called at most once per distinct domain, in first-seen order. */
  lemma AttemptsOncePerDomain(send: string -> SendResult, recipients: seq<string>)
    requires Deliver(send, recipients).Some?
    ensures var p := Deliver(send, recipients).value;
      && p.attempts == FirstSeenDomains(recipients)
      && NoDuplicates(p.attempts)
      && (forall d :: d in p.attempts <==> exists r :: r in recipients && RecipientDomain(r) == Some(d))
  {
    DeliverTracks(send, recipients);
    FirstSeenDomainsDistinct(recipients);
  }

  /** The recipients recorded as failed are exactly those of the failed domains, in input order. */
  lemma FailMailsExact(send: string -> SendResult, recipients: seq<string>)
    requires Deliver(send, recipients).Some?
    ensures var p := Deliver(send, recipients).value;
      && p.failMails == FailedRecipients(send, recipients)
      && (forall d :: d in p.failed <==> d in p.attempts && send(d).Failed?)
  {
    DeliverTracks(send, recipients);
  }

  /** The relay to the recipient's domain reports a failure. */
  ghost predicate RelayFails(send: string -> SendResult, r: string) {
    RecipientDomain(r).Some? && send(RecipientDomain(r).value).Failed?
  }

  lemma {:induction false} FailedRecipientsNonEmpty(send: string -> SendResult, recipients: seq<string>)
    ensures FailedRecipients(send, recipients) != [] <==> exists r :: r in recipients && RelayFails(send, r)
    decreases |recipients|
  {
    if |recipients| > 0 {
      var init := recipients[..|recipients| - 1];
      var last := recipients[|recipients| - 1];
      assert recipients == init + [last];
      FailedRecipientsNonEmpty(send, init);
      assert FailedRecipients(send, recipients) ==
        FailedRecipients(send, init) + (if RelayFails(send, last) then [last] else []);
      if exists r :: r in recipients && RelayFails(send, r) {
        var r :| r in recipients && RelayFails(send, r);
        if r != last { assert r in init; }
      }
      if exists r :: r in init && RelayFails(send, r) {
        var r :| r in init && RelayFails(send, r);
        assert r in recipients;
      }
    }
  }

  /** The bounce to the sender: every failed recipient and every failure text. */
  function Bounce(mail: Mail, ip: string, failMails: seq<string>, failData: string): (b: Mail)
    ensures b.to == mail.from && b.from == Some("mailer@" + ip) && b.hash.None?
    ensures b.subject == Some("Could not send mail subject '" + Show(mail.subject) + "'")
    ensures b.data.Some? && StartsWith(b.data.value, "Could not send to mails: " + Join(failMails, ","))
    ensures Complete(b) <==> mail.from.Some?
  {
    var data := "Could not send to mails: " + Join(failMails, ",") + " Details: " + failData;
    assert data[..|"Could not send to mails: " + Join(failMails, ",")|] == "Could not send to mails: " + Join(failMails, ",");
    Mail(mail.from, Some("mailer@" + ip), Some("Could not send mail subject '" + Show(mail.subject) + "'"), Some(data), None)
  }

  /** The usage notice sent to the monitoring server. */
  function Notice(ip: string, port: int, mail: Mail): string {
    ip + ":" + IntToString(port) + " " + Show(mail.from)
  }

  datatype BounceSent = BounceSent(domain: string, mail: Mail)

  /**
   * A finished run: the domains relayed to, the failed recipients, the
   * bounce and the domain it went to (if any), and the usage notice. An
   * aborted run ended in an unchecked exception and sent no bounce and no
   * notice.
   */
  datatype RunOutcome =
    | Finished(attempts: seq<string>, failMails: seq<string>, bounce: Option<BounceSent>, notice: string)
    | Aborted

  function SendFor(registry: Option<Zone>, peers: (string, seq<string>) -> Peer, mail: Mail): string -> SendResult {
    (domain: string) => SendMessageSpec(registry, peers, domain, mail)
  }

  function Recipients(mail: Mail): seq<string>
    requires Complete(mail)
  {
    JavaSplit(mail.to.value, ',')
  }

  /** run, for a complete mail (the only kind the submission side hands over). */
  function RunSpec(registry: Option<Zone>, peers: (string, seq<string>) -> Peer, mail: Mail, ip: string, port: int): RunOutcome
    requires Complete(mail)
  {
    match Deliver(SendFor(registry, peers, mail), Recipients(mail))
    case None => Aborted
    case Some(p) => Conclude(registry, peers, mail, ip, port, p)
  }

  /** What run does after the recipient loop: the bounce when some domain failed, and the notice. */
  function Conclude(registry: Option<Zone>, peers: (string, seq<string>) -> Peer, mail: Mail, ip: string, port: int,
                    p: Progress): RunOutcome
    requires Complete(mail)
  {
    if p.failed == {} then Finished(p.attempts, p.failMails, None, Notice(ip, port, mail))
    else
      var bounce := Bounce(mail, ip, p.failMails, p.failData);
      match RecipientDomain(bounce.to.value)
      case None => Aborted
      case Some(d) =>
        if SendMessageSpec(registry, peers, d, bounce).Crashed? then Aborted
        else Finished(p.attempts, p.failMails, Some(BounceSent(d, bounce)), Notice(ip, port, mail))
  }

  /** Some domain failed exactly when some recipient was recorded as failed. */
  lemma FailureIffFailMails(send: string -> SendResult, recipients: seq<string>)
    requires Deliver(send, recipients).Some?
    ensures var p := Deliver(send, recipients).value;
      p.failed != {} <==> p.failMails != []
  {
    DeliverTracks(send, recipients);
    FailedRecipientsNonEmpty(send, recipients);
    FirstSeenDomainsDistinct(recipients);
    var p := Deliver(send, recipients).value;
    if p.failMails != [] {
      var r :| r in recipients && RelayFails(send, r);
      assert RecipientDomain(r).value in p.attempts;
    }
    if p.failed != {} {
      var d :| d in p.failed;
      assert d in p.attempts;
      var r :| r in recipients && RecipientDomain(r) == Some(d);
    }
  }

  /**
   * A finished run bounced exactly when some recipient's domain failed; the
   * bounce went once, to the sender's domain, lists the failed recipients,
   * and its own result is not acted on.
   */
  lemma BounceIffFailure(registry: Option<Zone>, peers: (string, seq<string>) -> Peer, mail: Mail, ip: string, port: int)
    requires Complete(mail)
    ensures var out := RunSpec(registry, peers, mail, ip, port);
      out.Finished? ==>
        && out.notice == ip + ":" + IntToString(port) + " " + mail.from.value
        && out.attempts == FirstSeenDomains(Recipients(mail))
        && out.failMails == FailedRecipients(SendFor(registry, peers, mail), Recipients(mail))
        && (out.bounce.Some? <==> out.failMails != [])
        && (out.bounce.Some? ==>
              && RecipientDomain(mail.from.value) == Some(out.bounce.value.domain)
              && out.bounce.value.mail.to == mail.from
              && out.bounce.value.mail.from == Some("mailer@" + ip)
              && out.bounce.value.mail.subject == Some("Could not send mail subject '" + mail.subject.value + "'")
              && StartsWith(out.bounce.value.mail.data.value, "Could not send to mails: " + Join(out.failMails, ",")))
  {
    var send := SendFor(registry, peers, mail);
    var recipients := Recipients(mail);
    if Deliver(send, recipients).Some? {
      DeliverTracks(send, recipients);
      FailureIffFailMails(send, recipients);
    }
  }

  /** One pass of the recipient loop in run: None when the sender thread dies. */
  method VisitRecipient(registry: Option<Zone>, peers: (string, seq<string>) -> Peer, mail: Mail, p: Progress, recipient: string)
    returns (r: Option<Progress>)
    ensures r == Visit(SendFor(registry, peers, mail), p, recipient)
  {
    var split := JavaSplit(recipient, '@');
    if |split| < 2 {
      return None;
    }
    var domain := split[1];
    if domain in p.failed {
      return Some(p.(failMails := p.failMails + [recipient]));
    }
    if domain in p.sent {
      return Some(p);
    }
    var result := SendMessage(registry, peers, domain, mail);
    if result.Crashed? {
      return None;
    }
    var sent := p.(sent := p.sent + {domain}, attempts := p.attempts + [domain]);
    if result.Failed? {
      return Some(sent.(failed := p.failed + {domain}, failData := p.failData + result.message,
                        failMails := p.failMails + [recipient]));
    }
    return Some(sent);
  }

  /** run: the recipient loop, the bounce, and the notice. */
  method Run(registry: Option<Zone>, peers: (string, seq<string>) -> Peer, mail: Mail, ip: string, port: int)
    returns (outcome: RunOutcome)
    requires Complete(mail)
    ensures outcome == RunSpec(registry, peers, mail, ip, port)
  {
    ghost var send := SendFor(registry, peers, mail);
    var progress := Start;
    var recipients := JavaSplit(mail.to.value, ',');
    var i := 0;
    while i < |recipients|
      invariant 0 <= i <= |recipients|
      invariant Deliver(send, recipients[..i]) == Some(progress)
    {
      assert recipients[..i + 1][..i] == recipients[..i];
      var next := VisitRecipient(registry, peers, mail, progress, recipients[i]);
      if next.None? {
        DeliverStaysCrashed(send, recipients, i + 1);
        return Aborted;
      }
      progress := next.value;
      i := i + 1;
    }
    assert recipients[..i] == recipients;
    outcome := Finish(registry, peers, mail, ip, port, progress);
  }

  /** The end of run: the bounce when some domain failed, and the notice. */
  method Finish(registry: Option<Zone>, peers: (string, seq<string>) -> Peer, mail: Mail, ip: string, port: int,
                progress: Progress) returns (outcome: RunOutcome)
    requires Complete(mail)
    ensures outcome == Conclude(registry, peers, mail, ip, port, progress)
  {
    if progress.failed != {} {
      var fail := Bounce(mail, ip, progress.failMails, progress.failData);
      var split := JavaSplit(fail.to.value, '@');
      if |split| < 2 {
        return Aborted;
      }
      var domain := split[1];
      var ignored := SendMessage(registry, peers, domain, fail);
      if ignored.Crashed? {
        return Aborted;
      }
      return Finished(progress.attempts, progress.failMails, Some(BounceSent(domain, fail)), Notice(ip, port, mail));
    }
    return Finished(progress.attempts, progress.failMails, None, Notice(ip, port, mail));
  }
}
