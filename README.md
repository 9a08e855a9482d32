# A verified model of the dslab mail system core

This project models the core of a small distributed mail system. It proves
properties of that model.

The system's parts, as modelled:

- **Mail record and address check** (`Mails`).
  - A mail is five optional text fields.
  - `validMail` accepts an address with exactly one `@` and no space.
  - `complete` requires `to`, `from`, `subject` and `data`.
  - `incompleteMessage` lists the missing fields.
  - `display` and `messages` render the lines a mailbox shows and a relay replays.
- **Mailbox store** (`MailStore`).
  - There is one mailbox per configured user.
  - The node has one id counter, shared by all mailboxes.
  - Operations: save, list (ascending ids), load and delete.
  - `UserData` is a class with the mailbox map and the counter as fields.
- **Nameserver directory** (`Directory`).
  - A tree of zones, each holding child nameservers and mailbox addresses.
  - Registration walks the name from its last label down.
- **Delivery** (`Delivery`). This is the transfer server's sender:
  - it resolves each recipient domain through the directory, once per domain;
  - it relays the mail's lines to the mailbox server and checks every reply;
  - it collects the failures into one bounce to the sender, and emits the usage notice.
- **The three line protocols** (`TransferSession`, `DmtpSession`, `DmapSession`).
  - The transfer server's submission handler.
  - The mailbox server's relay handler, which files mail into the store.
  - The mailbox server's access handler: login, list, show, delete, logout, and the `startsecure` handshake.
  - Each handler is a pure step function over a session value, folded over the lines read (`Feed`).
  - A `Run` method with a loop is proved equal to that fold.
- **Usage counters** (`Monitoring`).
  - Two count maps in a `MonitorData` class.
  - Listings sorted by descending count.

Shared pieces:

- `Text` models the Java string operations the code relies on:
  - `indexOf` and `lastIndexOf`;
  - `String.split`, with trailing empty pieces dropped;
  - `String.join`;
  - `\d+`;
  - `Long.parseLong` on ASCII digits, with its range;
  - decimal rendering.
- `Protocol` holds the shared submission/relay command words.
- `Optional` holds the option type.

A Java `null` is `None`. An uncaught runtime exception is an explicit outcome: `Crashed` or `Aborted`, or `crashed` in a session. It kills the handler or sender thread. A thrown exception is never a precondition.

## Model

| member | source | states |
|---|---|---|
| Mails.ValidMailExactlyOneAt | src/main/java/dslab/util/Mail.java:13-24 | an address is valid exactly when it holds one `@` and no space |
| Mails.ValidMailParts | src/main/java/dslab/util/Mail.java:13-24 | a valid address is local part, `@`, domain part, neither holding `@`; `split("@")` yields exactly those two parts, or fewer than two when the domain part is empty |
| Mails.AddressParts | src/main/java/dslab/util/Mail.java:13-24 | `user@domain` built from words without `@` or space is valid and splits back into those words |
| Mails.CompleteIgnoresHash | src/main/java/dslab/util/Mail.java:70-72 | completeness depends on to, from, subject and data only, never on the hash |
| Mails.MissingLabels | src/main/java/dslab/util/Mail.java:77-87 | corrected half of the first finding: at most four labels, none empty or holding a comma |
| Mails.MissingLabelsExact | src/main/java/dslab/util/Mail.java:77-87 | corrected half of the first finding, not the code's labelling: each label is present exactly when its field is unset ("no recipients" for to, "no sender" for from); no labels exactly when the mail is complete |
| Mails.IncompleteMessage | src/main/java/dslab/util/Mail.java:77-87 | corrected half of the first finding: empty exactly for a complete mail; otherwise splitting at commas gives back exactly the missing-field labels |
| Mails.MissingLabelsAsWritten | src/main/java/dslab/util/Mail.java:77-87 | the labels the code reports: at most four, none empty or holding a comma |
| Mails.MissingLabelsAsWrittenExact | src/main/java/dslab/util/Mail.java:77-87 | as written, "no sender" is present exactly when `to` is unset and "no recipients" exactly when `from` is unset; subject and data as labelled; no labels exactly when the mail is complete |
| Mails.IncompleteMessageAsWritten | src/main/java/dslab/util/Mail.java:77-87 | the code's text: empty exactly for a complete mail; otherwise splitting at commas gives back exactly the swapped labels of the missing fields |
| Mails.IncompleteMessageAgreesIff | src/main/java/dslab/util/Mail.java:77-87 | the code's text and the corrected one are equal exactly when both `to` and `from` are set |
| Mails.IncompleteMessageSwapsLabels | src/main/java/dslab/util/Mail.java:81-82 | a mail lacking only its sender is reported as "no recipients" by the code as written, and as "no sender" by the corrected message |
| Mails.Display | src/main/java/dslab/util/Mail.java:44-52 | five lines, each its field label and the field's text (Java's "null" for an unset field, nothing for an unset hash) |
| Mails.Messages | src/main/java/dslab/util/Mail.java:32-43 | eight lines: `begin`, the five display lines, `send`, `quit` |
| Mails.MessagesRebuildFields | src/main/java/dslab/util/Mail.java:32-43 | for a complete mail each field line splits at its first space into the command word and that field's value |
| Text.IndexOf | src/main/java/dslab/util/Mail.java:23 | -1 exactly when the character is absent; otherwise its first position |
| Text.LastIndexOf | src/main/java/dslab/util/Mail.java:23 | -1 exactly when the character is absent; otherwise its last position |
| Text.SplitCommand | src/main/java/dslab/transfer/TransferClientConnection.java:88-95 | the command word has no space; a line with a space is the word, a space and the content; a line without one is the word alone with empty content |
| Text.ParseLong | src/main/java/dslab/mailbox/DmapClientConnection.java:185 | succeeds exactly for an optional sign and at least one ASCII digit whose signed value lies in the range of a long, and then gives that value; None (the NumberFormatException) otherwise |
| Text.ParseLongRoundTrip | src/main/java/dslab/mailbox/DmapClientConnection.java:180-185 | the decimal rendering of any long parses back to it |
| Text.SplitJoin | src/main/java/dslab/util/Mail.java:86 | pieces without the separator, joined and split again, are the same pieces |
| MailStore.InitialStore | src/main/java/dslab/mailbox/UserData.java:20-28 | exactly one mailbox per configured user, all empty; the store is valid |
| MailStore.UserData.constructor | src/main/java/dslab/mailbox/UserData.java:20-28 | the object holds the user table, the component id and the initial store |
| MailStore.UserData.Lookup | src/main/java/dslab/mailbox/UserData.java:31-38 | a password exactly for a configured user, and it is that user's password |
| MailStore.Save | src/main/java/dslab/mailbox/UserData.java:40-45 | the set of mailboxes is unchanged and the counter never decreases |
| MailStore.SaveFreshId | src/main/java/dslab/mailbox/UserData.java:40-45 | for an unknown user nothing changes; otherwise the counter rises by one, the mail is filed under the new counter, which is above every existing id, and no other mailbox changes; validity is kept |
| MailStore.UserData.SaveMail | src/main/java/dslab/mailbox/UserData.java:40-45 | the new state is the saved store, and the object stays valid |
| MailStore.IdsStrictlyIncrease | src/main/java/dslab/mailbox/UserData.java:44 | over any sequence of saves and deletes, the ids issued strictly increase and lie between the old and the new counter |
| MailStore.SortedIds | src/main/java/dslab/mailbox/UserData.java:52 | exactly the mailbox's ids, in strictly ascending order |
| MailStore.AscendingUnique | src/main/java/dslab/mailbox/UserData.java:52 | two strictly ascending sequences with the same elements are equal, so the sorted order is unique |
| MailStore.UserData.SortIds | src/main/java/dslab/mailbox/UserData.java:52 | the ids of a mailbox in ascending order |
| MailStore.LinesOf | src/main/java/dslab/mailbox/UserData.java:53-60 | one listing line per id |
| MailStore.LinesFor | src/main/java/dslab/mailbox/UserData.java:53-60 | the loop over the sorted ids builds exactly one `id from subject` line per id, in order |
| MailStore.ListingAfterSave | src/main/java/dslab/mailbox/UserData.java:47-63 | filing a mail under an id above all present ones appends exactly its line to the listing |
| MailStore.UserData.ListMail | src/main/java/dslab/mailbox/UserData.java:47-63 | None for an unknown user; otherwise `id from subject` for every mail, ids ascending |
| MailStore.UserData.LoadMail | src/main/java/dslab/mailbox/UserData.java:65-74 | None for an unknown user or id; otherwise the mail's display lines |
| MailStore.SaveThenLoad | src/main/java/dslab/mailbox/UserData.java:40-74 | a saved mail loads back under the next id and is listed last |
| MailStore.Delete | src/main/java/dslab/mailbox/UserData.java:76-86 | the set of mailboxes and the counter are unchanged |
| MailStore.DeleteOnlyThatMail | src/main/java/dslab/mailbox/UserData.java:76-86 | succeeds exactly when the user has that id; a failure changes nothing; afterwards that mail is gone and every other (user, id) loads as before; validity is kept |
| MailStore.UserData.DeleteMail | src/main/java/dslab/mailbox/UserData.java:76-86 | the result and the new state are those of deleting from the old state, and the object stays valid |
| Directory.SplitLastDomainRest | src/main/java/dslab/nameserver/Nameserver.java:149-155 | a name without a dot gives itself; otherwise the last label (dot-free) and the rest, which rejoin to the name |
| Directory.LabelsJoin | src/main/java/dslab/nameserver/Nameserver.java:149-155 | splitting off last labels repeatedly gives the labels of the name in reverse, which rejoin with dots to the name |
| Directory.LabelsParentLeaf | src/main/java/dslab/nameserver/Nameserver.java:149-155 | a name's label path is its parent path followed by its leaf label |
| Directory.RegisterNameserverByPath | src/main/java/dslab/nameserver/Nameserver.java:158-176 | registration fails with InvalidDomain at the first missing zone, with AlreadyRegistered when the leaf is taken, and otherwise adds exactly the leaf entry to the parent zone |
| Directory.RegisterMailboxServerByPath | src/main/java/dslab/nameserver/Nameserver.java:179-198 | the same for mailbox servers, on the parent zone's mailbox map |
| Directory.RegisterTwice | src/main/java/dslab/nameserver/Nameserver.java:158-208 | a second registration of a name is refused and the first entry stays what getNameserver or lookup returns |
| Directory.RegisterNameserverKeepsMailboxes | src/main/java/dslab/nameserver/Nameserver.java:158-176 | the new nameserver is reachable under the full name; every zone reachable before still is, with the same mailboxes |
| Directory.RegisterMailboxKeepsNameservers | src/main/java/dslab/nameserver/Nameserver.java:179-198 | exactly the same zones stay reachable, with the same child labels; only the parent zone's mailboxes change |
| Delivery.ResolveDomain | src/main/java/dslab/transfer/TransferSender.java:108-137 | the loop down the labels and the final lookup give the resolution of the domain |
| Delivery.PathOfSplit | src/main/java/dslab/transfer/TransferSender.java:120-128 | the zones the sender descends through are the registration's parent path, and the label looked up is its leaf |
| Delivery.ResolveAfterRegister | src/main/java/dslab/transfer/TransferSender.java:119-137 | a mailbox server registered under a name not ending with a dot is what the sender resolves that name to |
| Delivery.Relay | src/main/java/dslab/transfer/TransferSender.java:150-201 | the greeting check and the reply loop give the corrected conversation's result (second finding: a socket error is a failure) |
| Delivery.DeliveredOnlyAfterOkReplies | src/main/java/dslab/transfer/TransferSender.java:150-178 | a relay succeeds exactly when the connection is made, the greeting is exactly "ok DMTP2.0" and every line sent gets a reply starting with "ok" |
| Delivery.StopsAtFirstBadReply | src/main/java/dslab/transfer/TransferSender.java:163-175 | the relay fails at the first reply not starting with "ok", naming the line it answered |
| Delivery.SocketErrorCountsAsDelivered | src/main/java/dslab/transfer/TransferSender.java:179-187 | a refused connection counts as delivered as written, and as a failure with the exception's text when corrected |
| Delivery.SendMessage | src/main/java/dslab/transfer/TransferSender.java:107-211 | resolution, then the corrected relay to the address found; a missing or unparsable port kills the sender |
| Delivery.VisitRecipient | src/main/java/dslab/transfer/TransferSender.java:46-70 | one pass of the recipient loop, with the corrected relay |
| Delivery.FirstSeenDomainsDistinct | src/main/java/dslab/transfer/TransferSender.java:50-58 | the domains tried are distinct, and are exactly the recipients' domains |
| Delivery.AttemptsOncePerDomain | src/main/java/dslab/transfer/TransferSender.java:46-71 | sendMessage is called once per distinct recipient domain, in first-seen order |
| Delivery.FailMailsExact | src/main/java/dslab/transfer/TransferSender.java:46-71 | the failed recipients are exactly those whose domain failed, in input order; the failed domains are exactly the tried ones that failed |
| Delivery.FailureIffFailMails | src/main/java/dslab/transfer/TransferSender.java:62-74 | some domain failed exactly when some recipient was recorded as failed |
| Delivery.Bounce | src/main/java/dslab/transfer/TransferSender.java:74-79 | addressed to the sender, from `mailer@<ip>`, with the subject quoted and every failed recipient listed; complete exactly when the sender is set |
| Delivery.BounceIffFailure | src/main/java/dslab/transfer/TransferSender.java:73-90 | a finished run bounced exactly when some recipient failed, to the sender's domain, listing the failed recipients; the notice is `ip:port from` |
| Delivery.Finish | src/main/java/dslab/transfer/TransferSender.java:73-90 | after the recipient loop, the bounce (when some domain failed) and the monitoring notice give the run's outcome |
| Delivery.Run | src/main/java/dslab/transfer/TransferSender.java:33-98 | the recipient loop, the bounce and the notice give the run's outcome, with the corrected relay |
| TransferSession.FirstInvalid | src/main/java/dslab/transfer/TransferClientConnection.java:113-122 | -1 exactly when every address is valid; otherwise the first invalid one |
| TransferSession.ToReplyOk | src/main/java/dslab/transfer/TransferClientConnection.java:109-128 | the reply starts with "ok" exactly when every recipient is valid, and is then "ok" and the recipient count |
| TransferSession.CheckRecipients | src/main/java/dslab/transfer/TransferClientConnection.java:112-128 | the loop stops at the first invalid address and gives the `to` reply |
| TransferSession.ToStepStores | src/main/java/dslab/transfer/TransferClientConnection.java:109-128 | `to` stores its content even when invalid, and answers the `to` reply |
| TransferSession.FromStepStores | src/main/java/dslab/transfer/TransferClientConnection.java:130-141 | `from` stores its content even when invalid, and answers "ok" or the sender error |
| TransferSession.SendStep | src/main/java/dslab/transfer/TransferClientConnection.java:152-166 | an incomplete mail is kept and answered with its missing fields, labelled as corrected in the first finding; a complete one is handed off once, and the draft is reset |
| TransferSession.ReplayClose | src/main/java/dslab/transfer/TransferClientConnection.java:152-176 | on an open session with a complete mail, `send` then `quit` hands off that mail once, answers "ok" and "ok bye", and ends the session |
| TransferSession.ClosingCommands | src/main/java/dslab/transfer/TransferClientConnection.java:167-176 | `quit` answers "ok bye" and ends the session; an unknown command answers the protocol error and ends it; only `send` hands off mail |
| TransferSession.BeginGate | src/main/java/dslab/transfer/TransferClientConnection.java:64-74 | the replies open with the greeting and "ok" exactly when the first line is `begin`; otherwise the session answers the protocol error, ends and hands off nothing |
| TransferSession.FeedKeepsHistory | src/main/java/dslab/transfer/TransferClientConnection.java:78-178 | replies and hand-offs only ever grow |
| TransferSession.FeedAppend | src/main/java/dslab/transfer/TransferClientConnection.java:78-178 | reading two runs of lines one after the other is reading their concatenation |
| TransferSession.SubmittedComplete | src/main/java/dslab/transfer/TransferClientConnection.java:152-166 | only complete mails are ever handed to a sender |
| TransferSession.ReplayMessages | src/main/java/dslab/util/Mail.java:32-43 | replaying a complete mail's `messages()` lines hands off exactly that mail (with the hash as displayed) and ends with "ok" and "ok bye" |
| TransferSession.Run | src/main/java/dslab/transfer/TransferClientConnection.java:64-178 | the handler loop gives the replies and hand-offs of the session, with the corrected missing-field labels |
| DmtpSession.Scan | src/main/java/dslab/mailbox/DmtpClientConnection.java:101-130 | only error lines are written while scanning, and a rejected list writes at least one |
| DmtpSession.ScanAcceptable | src/main/java/dslab/mailbox/DmtpClientConnection.java:101-133 | the list is accepted exactly when every entry is valid, has a domain, and names a known user when local; then nothing is written and the count is the number of local entries |
| DmtpSession.ToAnswerOutcomes | src/main/java/dslab/mailbox/DmtpClientConnection.java:97-141 | "ok N" for N local recipients; "error no relevant recipient" when none is local; only error lines otherwise |
| DmtpSession.SingleLocalRecipient | src/main/java/dslab/mailbox/DmtpClientConnection.java:97-141 | one known local recipient is answered "ok 1" |
| DmtpSession.CheckRecipients | src/main/java/dslab/mailbox/DmtpClientConnection.java:97-141 | the loop gives the `to` answer, or kills the handler on an address with an empty domain |
| DmtpSession.FileAsWritten | src/main/java/dslab/mailbox/DmtpClientConnection.java:172-179 | filing as written keeps the set of mailboxes |
| DmtpSession.FileAsWrittenFilesInvalid | src/main/java/dslab/mailbox/DmtpClientConnection.java:172-179 | as written, a bare user name that `to` rejects as invalid still lands in that user's mailbox; the corrected filing leaves the store alone |
| DmtpSession.FileAsWrittenDiesOnBareAts | src/main/java/dslab/mailbox/DmtpClientConnection.java:101-179 | as written, `to @@` only gets an error line, but at `send` the empty split kills the handler; the corrected filing leaves the store alone |
| DmtpSession.FileAsWrittenCrossesDomains | src/main/java/dslab/mailbox/DmtpClientConnection.java:172-179 | as written, a mail for `alice@<other domain>` lands in the local alice's mailbox; the corrected filing leaves it alone |
| DmtpSession.FileLocal | src/main/java/dslab/mailbox/DmtpClientConnection.java:172-179 | corrected half of the third finding: filing keeps the set of mailboxes |
| DmtpSession.FileLocalEffect | src/main/java/dslab/mailbox/DmtpClientConnection.java:164-185 | corrected half of the third finding: no stored mail is lost or altered; new ids hold this mail and are above the old counter; a mailbox changes exactly when its user is a local recipient; validity is kept |
| DmtpSession.FileRecipients | src/main/java/dslab/mailbox/DmtpClientConnection.java:171-179 | corrected half of the third finding: the save loop gives the store of the corrected filing |
| DmtpSession.CommandLine | src/main/java/dslab/mailbox/DmtpClientConnection.java:86-196 | one command line is handled as the session step prescribes, on the node's store, and the store stays valid; an incomplete `send` gets the corrected missing-field labels |
| DmtpSession.StepKeepsMail | src/main/java/dslab/mailbox/DmtpClientConnection.java:86-196 | a line never removes or alters a stored mail; only `send` changes the store; with the corrected filing only `to` kills the handler |
| DmtpSession.FeedKeepsMail | src/main/java/dslab/mailbox/DmtpClientConnection.java:64-197 | a whole session keeps the store valid and every stored mail |
| DmtpSession.BeginGate | src/main/java/dslab/mailbox/DmtpClientConnection.java:53-62 | without `begin` first, the session answers the protocol error, ends and files nothing |
| DmtpSession.Run | src/main/java/dslab/mailbox/DmtpClientConnection.java:53-197 | the handler loop gives the session's replies, whether it died, and the store; an incomplete `send` gets the corrected missing-field labels |
| DmapSession.HandshakeLine | src/main/java/dslab/mailbox/DmapClientConnection.java:94-130 | a handshake line is handled as the session step prescribes |
| DmapSession.Dispatch | src/main/java/dslab/mailbox/DmapClientConnection.java:137-229 | each parsed command is handled as the session step prescribes, on the node's store, and the store stays valid |
| DmapSession.CommandLine | src/main/java/dslab/mailbox/DmapClientConnection.java:81-229 | a command line is handled as the session step prescribes, on the node's store |
| DmapSession.ReadLine | src/main/java/dslab/mailbox/DmapClientConnection.java:61-230 | one line read, in whatever phase, is the session step |
| DmapSession.Run | src/main/java/dslab/mailbox/DmapClientConnection.java:55-231 | the handler loop gives the session's replies, whether it died, and the store |
| DmapSession.NotLoggedInRefused | src/main/java/dslab/mailbox/DmapClientConnection.java:162-219 | before a login, list, show, delete and logout answer "error not logged in" and change nothing else |
| DmapSession.LoginIff | src/main/java/dslab/mailbox/DmapClientConnection.java:137-161 | login answers "ok" exactly for two words naming a user and that user's password, and then logs that user in; otherwise the user is unchanged |
| DmapSession.LoginWords | src/main/java/dslab/mailbox/DmapClientConnection.java:137-161 | `login name password` logs in exactly when the password matches |
| DmapSession.ShowById | src/main/java/dslab/mailbox/DmapClientConnection.java:174-196 | `show` of a decimal id answers the mail's lines and "ok", or "error unknown message id" |
| DmapSession.DeleteThenShow | src/main/java/dslab/mailbox/DmapClientConnection.java:174-210 | deleting an own mail answers "ok"; afterwards both show and delete of that id answer "error unknown message id" |
| DmapSession.ApplyFrame | src/main/java/dslab/mailbox/DmapClientConnection.java:137-229 | no command but startsecure changes the phase, none changes security, and only delete changes the store |
| DmapSession.ShowStep | src/main/java/dslab/mailbox/DmapClientConnection.java:174-196 | `show` never changes the phase, the security or the store |
| DmapSession.DeleteStep | src/main/java/dslab/mailbox/DmapClientConnection.java:197-210 | `delete` never changes the phase or the security, and the store either stays or is the logged-in user's store after deleting the parsed id |
| DmapSession.StepOnlyRemovesOwnMail | src/main/java/dslab/mailbox/DmapClientConnection.java:197-210 | a line only removes mails, only from the logged-in user's mailbox, and keeps the store valid |
| DmapSession.FeedOnlyRemoves | src/main/java/dslab/mailbox/DmapClientConnection.java:61-231 | a whole session keeps the store valid and never adds or alters a mail |
| DmapSession.SecureOnlyAfterHandshake | src/main/java/dslab/mailbox/DmapClientConnection.java:82-136 | the channel becomes secure only on an answer that decrypts to `ok <challenge> <key> <iv>` with a working key; the server then answers "ok <challenge>" |
| Monitoring.Bump | src/main/java/dslab/monitoring/MonitorData.java:16-26 | the key's count rises by one (from 0 when absent) and no other key changes |
| Monitoring.MonitorData.constructor | src/main/java/dslab/monitoring/MonitorData.java:7-8 | both counters start empty |
| Monitoring.MonitorData.Add | src/main/java/dslab/monitoring/MonitorData.java:15-27 | both counters are bumped, the address and the server |
| Monitoring.TallyCounts | src/main/java/dslab/monitoring/MonitorData.java:15-27 | after a sequence of reports, a key is counted exactly when reported, with the number of its reports |
| Monitoring.Replay | src/main/java/dslab/monitoring/MonitorData.java:15-27 | a monitor fed a sequence of notices holds the tallies of their addresses and of their servers |
| Monitoring.InsertByCount | src/main/java/dslab/monitoring/MonitorData.java:40 | inserting a key adds exactly that key |
| Monitoring.InsertKeepsRanking | src/main/java/dslab/monitoring/MonitorData.java:40 | inserting a new key keeps the keys distinct and in non-increasing count order |
| Monitoring.SortKeys | src/main/java/dslab/monitoring/MonitorData.java:40 | every key once, in non-increasing count order |
| Monitoring.Get | src/main/java/dslab/monitoring/MonitorData.java:37-49 | a new array holding a listing of the counter |
| Monitoring.LineInjective | src/main/java/dslab/monitoring/MonitorData.java:46 | two listed lines are equal only for the same key and count |
| Monitoring.ListingExact | src/main/java/dslab/monitoring/MonitorData.java:37-49 | a listing has exactly one line per key, carrying that key's count, and no line twice |
| Monitoring.MonitorData.GetAddresses | src/main/java/dslab/monitoring/MonitorData.java:29-31 | a listing of the address counter; neither counter changes |
| Monitoring.MonitorData.GetServers | src/main/java/dslab/monitoring/MonitorData.java:33-35 | a listing of the server counter; neither counter changes |

## Left out

- Sockets, threads, thread pools, shutdown and console output are left out. Each handler reads a given sequence of lines. The end of that sequence is the end of the stream.
- `Thread.interrupted()` and `isConnected()` loop guards are not modelled. A `quit` or a protocol error closes the socket, so the next read fails and the loop ends. The model simply stops reading once the session is closed.
- The nameserver directory is a tree value, not remote objects. A registration returns a new tree instead of mutating a remote nameserver in place. Remote and registry exceptions are the `None` registry.
- The mailbox servers a sender talks to are an oracle from an address and the lines sent to the replies. The UDP notice is returned as a string, not sent.
- RSA and AES are left out. The DMAP model works on decrypted lines. The cryptography is an oracle: whether the private key exists, what the client's answer decrypts to, and whether the proposed key works. A line that fails to decrypt on a secure channel is not modelled.
- Mail.copy and the setters and getters are not separate members. A mail is a value, setters are datatype updates, and copy is the identity on values. Each handler replaces its draft with a new Mail right after handing it off, so a handed-off mail is never changed afterwards.
- Java `int` and `long` overflow is not modelled. This covers the `long` id counter, and the `int` recipient count, port and monitor counts. A `long` id is bounded only through `Long.parseLong`'s range.
- The concurrent maps and `synchronized` blocks of UserData and MonitorData are left out. The model is sequential.
- The address regex filter of the monitor's UDP listener is not part of this model. `add` accepts any strings.
- Monitoring.MonitorData.Add: counts are unbounded naturals, not 32-bit ints that wrap after 2^31-1 notices.
- TransferSession.ReplayMessages: the replies are stated by their count and the last two lines, not as the full list.
- The order of keys with equal counts in a listing is left open. The source sorts a HashMap's keys with a stable sort, so that order depends on hashing.
- The documented behaviour and the code disagree on `send` in the relay handler. The documented behaviour is that a mail is stored once per valid local recipient. The code files it under `split[0]` of every recipient, in three ways unlike that: whatever its domain; even when `to` rejected it as invalid; and it dies with an index exception on an entry made only of `@`. The session model follows the evident intent (`DmtpSession.FileLocal`). The code as written is modelled as `DmtpSession.FileAsWritten` (see Findings).
- TransferSession.SendStep: an incomplete mail is answered with the corrected labels of `Mails.IncompleteMessage`, not the swapped labels the code prints (first finding). Example: a mail lacking only its sender is answered "error no sender" where the code answers "error no recipients". `Mails.IncompleteMessageAgreesIff` states when the two texts differ.
- TransferSession.Run: the same corrected labels as TransferSession.SendStep, since the loop follows `TransferSession.Step`.
- DmtpSession.CommandLine: an incomplete `send` is answered with the corrected labels, not the code's swapped ones (first finding). A complete `send` files through the corrected `DmtpSession.FileLocal` (third finding). So it skips entries the code files, and it answers "ok" where the code dies on an entry made only of `@`.
- DmtpSession.Run: the same corrected labels and corrected filing as DmtpSession.CommandLine.
- DmtpSession.FileLocal: files only valid entries in the node's own domain. The code files `split[0]` of every entry: entries in other domains, entries `to` rejected as invalid (`bob` goes to bob's mailbox), and it dies with an index exception on an entry made only of `@` (third finding; `DmtpSession.FileAsWritten` models that).
- DmtpSession.FileRecipients: the save loop implements the corrected `DmtpSession.FileLocal`, not the code's filing, with the differences listed for DmtpSession.FileLocal.
- DmtpSession.StepKeepsMail: its "only `to` kills the handler" holds for the corrected filing. In the code, `send` also dies on an entry made only of `@` (`DmtpSession.FileAsWrittenDiesOnBareAts`).
- Delivery.Relay: follows the corrected relay `Delivery.Converse`. A socket error (such as a refused connection) makes the domain fail with the exception's text. As written, the code swallows it and counts the domain as delivered (second finding; `Delivery.ConverseAsWritten` models that).
- Delivery.SendMessage: relays through the corrected relay, as Delivery.Relay does.
- Delivery.VisitRecipient: marks a domain whose connection is refused as failed, because it uses the corrected relay. As written, the code records no failure.
- Delivery.Run: a refused connection leads to a bounce that the code as written never sends, because the run uses the corrected relay. The loop lemmas (`AttemptsOncePerDomain`, `FailMailsExact`, `FailureIffFailMails`) hold for any send oracle, including the as-written one.
- Text.ParseLong: accepts ASCII digits only. Java's `Long.parseLong` also accepts other Unicode decimal digits, such as U+0663. So `delete ٣` in the access handler kills the handler in the model, where the code deletes mail 3.
- In the relay handler, `to` with an address whose domain part is empty (`bob@`) ends the handler with an index exception. This is modelled as written.
- In the access handler, `delete` with a non-number ends the handler with a NumberFormatException. This is modelled as written.

## Findings

| source | as written | input that shows it | evidently intended | confidence | as-written member | corrected member |
|---|---|---|---|---|---|---|
| src/main/java/dslab/util/Mail.java:81-82 | an unset `to` is reported as "no sender" and an unset `from` as "no recipients" | a mail with to, subject and data set but no from: the message is "no recipients" | "no recipients" for a missing to, "no sender" for a missing from | high; not executed | Mails.IncompleteMessageAsWritten | Mails.IncompleteMessage |
| src/main/java/dslab/transfer/TransferSender.java:179-187 | a SocketException (including a refused connection) is caught without returning an error, so sendMessage returns null | a mailbox server address whose connection is refused: the domain counts as delivered and no bounce is sent | the failure is reported, like any other I/O error | medium; not executed | Delivery.ConverseAsWritten | Delivery.Converse |
| src/main/java/dslab/mailbox/DmtpClientConnection.java:172-179 | `send` files the mail under `split[0]` of every recipient, whatever its domain and even when `to` rejected it as invalid; an entry made only of `@` has an empty split and kills the handler | a node for `earth.planet` with user `alice` receives `to alice@mars.planet`: the mail lands in the local alice's mailbox; `to bob` is rejected but the mail still lands in bob's mailbox; `to @@` then `send` kills the handler | only valid recipients in the node's own domain are filed, and no entry kills the handler at `send` | high; not executed | DmtpSession.FileAsWritten | DmtpSession.FileLocal |
