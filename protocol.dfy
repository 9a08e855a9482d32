/**
 * What the two submission-protocol handlers share: the greeting, the
 * protocol error, the command words and the reply to `from`. The same
 * grammar is spoken at a transfer server's client port and at a mailbox
 * server's relay port.
 */
module Protocol {
  import opened Mails

  const Greeting := "ok DMTP2.0"
  const ProtocolError := "error protocol error"

  /** The commands of the submission protocol; any other word is Unknown. */
  datatype Command = Begin | Hash | To | From | Subject | Data | Send | Quit | Unknown

  function ParseCommand(word: string): Command {
    if word == "begin" then Begin
    else if word == "hash" then Hash
    else if word == "to" then To
    else if word == "from" then From
    else if word == "subject" then Subject
    else if word == "data" then Data
    else if word == "send" then Send
    else if word == "quit" then Quit
    else Unknown
  }

  /** The command words as the handlers' switch statements name them. */
  lemma CommandWords()
    ensures ParseCommand("begin") == Begin && ParseCommand("hash") == Hash
    ensures ParseCommand("to") == To && ParseCommand("from") == From && ParseCommand("subject") == Subject
    ensures ParseCommand("data") == Data && ParseCommand("send") == Send && ParseCommand("quit") == Quit
  {
  }

  /** The reply to `from`: the sender is stored either way; only a valid address is acknowledged. */
  function FromReply(content: string): string {
    if ValidMail(content) then "ok" else "error invalid sender email"
  }
}
