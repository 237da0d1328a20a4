/** The collaborator the registry wraps: an indie linter's delegate.
    Its own implementation lives in lib/indie-delegate.js, which is not part
    of this model; only what the registry relies on is kept here: a stable
    name taken from the configuration, the current message snapshot, and a
    dispose operation whose calls are counted. */
module IndieDelegates {

  /** A linter message. The registry passes messages through and never
      looks inside one. */
  type Message(==)

  /** The configuration an indie linter registers with; the registry only
      uses its name. */
  datatype Indie = Indie(name: string)

  class IndieDelegate {
    const name: string
    var messages: seq<Message>
    var disposeCalls: nat

    /** A fresh delegate for a validated configuration holds no messages. */
    constructor (config: Indie)
      ensures name == config.name && messages == [] && disposeCalls == 0
    {
      name := config.name;
      messages := [];
      disposeCalls := 0;
    }

    function GetMessages(): seq<Message>
      reads this
    {
      messages
    }

    /** The provider replaces the delegate's messages. Telling the registry
        (its update handler) is the caller's step in this model. */
    method SetAllMessages(msgs: seq<Message>)
      modifies this`messages
      ensures messages == msgs
    {
      messages := msgs;
    }

    /** Records that the delegate was asked to tear itself down. */
    method Dispose()
      modifies this`disposeCalls
      ensures disposeCalls == old(disposeCalls) + 1
    {
      disposeCalls := disposeCalls + 1;
    }
  }
}
