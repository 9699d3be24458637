/** The part of Protocol that takes part in the release of connections and messages. */
module Protocol {
  import opened Wrappers
  import Lifetime

  class ProtocolObject {
    var m_connection: Option<Lifetime.ConnId>
    var m_refCount: nat
    var m_outputBuffer: Option<Lifetime.MsgId>
    var retries: nat        // releaseProtocol events with the scheduler
    var deletions: nat

    ghost function View(): Lifetime.Proto
      reads this
    {
      Lifetime.Proto(m_connection, m_refCount, retries, deletions)
    }

    constructor (connection: Option<Lifetime.ConnId>)
      ensures View() == Lifetime.Proto(connection, 0, 0, 0) && m_outputBuffer == None
    {
      m_connection, m_refCount, m_outputBuffer, retries, deletions := connection, 0, None, 0, 0;
    }

    method ReleaseProtocol()
      modifies this
      ensures View() == if m_refCount > 0 then old(View()).(retries := old(retries) + 1)
                        else old(View()).(connection := None, deletions := old(deletions) + 1)
      ensures View() == Lifetime.ReleaseProtocolF(old(View())) && m_outputBuffer == old(m_outputBuffer)
    {
      if m_refCount > 0 {
        retries := retries + 1;
      } else {
        DeleteProtocolTask();
      }
    }

    method DeleteProtocolTask()
      requires m_refCount == 0
      modifies this
      ensures View() == old(View()).(connection := None, deletions := old(deletions) + 1)
      ensures m_outputBuffer == old(m_outputBuffer)
    {
      SetConnection(None);
      deletions := deletions + 1;
    }

    method SetConnection(connection: Option<Lifetime.ConnId>)
      modifies this`m_connection
      ensures m_connection == connection
    {
      m_connection := connection;
    }

    /** Lets go of the message that has just been sent, and of no other. */
    method OnSendMessage(msg: Lifetime.MsgId)
      modifies this`m_outputBuffer
      ensures m_outputBuffer == if old(m_outputBuffer) == Some(msg) then None else old(m_outputBuffer)
    {
      if m_outputBuffer == Some(msg) {
        m_outputBuffer := None;
      }
    }
  }
}
