// ClientThread: one connection's protocol state, its username and what it has written.

module Sessions {
  import opened Text
  import opened Faults
  import opened Protocol

  /** ServerState: the session's position in the protocol. */
  datatype State = INIT | CONNECTING | CONNECTED | FINISHED

  class Session {
    /** The protocol state; reassigned by the dispatcher and by kill. */
    var state: State
    /** The logged-in name; `None` until a HELO succeeds. */
    var username: Option<string>
    /** Every message handed to writeToClient, in order. */
    var sent: seq<string>
    /** The server configuration. */
    const conf: Config
    /** The random draws of the k-th call of writeToClient. */
    const oracle: nat -> Fault
    /** The text `socket.toString()` yields for this connection. */
    const descriptor: string

    /** The lines that reached the socket: the fault injector applied to every message
        handed to writeToClient so far. By Faults.WireAppend, each call of WriteToClient
        extends it by exactly the lines that call writes. */
    ghost function Outbox(): seq<string>
      reads this
    {
      Wire(conf.simulateDroppedPackets, conf.simulateCorruptedPackets, oracle, sent)
    }

    /** `new ClientThread(socket)`: state INIT, no username, nothing written. */
    constructor (conf: Config, oracle: nat -> Fault, descriptor: string)
      ensures state == INIT && username == None && sent == [] && Outbox() == []
      ensures this.conf == conf && this.oracle == oracle && this.descriptor == descriptor
    {
      state := INIT;
      username := None;
      sent := [];
      this.conf := conf;
      this.oracle := oracle;
      this.descriptor := descriptor;
    }

    /** writeToClient: draw the drop and corrupt decisions, then write the (possibly
        corrupted) message unless it is dropped. */
    method WriteToClient(message: string) returns (written: seq<string>)
      modifies `sent
      ensures sent == old(sent) + [message]
      ensures written == Delivered(conf.simulateDroppedPackets, conf.simulateCorruptedPackets, oracle(|old(sent)|), message)
      ensures state == old(state) && username == old(username)
    {
      var f := oracle(|sent|);
      var shouldDropPacket := conf.simulateDroppedPackets && f.drop;
      var shouldCorruptPacket := conf.simulateCorruptedPackets && f.corrupt;
      written := [];
      if !shouldDropPacket {
        var line := message;
        if shouldCorruptPacket {
          line := Corrupt(message, f.start, f.steps);
        }
        written := [line];
      }
      sent := sent + [message];
      assert sent[..|sent| - 1] == old(sent);
    }

    /** writeToClient for the line a loop pass produced, when it produced one. */
    method WriteReply(replies: seq<string>)
      requires |replies| <= 1
      modifies `sent
      ensures sent == old(sent) + replies
    {
      if replies != [] {
        var _ := WriteToClient(replies[0]);
        assert [replies[0]] == replies;
      }
    }
  }

  /** The text ALLCLIENTS concatenates for the sessions in `order`. */
  function ClientEntries(order: seq<Session>): string
    reads (set s | s in order)`username
    decreases |order|
  {
    if order == [] then ""
    else
      var n := |order| - 1;
      ClientEntries(order[..n]) + ClientEntry(order[n].username, order[n].descriptor)
  }
}
