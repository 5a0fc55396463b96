// The transport underneath the command layer (prime_send_data and prime_recv_data, which are
// not part of this model), reduced to what the command layer can observe: an outbox of the
// packets handed over for sending, the statuses the transport reports for those sends, and a
// queue of what the next receive calls deliver.

module Transport {
  import opened PrimeTypes

  /** What a receive on a queue delivers, and the queue left behind. When nothing more is
      queued the transport reports the failure code idle (a timeout, say). */
  function Pop(queue: seq<Inbound>, idle: int): (Inbound, seq<Inbound>) {
    if queue == [] then (Fault(idle), []) else (queue[0], queue[1..])
  }

  /** An open connection to a calculator: the handle the command layer is given. */
  class Link {
    /** The packets handed to the transport for sending, oldest first. */
    var sent: seq<Packet>
    /** The statuses the transport reports for the next sends; once these run out, sends succeed. */
    var sendReplies: seq<Status>
    /** What the next receive calls deliver, in order. */
    var inbox: seq<Inbound>
    /** The failure code a receive reports once the inbox is empty. */
    var idle: int

    predicate Valid()
      reads this
    {
      idle != 0 && forall i :: 0 <= i < |inbox| ==> inbox[i].Valid()
    }

    constructor (replies: seq<Status>, incoming: seq<Inbound>, idleCode: int)
      requires idleCode != 0
      requires forall i :: 0 <= i < |incoming| ==> incoming[i].Valid()
      ensures Valid()
      ensures sent == [] && sendReplies == replies && inbox == incoming && idle == idleCode
    {
      sent := [];
      sendReplies := replies;
      inbox := incoming;
      idle := idleCode;
    }

    /** prime_send_data: hand a packet to the transport and report its status. */
    method SendData(p: Packet) returns (res: Status)
      requires Valid()
      modifies this
      ensures Valid()
      ensures sent == old(sent) + [p]
      ensures old(sendReplies) == [] ==> res == Success && sendReplies == []
      ensures old(sendReplies) != [] ==> res == old(sendReplies)[0] && sendReplies == old(sendReplies)[1..]
      ensures inbox == old(inbox) && idle == old(idle)
    {
      sent := sent + [p];
      if sendReplies == [] {
        res := Success;
      } else {
        res := sendReplies[0];
        sendReplies := sendReplies[1..];
      }
    }

    /** prime_recv_data: take what the transport delivers next. */
    method RecvData() returns (item: Inbound)
      requires Valid()
      modifies this
      ensures Valid()
      ensures (item, inbox) == Pop(old(inbox), idle)
      ensures item.Valid()
      ensures sent == old(sent) && sendReplies == old(sendReplies) && idle == old(idle)
    {
      if inbox == [] {
        item := Fault(idle);
      } else {
        item := inbox[0];
        inbox := inbox[1..];
      }
    }
  }
}
