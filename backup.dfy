// calc_prime_r_recv_backup: receive file records one after the other until the calculator
// sends an end-of-backup packet (a success without an entry, such as a lone 0xF9 byte) or a
// receive fails. Every entry received is appended to the list the caller gets back.

module Backup {
  import opened PrimeTypes
  import opened Transport
  import opened Responses

  /** Every item of a queue is well formed. */
  predicate QueueValid(q: seq<Inbound>) {
    forall i :: 0 <= i < |q| ==> q[i].Valid()
  }

  /** The replies calc_prime_r_recv_file gives, with an output pointer, to the items of a queue. */
  function Replies(q: seq<Inbound>): seq<Reply<Option<Entry>>>
    requires QueueValid(q)
  {
    seq(|q|, i requires 0 <= i < |q| => FileResponse(q[i], true))
  }

  /** A reply that carries an entry: the loop goes on after it. */
  predicate Continues(r: Reply<Option<Entry>>) {
    r.status == Success && r.out.Written? && r.out.value.Some?
  }

  /** The loop of calc_prime_r_recv_backup over a sequence of replies, with fallback the status
      of a receive once the replies run out: the status it returns, the entries it collects,
      and how many replies it consumes. */
  function Collect(rs: seq<Reply<Option<Entry>>>, fallback: Status): (b: (Status, seq<Entry>, nat))
    ensures b.2 <= |rs|
    decreases |rs|
  {
    if rs == [] then (fallback, [], 0)
    else if Continues(rs[0]) then
      var rest := Collect(rs[1..], fallback);
      (rest.0, [rs[0].out.value.value] + rest.1, rest.2 + 1)
    else
      (rs[0].status, [], 1)
  }

  /** The loop collects the entries of the replies up to the first one without an entry, in
      order; that reply, if there is one, ends the loop and gives the status, and otherwise the
      fallback does. */
  lemma {:induction false} CollectShape(rs: seq<Reply<Option<Entry>>>, fallback: Status)
    ensures var b, k := Collect(rs, fallback), |Collect(rs, fallback).1|;
      && k <= |rs|
      && (forall i :: 0 <= i < k ==> Continues(rs[i]) && b.1[i] == rs[i].out.value.value)
      && ((k < |rs| && !Continues(rs[k]) && b.0 == rs[k].status && b.2 == k + 1)
          || (k == |rs| && b.0 == fallback && b.2 == k))
    decreases |rs|
  {
    if rs != [] && Continues(rs[0]) {
      CollectShape(rs[1..], fallback);
      var b := Collect(rs, fallback);
      var rest := Collect(rs[1..], fallback);
      assert b.1 == [rs[0].out.value.value] + rest.1;
      forall i | 0 < i < |b.1|
        ensures Continues(rs[i]) && b.1[i] == rs[i].out.value.value
      {
        assert b.1[i] == rest.1[i - 1] && rs[1..][i - 1] == rs[i];
      }
      if |rest.1| < |rs[1..]| {
        assert rs[1..][|rest.1|] == rs[|b.1|];
      }
    }
  }

  /** One turn of the loop: a reply with an entry adds it and goes on. */
  lemma CollectStep(rs: seq<Reply<Option<Entry>>>, fallback: Status, n: nat)
    requires n < |rs| && Continues(rs[n])
    ensures var b, rest := Collect(rs[n..], fallback), Collect(rs[n + 1..], fallback);
      b == (rest.0, [rs[n].out.value.value] + rest.1, rest.2 + 1)
  {
    assert rs[n..][0] == rs[n] && rs[n..][1..] == rs[n + 1..];
  }

  /** What *out_vars holds afterwards: the entries collected, once there is at least one. */
  function OutVars(wantVars: bool, entries: seq<Entry>): Out<seq<Entry>> {
    if wantVars && entries != [] then Written(entries) else Untouched
  }

  /** The first k replies carry the entries es, in order. */
  predicate Records(rs: seq<Reply<Option<Entry>>>, es: seq<Entry>) {
    |es| <= |rs| && forall i :: 0 <= i < |es| ==> Continues(rs[i]) && rs[i].out.value.value == es[i]
  }

  /** The entries collected are the leading replies that carry one; the reply after them, if
      there is one, ends the loop and gives the status, and otherwise the fallback does. */
  lemma CollectCount(rs: seq<Reply<Option<Entry>>>, fallback: Status, es: seq<Entry>)
    requires Records(rs, es) && (|es| == |rs| || !Continues(rs[|es|]))
    ensures Collect(rs, fallback).1 == es
    ensures |es| < |rs| ==> Collect(rs, fallback).0 == rs[|es|].status && Collect(rs, fallback).2 == |es| + 1
    ensures |es| == |rs| ==> Collect(rs, fallback).0 == fallback && Collect(rs, fallback).2 == |es|
  {
    CollectShape(rs, fallback);
    var b := Collect(rs, fallback);
    assert |b.1| == |es|;
    assert forall i :: 0 <= i < |es| ==> b.1[i] == es[i];
  }

  /** k records followed by an end-of-backup reply: success, with exactly the k entries, in the
      order they arrived, and k + 1 replies consumed. */
  lemma CollectsRecords(rs: seq<Reply<Option<Entry>>>, fallback: Status, es: seq<Entry>)
    requires Records(rs, es) && |es| < |rs|
    requires rs[|es|].status == Success && !Continues(rs[|es|])
    ensures Collect(rs, fallback) == (Success, es, |es| + 1)
  {
    CollectCount(rs, fallback, es);
  }

  /** k records followed by a reply whose reception failed: that failure is the status, the k
      entries are kept, and k + 1 replies are consumed. */
  lemma StopsAtFailure(rs: seq<Reply<Option<Entry>>>, fallback: Status, es: seq<Entry>)
    requires Records(rs, es) && |es| < |rs|
    requires rs[|es|].status != Success
    ensures Collect(rs, fallback) == (rs[|es|].status, es, |es| + 1)
  {
    CollectCount(rs, fallback, es);
  }

  /** k records and nothing after them: the fallback is the status and the k entries are kept. */
  lemma RunsDry(rs: seq<Reply<Option<Entry>>>, fallback: Status, es: seq<Entry>)
    requires Records(rs, es) && |es| == |rs|
    ensures Collect(rs, fallback) == (fallback, es, |es|)
  {
    CollectCount(rs, fallback, es);
  }

  /** The replies to what is left of a queue are what is left of its replies. */
  lemma RepliesDrop(q: seq<Inbound>, n: nat)
    requires QueueValid(q) && n <= |q|
    ensures QueueValid(q[n..]) && Replies(q[n..]) == Replies(q)[n..]
  {
    assert QueueValid(q[n..]) by {
      forall i | 0 <= i < |q[n..]|
        ensures q[n..][i].Valid()
      {
        assert q[n..][i] == q[n + i];
      }
    }
  }

  /** One receive of the loop: calc_prime_r_recv_file with an output pointer, its CRC log left aside. */
  method NextReply(h: Link, tags: Tags) returns (r: Reply<Option<Entry>>)
    requires h.Valid()
    modifies h
    ensures h.Valid() && QueueValid(old(h.inbox))
    ensures old(h.inbox) != [] ==> r == Replies(old(h.inbox))[0] && h.inbox == old(h.inbox)[1..]
    ensures old(h.inbox) == [] ==> r == Reply(Transport(h.idle), Untouched) && h.inbox == []
    ensures h.sent == old(h.sent) && h.sendReplies == old(h.sendReplies) && h.idle == old(h.idle)
  {
    var res, out, check := RecvFile(h, tags, true);
    r := Reply(res, out);
  }

  /** calc_prime_r_recv_backup. wantVars says whether out_vars is given. */
  method RecvBackup(h: Link?, tags: Tags, wantVars: bool) returns (res: Status, outVars: Out<seq<Entry>>)
    requires h != null ==> h.Valid()
    modifies h
    ensures h == null ==> res == InvalidParameter && outVars == Untouched
    ensures h != null ==> h.Valid() && QueueValid(old(h.inbox))
    ensures h != null ==> res == Collect(Replies(old(h.inbox)), Transport(h.idle)).0
    ensures h != null ==> outVars == OutVars(wantVars, Collect(Replies(old(h.inbox)), Transport(h.idle)).1)
    ensures h != null ==> h.inbox == old(h.inbox)[Collect(Replies(old(h.inbox)), Transport(h.idle)).2..]
    ensures h != null ==> h.sent == old(h.sent) && h.sendReplies == old(h.sendReplies) && h.idle == old(h.idle)
  {
    outVars := Untouched;
    if h == null {
      return InvalidParameter, Untouched;
    }
    ghost var q0 := h.inbox;
    ghost var rs := Replies(q0);
    ghost var fallback := Transport(h.idle);
    ghost var total := Collect(rs, fallback);
    ghost var n := 0;
    var entries: seq<Entry> := [];
    assert total.1 == entries + Collect(rs[n..], fallback).1;
    while true
      invariant h.Valid() && h.idle == old(h.idle) && fallback == Transport(h.idle)
      invariant h.sent == old(h.sent) && h.sendReplies == old(h.sendReplies)
      invariant n <= |q0| && h.inbox == q0[n..]
      invariant total.0 == Collect(rs[n..], fallback).0
      invariant total.1 == entries + Collect(rs[n..], fallback).1
      invariant total.2 == n + Collect(rs[n..], fallback).2
      invariant outVars == OutVars(wantVars, entries)
      decreases |h.inbox|
    {
      RepliesDrop(q0, n);
      var r := NextReply(h, tags);
      res := r.status;
      assert n < |q0| ==> r == rs[n];
      assert n == |q0| ==> r == Reply(fallback, Untouched) && rs[n..] == [];
      if res == Success {
        if r.out.Written? && r.out.value.Some? {
          CollectStep(rs, fallback, n);
          ghost var later := Collect(rs[n + 1..], fallback);
          assert entries + ([r.out.value.value] + later.1) == (entries + [r.out.value.value]) + later.1;
          entries := entries + [r.out.value.value];
          n := n + 1;
          if wantVars {
            outVars := Written(entries);
          }
        } else {
          assert rs[n..][0] == rs[n];
          assert Collect(rs[n..], fallback) == (rs[n].status, [], 1);
          assert h.inbox == q0[n + 1..];
          assert total.1 == entries + [] == entries;
          res := Success;
          break;
        }
      } else {
        assert n < |q0| ==> rs[n..][0] == rs[n] && Collect(rs[n..], fallback) == (rs[n].status, [], 1);
        assert n == |q0| ==> Collect(rs[n..], fallback) == (fallback, [], 0);
        assert n < |q0| ==> h.inbox == q0[n + 1..];
        assert total.1 == entries + [] == entries;
        break;
      }
    }
  }
}
