/** The device message queues of machine mode: requests that wait for input, responses that wait
    for the supervisor, and the software interrupt that announces them. */
module DevQueue {

  const CMD_READ: nat := 0x00
  const CMD_WRITE: nat := 0x01
  const CMD_IDENTIFY: nat := 0xFF
  const MAX_CMD: nat := 256
  const MAX_ID: nat := 64

  /** sbi_device_message; next is the sbi_private_data that links it into a queue. */
  class Message {
    var dev: nat
    var cmd: nat
    var data: nat
    var next: Message?

    constructor (d: nat, c: nat, x: nat)
      ensures dev == d && cmd == c && data == x && next == null
    {
      dev, cmd, data, next := d, c, x, null;
    }
  }

  /** The messages from head on, along the links, are those of q. */
  ghost predicate Linked(head: Message?, q: seq<Message>)
    reads q
  {
    && (if q == [] then head == null else head == q[0])
    && (forall i :: 0 <= i < |q| - 1 ==> q[i].next == q[i + 1])
    && (q != [] ==> q[|q| - 1].next == null)
  }

  ghost predicate NoDuplicate(q: seq<Message>) {
    forall i, j :: 0 <= i < j < |q| ==> q[i] != q[j]
  }

  /** The books: what was enqueued is what was handed back, then what still waits; what was
      accepted is what is still requested and what was enqueued. */
  ghost predicate Balanced<T>(reqs: seq<T>, resps: seq<T>, enqueued: seq<T>, returned: seq<T>, accepted: multiset<T>) {
    enqueued == returned + resps && accepted == multiset(reqs) + multiset(enqueued)
  }

  lemma Responded<T>(reqs: seq<T>, resps: seq<T>, enqueued: seq<T>, returned: seq<T>, accepted: multiset<T>, m: T)
    requires Balanced(reqs, resps, enqueued, returned, accepted)
    ensures Balanced(reqs, resps + [m], enqueued + [m], returned, accepted + multiset{m})
  {
  }

  lemma Requested<T>(reqs: seq<T>, resps: seq<T>, enqueued: seq<T>, returned: seq<T>, accepted: multiset<T>, m: T)
    requires Balanced(reqs, resps, enqueued, returned, accepted)
    ensures Balanced([m] + reqs, resps, enqueued, returned, accepted + multiset{m})
  {
  }

  /** A request that is taken out of its list, before it becomes a response. */
  lemma Taken<T>(reqs: seq<T>, resps: seq<T>, enqueued: seq<T>, returned: seq<T>, accepted: multiset<T>, i: nat)
    requires Balanced(reqs, resps, enqueued, returned, accepted) && i < |reqs|
    ensures Balanced(reqs[..i] + reqs[i + 1..], resps, enqueued, returned, accepted - multiset{reqs[i]})
    ensures accepted - multiset{reqs[i]} + multiset{reqs[i]} == accepted
  {
    assert reqs == reqs[..i] + [reqs[i]] + reqs[i + 1..];
  }

  lemma HandedBack<T>(reqs: seq<T>, resps: seq<T>, enqueued: seq<T>, returned: seq<T>, accepted: multiset<T>)
    requires Balanced(reqs, resps, enqueued, returned, accepted) && resps != []
    ensures Balanced(reqs, resps[1..], enqueued, returned + [resps[0]], accepted)
  {
    assert returned + [resps[0]] + resps[1..] == returned + resps;
  }

  /** What a call to queue a message comes to. */
  datatype Answer = Done | EFault | EInval | Panic

  /** hls_t, with the interrupt-pending bit SSIP of mip. */
  class Hls {
    var reqHead: Message?
    var reqSize: nat
    var respHead: Message?
    var respTail: Message?
    var ipiPending: bool
    var ssip: bool
    ghost var reqs: seq<Message>          // the request list, head first
    ghost var resps: seq<Message>         // the response list, head first
    ghost var enqueued: seq<Message>      // every response so far, in the order enqueued
    ghost var returned: seq<Message>      // every message handed back, in order
    ghost var accepted: multiset<Message> // every message taken

    /** Each accepted message is in exactly one place: still requested, waiting as a response,
        or handed back; responses come out in the order they went in; head and tail are null
        together; the stored size is the length of the request list; and the interrupt is
        pending while there are responses. */
    ghost predicate Valid()
      reads this, reqs, resps
    {
      && Linked(reqHead, reqs) && Linked(respHead, resps) && NoDuplicate(reqs + resps)
      && reqSize == |reqs|
      && (if resps == [] then respTail == null else respTail == resps[|resps| - 1])
      && (respHead == null <==> respTail == null)
      && (resps != [] ==> ssip)
      && Balanced(reqs, resps, enqueued, returned, accepted)
    }

    constructor ()
      ensures Valid() && reqs == [] && resps == [] && enqueued == [] && returned == [] && !ssip && !ipiPending
    {
      reqHead, reqSize, respHead, respTail := null, 0, null, null;
      ipiPending, ssip := false, false;
      reqs, resps, enqueued, returned, accepted := [], [], [], [], multiset{};
    }
  }

  lemma OneMore(q: seq<Message>, m: Message)
    requires NoDuplicate(q) && m !in q
    ensures NoDuplicate(q + [m]) && NoDuplicate([m] + q)
  {
    var c, d := q + [m], [m] + q;
    forall i, j | 0 <= i < j < |d|
      ensures d[i] != d[j]
    {
      assert d[j] == q[j - 1];
    }
  }

  /** The two lists have no message in common. */
  lemma ListsApart(a: seq<Message>, b: seq<Message>)
    requires NoDuplicate(a + b)
    ensures NoDuplicate(a) && NoDuplicate(b)
    ensures forall x :: x in a ==> x !in b
    ensures forall x :: x in b ==> x !in a
  {
    var q := a + b;
    forall i, j | 0 <= i < |a| && 0 <= j < |b|
      ensures a[i] != b[j]
    {
      assert q[i] == a[i] && q[|a| + j] == b[j];
    }
    forall i, j | 0 <= i < j < |a|
      ensures a[i] != a[j]
    {
      assert q[i] == a[i] && q[j] == a[j];
    }
    forall i, j | 0 <= i < j < |b|
      ensures b[i] != b[j]
    {
      assert q[|a| + i] == b[i] && q[|a| + j] == b[j];
    }
  }

  /** Links a message behind the response list and signals it. */
  method Enqueue(h: Hls, m: Message)
    requires h.Valid() && m !in h.reqs && m !in h.resps
    modifies h`respHead, h`respTail, h`ssip, h`resps, h`enqueued, h`accepted, h.resps, m`next
    ensures h.Valid() && h.resps == old(h.resps) + [m] && h.enqueued == old(h.enqueued) + [m]
    ensures h.accepted == old(h.accepted) + multiset{m} && h.ssip
    ensures forall x :: x in old(h.resps) ==> x.data == old(x.data) && x.dev == old(x.dev) && x.cmd == old(x.cmd)
  {
    hide Balanced;
    ghost var q, r := h.resps, h.reqs;
    ListsApart(r, q);
    OneMore(r + q, m);
    Responded(r, q, h.enqueued, h.returned, h.accepted, m);
    assert r + (q + [m]) == r + q + [m];
    assert q != [] ==> q[|q| - 1] in q;
    assert forall i :: 0 <= i < |r| ==> r[i] in r;
    assert forall i :: 0 <= i < |r| ==> r[i] !in q && r[i] != m;
    LinkTail(h, m);
    assert forall i :: 0 <= i < |r| ==> r[i].next == old(r[i].next);
    assert Linked(h.reqHead, r);
    Record(h, m);
  }

  /** The interrupt bit and the books. */
  method Record(h: Hls, m: Message)
    requires Linked(h.reqHead, h.reqs) && Linked(h.respHead, h.resps + [m]) && NoDuplicate(h.reqs + (h.resps + [m]))
    requires h.reqSize == |h.reqs| && h.respTail == m && h.respHead != null
    requires Balanced(h.reqs, h.resps + [m], h.enqueued + [m], h.returned, h.accepted + multiset{m})
    modifies h`ssip, h`resps, h`enqueued, h`accepted
    ensures h.Valid() && h.resps == old(h.resps) + [m] && h.enqueued == old(h.enqueued) + [m]
    ensures h.accepted == old(h.accepted) + multiset{m} && h.ssip
  {
    hide Balanced, Linked, NoDuplicate;
    h.ssip := true;
    h.resps := h.resps + [m];
    h.enqueued := h.enqueued + [m];
    h.accepted := h.accepted + multiset{m};
  }

  method LinkTail(h: Hls, m: Message)
    requires Linked(h.respHead, h.resps) && NoDuplicate(h.resps) && m !in h.resps
    requires if h.resps == [] then h.respTail == null else h.respTail == h.resps[|h.resps| - 1] && h.respTail in h.resps
    modifies h`respHead, h`respTail, h.resps, m`next
    ensures Linked(h.respHead, h.resps + [m]) && h.respTail == m && h.respHead != null
    ensures forall x :: x in h.resps ==> x.data == old(x.data) && x.dev == old(x.dev) && x.cmd == old(x.cmd)
  {
    m.next := null;
    if h.respTail != null {
      h.respTail.next := m;
    } else {
      h.respHead := m;
    }
    h.respTail := m;
  }

  /** mcall_respond. */
  method Respond(h: Hls, m: Message, resp: nat)
    requires h.Valid() && m !in h.reqs && m !in h.resps
    modifies h`respHead, h`respTail, h`ssip, h`resps, h`enqueued, h`accepted, h.resps, m
    ensures h.Valid() && h.resps == old(h.resps) + [m] && h.enqueued == old(h.enqueued) + [m]
    ensures h.accepted == old(h.accepted) + multiset{m} && h.ssip && m.data == resp
    ensures m.dev == old(m.dev) && m.cmd == old(m.cmd)
    ensures forall x :: x in old(h.resps) ==> x.data == old(x.data) && x.dev == old(x.dev) && x.cmd == old(x.cmd)
  {
    Enqueue(h, m);
    m.data := resp;
  }

  /** mcall_dev_req on a console read: the message waits at the head of the request list. */
  method PushRequest(h: Hls, m: Message)
    requires h.Valid() && m !in h.reqs && m !in h.resps
    modifies h`reqHead, h`reqSize, h`reqs, h`accepted, m`next
    ensures h.Valid() && h.reqs == [m] + old(h.reqs) && h.accepted == old(h.accepted) + multiset{m}
  {
    hide Balanced;
    ghost var r, q := h.reqs, h.resps;
    OneMore(r + q, m);
    assert [m] + r + q == [m] + (r + q);
    Requested(r, q, h.enqueued, h.returned, h.accepted, m);
    m.next := h.reqHead;
    assert forall i :: 0 <= i < |q| ==> q[i] in q && q[i].next == old(q[i].next);
    assert forall i :: 0 <= i < |r| ==> r[i] in r && r[i].next == old(r[i].next);
    LinkedPush(m, r);
    assert Linked(h.respHead, q);
    RecordRequest(h, m);
  }

  lemma LinkedPush(m: Message, r: seq<Message>)
    requires Linked(m.next, r)
    ensures Linked(m, [m] + r)
  {
    var q := [m] + r;
    forall i | 0 <= i < |q| - 1
      ensures q[i].next == q[i + 1]
    {
      if i > 0 {
        assert q[i] == r[i - 1] && q[i + 1] == r[i];
      }
    }
  }

  method RecordRequest(h: Hls, m: Message)
    requires Linked(m, [m] + h.reqs) && Linked(h.respHead, h.resps) && NoDuplicate([m] + h.reqs + h.resps)
    requires h.reqSize == |h.reqs| && (h.respHead == null <==> h.respTail == null) && (h.resps != [] ==> h.ssip)
    requires if h.resps == [] then h.respTail == null else h.respTail == h.resps[|h.resps| - 1]
    requires Balanced([m] + h.reqs, h.resps, h.enqueued, h.returned, h.accepted + multiset{m})
    modifies h`reqHead, h`reqSize, h`reqs, h`accepted
    ensures h.Valid() && h.reqs == [m] + old(h.reqs) && h.accepted == old(h.accepted) + multiset{m}
  {
    hide Balanced, Linked, NoDuplicate;
    h.reqHead := m;
    h.reqSize := h.reqSize + 1;
    h.reqs := [m] + h.reqs;
    h.accepted := h.accepted + multiset{m};
  }

  /** What the devices contribute to a request: whether the file behind the disk is there but does not
      open, whether it delivers, and the tag of a disk request. */
  datatype Devices = Devices(diskRefuses: bool, diskWorks: bool, tag: nat)

  /** The response to a request that is answered at once, or Panic. */
  function Response(dev: nat, cmd: nat, data: nat, d: Devices): (bool, nat) {
    if cmd == CMD_IDENTIFY then (!(dev == 1 && d.diskRefuses) && data / MAX_CMD % MAX_ID == 0, 1)
    else if dev == 0 && cmd == CMD_WRITE then (true, 0x100 + data % 256)
    else if dev == 1 && (cmd == CMD_READ || cmd == CMD_WRITE) then (d.diskWorks, d.tag)
    else (false, 0)
  }

  /** The answers by device and command: 0 reads, 1 writes, 255 identifies. The address for an identity, in
      the upper bits of the data, has to be a multiple of 64. */
  lemma ResponseIs(dev: nat, cmd: nat, data: nat, d: Devices)
    ensures cmd == 255 ==> Response(dev, cmd, data, d) == (data / 256 % 64 == 0 && !(dev == 1 && d.diskRefuses), 1)
    ensures dev == 0 && cmd == 1 ==> Response(dev, cmd, data, d) == (true, 256 + data % 256)
    ensures dev == 1 && cmd <= 1 ==> Response(dev, cmd, data, d) == (d.diskWorks, d.tag)
    ensures Response(dev, cmd, data, d).0 ==> cmd == 255 || (dev == 0 && cmd == 1) || (dev == 1 && cmd <= 1)
  {
  }

  /** mcall_dev_req, for a message that is not queued already. A refused message changes nothing;
      a console read waits for input; every other request is answered at once. */
  method DevReq(h: Hls, m: Message, addressable: bool, d: Devices) returns (a: Answer)
    requires h.Valid() && m !in h.reqs && m !in h.resps
    modifies h`reqHead, h`reqSize, h`reqs, h`respHead, h`respTail, h`ssip, h`resps, h`enqueued, h`accepted, h.resps, m
    ensures h.Valid()
    ensures a == if !addressable then EFault
                 else if old(m.dev > 0xFF || m.cmd > 0xFF || m.data > 0xFFFF_FFFF_FFFF) then EInval
                 else if old(m.dev == 0 && m.cmd == CMD_READ) || old(Response(m.dev, m.cmd, m.data, d)).0 then Done
                 else Panic
    ensures !a.Done? ==> h.reqs == old(h.reqs) && h.resps == old(h.resps) && h.accepted == old(h.accepted)
    ensures a.Done? ==> h.accepted == old(h.accepted) + multiset{m}
    ensures a.Done? && old(m.dev == 0 && m.cmd == CMD_READ) ==> h.reqs == [m] + old(h.reqs) && h.resps == old(h.resps)
    ensures a.Done? && !old(m.dev == 0 && m.cmd == CMD_READ) ==>
              && h.reqs == old(h.reqs) && h.resps == old(h.resps) + [m]
              && m.data == old(Response(m.dev, m.cmd, m.data, d)).1
    ensures h.returned == old(h.returned) && m.dev == old(m.dev) && m.cmd == old(m.cmd)
    ensures (a.Done? ==> old(m.dev == 0 && m.cmd == CMD_READ)) ==> m.data == old(m.data)
    ensures addressable && old(m.dev == 0 && m.cmd == 0 && m.data <= 0xFFFF_FFFF_FFFF) ==>
              a.Done? && h.reqs == [m] + old(h.reqs)
    ensures addressable && old(m.dev == 0 && m.cmd == 1 && m.data <= 0xFFFF_FFFF_FFFF) ==>
              a.Done? && h.resps == old(h.resps) + [m] && m.data == 256 + old(m.data) % 256
    ensures forall x :: x in old(h.reqs) || x in old(h.resps) ==>
              x.data == old(x.data) && x.dev == old(x.dev) && x.cmd == old(x.cmd)
  {
    ListsApart(h.reqs, h.resps);
    if !addressable {
      return EFault;
    }
    if m.dev > 0xFF || m.cmd > 0xFF || m.data > 0xFFFF_FFFF_FFFF {
      return EInval;
    }
    if m.dev == 0 && m.cmd == CMD_READ {
      PushRequest(h, m);
      return Done;
    }
    var r := Response(m.dev, m.cmd, m.data, d);
    if !r.0 {
      return Panic;
    }
    Respond(h, m, r.1);
    a := Done;
  }

  /** mcall_dev_resp: the oldest response, or null. The interrupt stays pending while responses
      are left, or another hart's signal is. */
  method DevResp(h: Hls) returns (m: Message?)
    requires h.Valid()
    modifies h`respHead, h`respTail, h`ssip, h`resps, h`returned
    ensures h.Valid() && h.enqueued == old(h.enqueued) && h.accepted == old(h.accepted) && h.reqs == old(h.reqs)
    ensures old(h.resps) == [] ==> m == null && h.resps == [] && h.ssip == old(h.ssip)
    ensures old(h.resps) != [] ==> m == old(h.resps)[0] && h.resps == old(h.resps)[1..]
                                   && h.returned == old(h.returned) + [m]
                                   && h.ssip == (|old(h.resps)| > 1 || h.ipiPending)
  {
    m := h.respHead;
    if m != null {
      ghost var q, r := h.resps, h.reqs;
      assert q != [] && m == q[0];
      LinkedPop(q);
      DropFirst(r, q);
      HandedBack(r, q, h.enqueued, h.returned, h.accepted);
      Unqueue(h, m);
    }
  }

  method Unqueue(h: Hls, m: Message)
    requires h.resps != [] && m == h.resps[0] && Linked(h.reqHead, h.reqs) && Linked(m.next, h.resps[1..])
    requires NoDuplicate(h.reqs + h.resps[1..]) && h.reqSize == |h.reqs| && h.ssip
    requires h.respTail == h.resps[|h.resps| - 1] && (m.next == null <==> h.resps[1..] == [])
    requires Balanced(h.reqs, h.resps[1..], h.enqueued, h.returned + [m], h.accepted)
    modifies h`respHead, h`respTail, h`ssip, h`resps, h`returned
    ensures h.Valid() && h.resps == old(h.resps)[1..] && h.returned == old(h.returned) + [m]
    ensures h.ssip == (|old(h.resps)| > 1 || h.ipiPending)
  {
    hide Balanced, Linked, NoDuplicate;
    var next := m.next;
    h.respHead := next;
    if next == null {
      h.respTail := null;
      h.ssip := false;
      if h.ipiPending {
        h.ssip := true;
      }
    }
    h.resps := h.resps[1..];
    h.returned := h.returned + [m];
  }

  lemma LinkedPop(q: seq<Message>)
    requires q != [] && Linked(q[0], q)
    ensures Linked(q[0].next, q[1..]) && (q[0].next == null <==> q[1..] == [])
    ensures q[1..] != [] ==> q[1..][|q[1..]| - 1] == q[|q| - 1]
  {
    var t := q[1..];
    forall i | 0 <= i < |t| - 1
      ensures t[i].next == t[i + 1]
    {
      assert t[i] == q[i + 1] && t[i + 1] == q[i + 2];
    }
  }

  lemma DropFirst(r: seq<Message>, q: seq<Message>)
    requires NoDuplicate(r + q) && q != []
    ensures NoDuplicate(r + q[1..])
  {
    var s, t := r + q, r + q[1..];
    forall i, j | 0 <= i < j < |t|
      ensures t[i] != t[j]
    {
      assert t[i] == s[if i < |r| then i else i + 1] && t[j] == s[if j < |r| then j else j + 1];
    }
  }

  /** mcall_clear_ipi: the interrupt is cleared only if no response is waiting. */
  method ClearIpi(h: Hls) returns (was: bool)
    requires h.Valid()
    modifies h`ssip, h`ipiPending
    ensures h.Valid() && was == old(h.ipiPending) && !h.ipiPending
    ensures h.ssip == (old(h.ssip) && h.resps != [])
  {
    if h.respHead == null {
      h.ssip := false;
    }
    was := h.ipiPending;
    h.ipiPending := false;
  }

  /** Whether a queued request waits for console input. */
  predicate WaitsForInput(m: Message)
    reads m
  {
    m.dev == 0 && m.cmd == CMD_READ
  }

  lemma RemoveAt(r: seq<Message>, q: seq<Message>, i: nat)
    requires NoDuplicate(r + q) && i < |r|
    ensures NoDuplicate(r[..i] + r[i + 1..] + q) && r[i] !in r[..i] + r[i + 1..] && r[i] !in q
    ensures forall x :: x in r[..i] + r[i + 1..] ==> x in r
  {
    var s, t := r + q, r[..i] + r[i + 1..] + q;
    forall j, k | 0 <= j < k < |t|
      ensures t[j] != t[k]
    {
      assert t[j] == s[if j < i then j else j + 1] && t[k] == s[if k < i then k else k + 1];
    }
    forall j | 0 <= j < |t|
      ensures t[j] != r[i]
    {
      assert t[j] == s[if j < i then j else j + 1] && s[i] == r[i];
    }
    var u := r[..i] + r[i + 1..];
    assert forall k :: 0 <= k < |u| ==> u[k] == t[k];
    assert forall k :: 0 <= k < |q| ==> q[k] == t[|u| + k];
  }

  /** Takes the i-th request out of its list. */
  method Unlink(h: Hls, i: nat, prev: Message?, m: Message)
    requires h.Valid() && i < |h.reqs| && m == h.reqs[i]
    requires if i == 0 then prev == null else prev == h.reqs[i - 1]
    modifies h`reqHead, h`reqSize, h`reqs, h`accepted, h.reqs
    ensures h.Valid() && h.reqs == old(h.reqs)[..i] + old(h.reqs)[i + 1..] && m !in h.reqs && m !in h.resps
    ensures h.accepted == old(h.accepted) - multiset{m} && h.accepted + multiset{m} == old(h.accepted)
    ensures forall x :: x in old(h.reqs) ==> x.data == old(x.data) && x.dev == old(x.dev) && x.cmd == old(x.cmd)
  {
    hide Balanced;
    ghost var r, q := h.reqs, h.resps;
    RemoveAt(r, q, i);
    ListsApart(r, q);
    Taken(r, q, h.enqueued, h.returned, h.accepted, i);
    assert i > 0 ==> r[i - 1] in r;
    assert forall j :: 0 <= j < |q| ==> q[j] !in r;
    LinkOut(h, i, prev, m);
    assert forall j :: 0 <= j < |q| ==> q[j].next == old(q[j].next);
    assert Linked(h.respHead, q);
    RecordRemoval(h, i);
  }

  method LinkOut(h: Hls, i: nat, prev: Message?, m: Message)
    requires Linked(h.reqHead, h.reqs) && NoDuplicate(h.reqs) && i < |h.reqs| && m == h.reqs[i]
    requires if i == 0 then prev == null else prev == h.reqs[i - 1] && prev in h.reqs
    modifies h`reqHead, h.reqs
    ensures Linked(h.reqHead, h.reqs[..i] + h.reqs[i + 1..])
    ensures forall x :: x in h.reqs ==> x.data == old(x.data) && x.dev == old(x.dev) && x.cmd == old(x.cmd)
  {
    ghost var r := h.reqs;
    var next := m.next;
    assert next == if i + 1 < |r| then r[i + 1] else null;
    if prev != null {
      prev.next := next;
    } else {
      h.reqHead := next;
    }
    assert forall j :: 0 <= j < |r| && j != i - 1 ==> r[j].next == old(r[j].next);
    ghost var t := r[..i] + r[i + 1..];
    forall j | 0 <= j < |t| - 1
      ensures t[j].next == t[j + 1]
    {
      assert t[j] == r[if j < i then j else j + 1] && t[j + 1] == r[if j + 1 < i then j + 1 else j + 2];
    }
    if t != [] {
      assert t[|t| - 1] == r[if |t| - 1 < i then |t| - 1 else |t|];
      assert t[0] == r[if 0 < i then 0 else 1];
    }
  }

  method RecordRemoval(h: Hls, i: nat)
    requires i < |h.reqs| && Linked(h.reqHead, h.reqs[..i] + h.reqs[i + 1..]) && Linked(h.respHead, h.resps)
    requires NoDuplicate(h.reqs[..i] + h.reqs[i + 1..] + h.resps) && h.reqSize == |h.reqs|
    requires (h.respHead == null <==> h.respTail == null) && (h.resps != [] ==> h.ssip)
    requires if h.resps == [] then h.respTail == null else h.respTail == h.resps[|h.resps| - 1]
    requires Balanced(h.reqs[..i] + h.reqs[i + 1..], h.resps, h.enqueued, h.returned, h.accepted - multiset{h.reqs[i]})
    modifies h`reqSize, h`reqs, h`accepted
    ensures h.Valid() && h.reqs == old(h.reqs)[..i] + old(h.reqs)[i + 1..]
    ensures h.accepted == old(h.accepted) - multiset{old(h.reqs)[i]}
  {
    hide Balanced, Linked, NoDuplicate;
    h.reqSize := h.reqSize - 1;
    h.accepted := h.accepted - multiset{h.reqs[i]};
    h.reqs := h.reqs[..i] + h.reqs[i + 1..];
  }

  /** io_irq_service: the first request that waits for console input gets the character and
      becomes a response; every other message stays where it is. Without such a request, or
      without a character, the kernel stops. */
  method IoIrqService(h: Hls, ready: bool, ch: nat) returns (a: Answer)
    requires h.Valid() && ch < 256
    modifies h`reqHead, h`reqSize, h`reqs, h`respHead, h`respTail, h`ssip, h`resps, h`enqueued, h`accepted,
             h.reqs, h.resps
    ensures h.Valid() && h.accepted == old(h.accepted) && h.returned == old(h.returned)
    ensures a == if ready && exists i :: 0 <= i < |old(h.reqs)| && old(WaitsForInput(h.reqs[i])) then Done else Panic
    ensures !a.Done? ==> h.reqs == old(h.reqs) && h.resps == old(h.resps)
    ensures !a.Done? ==> forall x :: x in old(h.reqs) || x in old(h.resps) ==>
              x.data == old(x.data) && x.dev == old(x.dev) && x.cmd == old(x.cmd)
    ensures a.Done? ==>
              && h.ssip
              && (exists i ::
                    && 0 <= i < |old(h.reqs)| && old(WaitsForInput(h.reqs[i]))
                    && (forall j :: 0 <= j < i ==> !old(WaitsForInput(h.reqs[j])))
                    && h.reqs == old(h.reqs)[..i] + old(h.reqs)[i + 1..]
                    && h.resps == old(h.resps) + [old(h.reqs)[i]] && old(h.reqs)[i].data == 0x100 + ch
                    && forall x :: x in old(h.reqs) || x in old(h.resps) ==>
                         x.dev == old(x.dev) && x.cmd == old(x.cmd) && (x != old(h.reqs)[i] ==> x.data == old(x.data)))
  {
    hide Balanced, NoDuplicate;
    if !ready {
      return Panic;
    }
    var m, prev: Message? := h.reqHead, null;
    ghost var r := h.reqs;
    var i, n := 0, h.reqSize;
    while i < n
      invariant 0 <= i <= n == |r| && r == h.reqs
      invariant i < n ==> m == r[i]
      invariant if i == 0 then prev == null else prev == r[i - 1]
      invariant forall j :: 0 <= j < i ==> !WaitsForInput(r[j])
    {
      if WaitsForInput(m) {
        Serve(h, i, prev, m, ch);
        return Done;
      }
      prev := m;
      m := m.next;
      i := i + 1;
    }
    a := Panic;
  }

  /** Gives the character to the i-th request and makes it a response. */
  method Serve(h: Hls, i: nat, prev: Message?, m: Message, ch: nat)
    requires h.Valid() && i < |h.reqs| && m == h.reqs[i] && ch < 256
    requires if i == 0 then prev == null else prev == h.reqs[i - 1]
    modifies h`reqHead, h`reqSize, h`reqs, h`respHead, h`respTail, h`ssip, h`resps, h`enqueued, h`accepted,
             h.reqs, h.resps
    ensures h.Valid() && h.accepted == old(h.accepted) && h.ssip && m.data == 0x100 + ch
    ensures h.reqs == old(h.reqs)[..i] + old(h.reqs)[i + 1..] && h.resps == old(h.resps) + [m]
    ensures forall x :: x in old(h.reqs) || x in old(h.resps) ==>
              x.dev == old(x.dev) && x.cmd == old(x.cmd) && (x != m ==> x.data == old(x.data))
  {
    hide Balanced, Linked, NoDuplicate;
    assert m in h.reqs;
    ListsApart(h.reqs, h.resps);
    Unlink(h, i, prev, m);
    m.data := 0x100 + ch;
    Enqueue(h, m);
  }
}
