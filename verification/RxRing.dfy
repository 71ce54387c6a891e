/**
 The receive ring of the e1000 driver. Driver and device share 256 descriptors through a head and a tail
 register; the device may fill the descriptors from head up to, not including, tail (section 3.2.6 of Intel's
 PCI/PCI-X Family of Gigabit Ethernet Controllers Software Developer's Manual). A receive is a sequence of
 small steps, and the device may store a packet between any two of them.
 */
module RxRing {
  import opened Bytes

  /** What the device stores for a packet: its bytes and its error bits. */
  datatype Frame = Frame(bytes: seq<Byte>, errors: nat)

  datatype Desc = Desc(done: bool, length: nat, errors: nat)

  /** What one call of the driver returns: a result code and the bytes copied out. */
  datatype Result = Result(code: int, bytes: seq<Byte>)

  /** How far a receive has got: descriptor seen, data copied, status cleared, `rx_cur` advanced. */
  datatype Phase = Idle | Seen(maxLen: nat) | Copied | Cleared | Advanced

  // ---------- the queue ----------

  datatype Event = Arrive(frame: Frame) | Call(maxLen: nat) | Step

  /**
   The frames waiting, what the device accepted so far, and what the driver took and handed over, with the limit the
   caller gave each time.
   */
  datatype History = History(queue: seq<Frame>, phase: Phase, accepted: seq<Frame>, consumed: seq<Frame>,
      limits: seq<nat>, delivered: seq<Result>)

  const START := History([], Idle, [], [], [], [])

  /** A frame as the driver hands it over: an error, or its bytes up to the caller's limit. */
  function Delivery(frame: Frame, maxLen: nat): Result {
    if frame.errors != 0 then Result(-1, [])
    else if |frame.bytes| > maxLen then Result(maxLen, frame.bytes[..maxLen])
    else Result(|frame.bytes|, frame.bytes)
  }

  /** While a frame has been taken but its descriptor not given back, the ring holds one frame less. */
  function Capacity(phase: Phase): nat {
    if phase.Idle? || phase.Seen? then 255 else 254
  }

  /** A frame that finds the ring full is dropped by the device. */
  function Arrived(h: History, f: Frame): History {
    if |h.queue| < Capacity(h.phase) then h.(queue := h.queue + [f], accepted := h.accepted + [f]) else h
  }

  /** The start of a receive. The driver is one thread: a call while another is under way is not started. */
  function Called(h: History, maxLen: nat): History {
    if h.phase.Idle? && maxLen > 0 && h.queue != [] then h.(phase := Seen(maxLen)) else h
  }

  /** The next step of the receive under way. */
  function Stepped(h: History): History {
    match h.phase
    case Idle => h
    case Seen(m) =>
      if h.queue == [] then h
      else History(h.queue[1..], Copied, h.accepted, h.consumed + [h.queue[0]], h.limits + [m],
                   h.delivered + [Delivery(h.queue[0], m)])
    case Copied => h.(phase := Cleared)
    case Cleared => h.(phase := Advanced)
    case Advanced => h.(phase := Idle)
  }

  function After(h: History, e: Event): History {
    match e
    case Arrive(f) => Arrived(h, f)
    case Call(m) => Called(h, m)
    case Step => Stepped(h)
  }

  function AfterAll(h: History, events: seq<Event>): History {
    if events == [] then h else After(AfterAll(h, events[..|events| - 1]), events[|events| - 1])
  }

  /** What a call returns at once: an error without room for data, 0 without a packet, nothing yet otherwise. */
  function AtOnce(h: History, maxLen: nat): Option<Result> {
    if !h.phase.Idle? then None
    else if maxLen == 0 then Some(Result(-1, []))
    else if h.queue == [] then Some(Result(0, []))
    else None
  }

  /** What a step returns: the step that copies hands over the oldest waiting frame. */
  function StepOut(h: History): Option<Result> {
    if h.phase.Seen? && h.queue != [] then Some(Delivery(h.queue[0], h.phase.maxLen)) else None
  }

  /** What an event makes the driver return. */
  function Output(h: History, e: Event): Option<Result> {
    match e
    case Arrive(_) => None
    case Call(m) => AtOnce(h, m)
    case Step => StepOut(h)
  }

  /**
   `r` hands over `f` within the caller's limit `m`: a frame with errors as code -1 and no bytes, any other as its
   bytes from the first on, all of them if they fit and `m` of them if they do not, with their number as the code.
   */
  ghost predicate HandsOver(f: Frame, m: nat, r: Result)
  {
    if f.errors != 0 then r.code == -1 && r.bytes == []
    else r.code == |r.bytes| && r.bytes <= f.bytes && |r.bytes| == if |f.bytes| <= m then |f.bytes| else m
  }

  lemma DeliveryHandsOver(f: Frame, m: nat)
    ensures HandsOver(f, m, Delivery(f, m))
  {
  }

  /**
   No frame is lost, repeated or reordered: those consumed, then those waiting, are those accepted; and each
   consumed frame was handed over once, as data or as an error.
   */
  ghost predicate InOrderOnce(h: History)
  {
    && h.accepted == h.consumed + h.queue
    && |h.queue| <= Capacity(h.phase) <= 255 && (h.phase.Seen? ==> h.queue != [] && h.phase.maxLen > 0)
    && |h.delivered| == |h.limits| == |h.consumed|
    && forall i :: 0 <= i < |h.consumed| ==> h.limits[i] > 0 && HandsOver(h.consumed[i], h.limits[i], h.delivered[i])
  }

  lemma AfterInOrder(h: History, e: Event)
    requires InOrderOnce(h)
    ensures InOrderOnce(After(h, e))
  {
    var h' := After(h, e);
    if e.Step? && h.phase.Seen? {
      assert h.queue == [h.queue[0]] + h.queue[1..];
      assert h'.consumed + h'.queue == h.consumed + ([h.queue[0]] + h.queue[1..]);
      DeliveryHandsOver(h.queue[0], h.phase.maxLen);
    } else if e.Arrive? {
      assert h.consumed + (h.queue + [e.frame]) == h.consumed + h.queue + [e.frame];
    }
  }

  /** A packet that finds fewer than 254 waiting is accepted; one that finds 255 is not. */
  lemma ArrivalAccepted(h: History, f: Frame)
    ensures |h.queue| < 254 || (|h.queue| < 255 && h.phase.Idle?) ==>
              After(h, Arrive(f)) == h.(queue := h.queue + [f], accepted := h.accepted + [f])
    ensures |h.queue| >= 255 ==> After(h, Arrive(f)) == h
  {
  }

  /** It holds after every run, however the device's packets fall between the driver's steps. */
  lemma {:induction false} RunInOrder(h: History, events: seq<Event>)
    requires InOrderOnce(h)
    ensures InOrderOnce(AfterAll(h, events))
  {
    hide InOrderOnce, After;
    if events != [] {
      RunInOrder(h, events[..|events| - 1]);
      AfterInOrder(AfterAll(h, events[..|events| - 1]), events[|events| - 1]);
    }
  }

  function ErrorCount(frames: seq<Frame>): nat {
    if frames == [] then 0 else ErrorCount(frames[..|frames| - 1]) + if frames[|frames| - 1].errors != 0 then 1 else 0
  }

  function ByteCount(results: seq<Result>): nat {
    if results == [] then 0 else ByteCount(results[..|results| - 1]) + |results[|results| - 1].bytes|
  }

  lemma CountsNext(frames: seq<Frame>, f: Frame, results: seq<Result>, r: Result)
    ensures ErrorCount(frames + [f]) == ErrorCount(frames) + if f.errors != 0 then 1 else 0
    ensures ByteCount(results + [r]) == ByteCount(results) + |r.bytes|
  {
    assert (frames + [f])[..|frames|] == frames && (results + [r])[..|results|] == results;
  }

  // ---------- the ring ----------

  /** The descriptor `i` places after `cur`. */
  function Slot(cur: nat, i: nat): (s: nat)
    ensures s < 256
  {
    (cur + i) % 256
  }

  lemma SlotsDiffer(cur: nat, i: nat, j: nat)
    requires i < 256 && j < 256 && i != j
    ensures Slot(cur, i) != Slot(cur, j)
  {
  }

  lemma NextSlot(cur: nat, i: nat)
    ensures (Slot(cur, i) + 1) % 256 == Slot(cur, i + 1)
  {
  }

  lemma Rotated(cur: nat, i: nat)
    requires cur < 256 && i < 256
    ensures Slot((cur + 1) % 256, i) == if i == 255 then cur else Slot(cur, i + 1)
  {
    Wrapped(cur + 1);
    Wrapped(cur + 1 + i);
    if cur + 1 == 256 {
      Wrapped(i);
    }
  }

  lemma Wrapped(k: nat)
    requires k < 512
    ensures k % 256 == if k < 256 then k else k - 256
  {
  }

  /** Descriptor and buffer hold this frame. */
  ghost predicate Holds(d: Desc, buffer: seq<Byte>, f: Frame)
  {
    d.done && d.length == |f.bytes| && d.errors == f.errors && f.bytes <= buffer
  }

  class Ring {
    const descs: array<Desc>
    const buffers: array<seq<Byte>>
    var rxCur: nat
    var head: nat
    var tail: nat
    var packetsReceived: nat
    var bytesReceived: nat
    var errors: nat
    /** The receive under way, and its local copy of `rxCur`. */
    var phase: Phase
    var cur: nat
    ghost var history: History

    /** Places from `rxCur` to the first waiting frame. */
    ghost function Skip(): nat
      reads this
    {
      if phase.Copied? || phase.Cleared? then 1 else 0
    }

    /** Places from `rxCur` to the tail: one behind it, or two between advancing and writing the tail. */
    ghost function Reach(): nat
      reads this
    {
      if phase.Advanced? then 254 else 255
    }

    /**
     The waiting frames `q` are in the done descriptors from `skip` places after `rxCur` up to the head, the
     tail is `reach` places after `rxCur`, and nothing from the head on is done.
     */
    ghost predicate PlacedAt(q: seq<Frame>, skip: nat, reach: nat)
      reads this, descs, buffers
    {
      && descs.Length == 256 && buffers.Length == 256
      && rxCur < 256 && skip + |q| <= reach
      && tail == Slot(rxCur, reach)
      && head == Slot(rxCur, skip + |q|)
      && (forall i :: 0 <= i < |q| ==> Holds(descs[Slot(rxCur, skip + i)], buffers[Slot(rxCur, skip + i)], q[i]))
      && (forall i :: skip + |q| <= i < 256 ==> !descs[Slot(rxCur, i)].done)
    }

    /** The descriptor a receive has taken stays done until it is cleared. */
    ghost predicate Placed()
      reads this, descs, buffers
    {
      && PlacedAt(history.queue, Skip(), Reach())
      && (phase.Copied? ==> descs[rxCur].done)
      && (phase.Cleared? ==> !descs[rxCur].done)
    }

    lemma TakeFirst(q: seq<Frame>)
      requires PlacedAt(q, 0, 255) && q != []
      ensures PlacedAt(q[1..], 1, 255)
    {
      hide Slot, Holds;
      var q' := q[1..];
      forall i | 0 <= i < |q'|
        ensures Holds(descs[Slot(rxCur, 1 + i)], buffers[Slot(rxCur, 1 + i)], q'[i])
      {
        assert Holds(descs[Slot(rxCur, 0 + (i + 1))], buffers[Slot(rxCur, 0 + (i + 1))], q[i + 1]);
      }
    }

    ghost predicate Valid()
      reads this, descs, buffers
    {
      && Placed()
      && phase == history.phase && (phase.Seen? ==> history.queue != [])
      && cur < 256 && (phase.Advanced? ==> cur == Slot(rxCur, 255))
      && (!phase.Idle? && !phase.Advanced? ==> cur == rxCur)
      && errors == ErrorCount(history.consumed)
      && packetsReceived + errors == |history.consumed|
      && bytesReceived == ByteCount(history.delivered)
    }

    /** `e1000_init_rx`: no descriptor is done, head 0, tail 255. */
    constructor ()
      ensures Valid() && fresh(descs) && fresh(buffers) && history == START
    {
      descs := new Desc[256](_ => Desc(false, 0, 0));
      buffers := new seq<Byte>[256](_ => []);
      rxCur, head, tail := 0, 0, 255;
      packetsReceived, bytesReceived, errors := 0, 0, 0;
      phase, cur := Idle, 0;
      history := START;
    }

    lemma Front()
      requires Placed() && Skip() == 0
      ensures if history.queue == [] then !descs[rxCur].done else Holds(descs[rxCur], buffers[rxCur], history.queue[0])
    {
      assert Slot(rxCur, Skip() + 0) == rxCur;
    }

    lemma RingFull()
      requires Placed()
      ensures head == tail <==> Skip() + |history.queue| == Reach()
    {
      if Skip() + |history.queue| != Reach() {
        SlotsDiffer(rxCur, Skip() + |history.queue|, Reach());
      }
    }

    /** The device stores a packet in the descriptor at head, unless it has run up to the tail. */
    method DeviceFill(frame: Frame) returns (accepted: bool)
      requires Valid()
      modifies this`head, this`history, descs, buffers
      ensures Valid()
      ensures accepted == (|old(history.queue)| < if phase.Idle? || phase.Seen? then 255 else 254)
      ensures history == Arrived(old(history), frame)
    {
      hide Slot, ErrorCount, ByteCount;
      RingFull();
      if head == tail {
        return false;
      }
      ghost var n := Skip() + |history.queue|;
      forall i | 0 <= i < 256 && i != n
        ensures Slot(rxCur, i) != head
      {
        SlotsDiffer(rxCur, i, n);
      }
      SlotZero(rxCur);
      descs[head] := Desc(true, |frame.bytes|, frame.errors);
      buffers[head] := frame.bytes;
      NextSlot(rxCur, n);
      head := (head + 1) % 256;
      history := Arrived(history, frame);
      accepted := true;
    }

    /** The checks that start `e1000_receive_packet`. */
    method Begin(maxLen: nat) returns (r: Option<Result>)
      requires Valid()
      modifies this`phase, this`cur, this`history
      ensures Valid() && history == Called(old(history), maxLen) && r == AtOnce(old(history), maxLen)
    {
      hide Slot, ErrorCount, ByteCount;
      if !phase.Idle? {
        return None;
      }
      if maxLen == 0 {
        return Some(Result(-1, []));
      }
      Front();
      cur := rxCur;
      if !descs[cur].done {
        return Some(Result(0, []));
      }
      phase := Seen(maxLen);
      history := Called(history, maxLen);
      r := None;
    }

    /** Count an error, or copy the data out and count the packet. */
    method Copy(maxLen: nat) returns (r: Result)
      requires Valid() && phase == Seen(maxLen)
      modifies this`phase, this`history, this`errors, this`packetsReceived, this`bytesReceived
      ensures Valid() && history == Stepped(old(history)) && r == Delivery(old(history.queue)[0], maxLen)
      ensures HandsOver(old(history.queue)[0], maxLen, r)
    {
      hide Slot, ErrorCount, ByteCount;
      Front();
      var desc := descs[cur];
      if desc.errors != 0 {
        errors := errors + 1;
        r := Result(-1, []);
      } else {
        var len := if desc.length > maxLen then maxLen else desc.length;
        r := Result(len, buffers[cur][..len]);
        packetsReceived, bytesReceived := packetsReceived + 1, bytesReceived + len;
      }
      assert r == Delivery(history.queue[0], maxLen);
      DeliveryHandsOver(history.queue[0], maxLen);
      CountsNext(history.consumed, history.queue[0], history.delivered, r);
      TakeFirst(history.queue);
      phase := Copied;
      history := Stepped(history);
    }

    /** Reset the descriptor's status. */
    method Clear()
      requires Valid() && phase == Copied
      modifies this`phase, this`history, descs
      ensures Valid() && history == Stepped(old(history))
    {
      hide Slot, ErrorCount, ByteCount;
      SlotZero(rxCur);
      forall i | 1 <= i < 256
        ensures Slot(rxCur, i) != rxCur
      {
        SlotsDiffer(rxCur, i, 0);
      }
      descs[cur] := descs[cur].(done := false);
      phase := Cleared;
      history := Stepped(history);
    }

    /** Move on to the next descriptor. */
    method Advance()
      requires Valid() && phase == Cleared
      modifies this`phase, this`history, this`rxCur
      ensures Valid() && history == Stepped(old(history)) && rxCur == (old(rxCur) + 1) % 256
    {
      hide Slot, ErrorCount, ByteCount;
      ghost var cur0 := rxCur;
      rxCur := (cur + 1) % 256;
      phase := Advanced;
      history := Stepped(history);
      forall i | 0 <= i < 256
        ensures Slot(rxCur, i) == if i == 255 then cur0 else Slot(cur0, i + 1)
      {
        Rotated(cur0, i);
      }
    }

    /** Give the descriptor back: the tail is written with the index `rxCur` had. */
    method Publish()
      requires Valid() && phase == Advanced
      modifies this`phase, this`history, this`tail
      ensures Valid() && history == Stepped(old(history))
    {
      hide Slot, ErrorCount, ByteCount;
      tail := cur;
      phase := Idle;
      history := Stepped(history);
    }

    /** The next step of the receive under way, if there is one. */
    method Proceed() returns (r: Option<Result>)
      requires Valid()
      modifies this, descs
      ensures Valid() && history == Stepped(old(history))
      ensures r == StepOut(old(history))
    {
      hide Placed, ErrorCount, ByteCount;
      r := None;
      match phase {
        case Idle =>
        case Seen(m) =>
          var result := Copy(m);
          r := Some(result);
        case Copied => Clear();
        case Cleared => Advance();
        case Advanced => Publish();
      }
    }

    /** `e1000_receive_packet` from start to end, with nothing in between. */
    method ReceivePacket(maxLen: nat) returns (r: Result)
      requires Valid() && phase == Idle
      modifies this, descs
      ensures Valid() && phase == Idle && head == old(head) && tail == Slot(rxCur, 255)
      ensures maxLen == 0 ==> r == Result(-1, [])
      ensures maxLen > 0 ==>
                r == if old(history.queue) == [] then Result(0, []) else Delivery(old(history.queue)[0], maxLen)
      ensures maxLen > 0 && old(history.queue) != [] ==> HandsOver(old(history.queue)[0], maxLen, r)
      ensures history.accepted == old(history.accepted)
      ensures history.queue ==
                if maxLen > 0 && old(history.queue) != [] then old(history.queue)[1..] else old(history.queue)
    {
      hide ErrorCount, ByteCount, Slot;
      var atOnce := Begin(maxLen);
      if atOnce.Some? {
        return atOnce.value;
      }
      r := Copy(maxLen);
      Clear();
      Advance();
      Publish();
    }

    /**
     Any interleaving of arrivals, calls and single driver steps: the ring does what the queue does, and
     every result is the queue's.
     */
    method Run(events: seq<Event>) returns (outs: seq<Option<Result>>)
      requires Valid()
      modifies this, descs, buffers
      ensures Valid() && history == AfterAll(old(history), events)
      ensures |outs| == |events|
      ensures forall k :: 0 <= k < |events| ==> outs[k] == Output(AfterAll(old(history), events[..k]), events[k])
    {
      hide Placed, Valid, After, Output;
      outs := [];
      var k := 0;
      while k < |events|
        invariant 0 <= k <= |events| && |outs| == k
        invariant Valid() && history == AfterAll(old(history), events[..k])
        invariant forall j :: 0 <= j < k ==> outs[j] == Output(AfterAll(old(history), events[..j]), events[j])
      {
        assert events[..k + 1][..k] == events[..k];
        var out := Perform(events[k]);
        outs := outs + [out];
        k := k + 1;
      }
      assert events[..k] == events;
    }

    method Perform(e: Event) returns (out: Option<Result>)
      requires Valid()
      modifies this, descs, buffers
      ensures Valid() && history == After(old(history), e)
      ensures out == Output(old(history), e)
    {
      hide Placed, Valid;
      out := None;
      match e {
        case Arrive(f) => var accepted := DeviceFill(f);
        case Call(m) => out := Begin(m);
        case Step => out := Proceed();
      }
    }
  }

  lemma SlotZero(cur: nat)
    requires cur < 256
    ensures Slot(cur, 0) == cur
  {
  }
}
