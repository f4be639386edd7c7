/** USART2 receive pipeline and transmit path (Drivers/System/usart/usart.c).

    Bytes delivered by the receive interrupt go into a 256-slot circular
    buffer; `receive_packet`, run by the application outside the
    interrupt, drains that buffer through a two-state framer that
    recognises HEADER payload FOOTER frames with at most RX_SIZE payload
    bytes. The transmit side wraps a payload
    with HEADER and FOOTER and hands it to the HAL, modelled here as a
    trace of transmit calls. */
module Usart {
  import opened CTypes

  const CIRC_BUFF_SIZE: nat := 256
  const RX_SIZE: nat := 20
  const PACKET_HEADER: uint8 := 0xAA
  const PACKET_FOOTER: uint8 := 0x55

  // ---------------------------------------------------------------------
  // Circular buffer: cursor arithmetic and the pending bytes
  // ---------------------------------------------------------------------

  /** `(i + 1) & 0xFF`: the cursor after `i`, wrapping at the buffer size. */
  function NextIndex(i: nat): (r: nat)
    ensures r < CIRC_BUFF_SIZE
    ensures i < CIRC_BUFF_SIZE - 1 ==> r == i + 1
    ensures i == CIRC_BUFF_SIZE - 1 ==> r == 0
  {
    (i + 1) % CIRC_BUFF_SIZE
  }

  /** The buffer is full when advancing `head` would make it meet `tail`. */
  predicate IsFull(head: nat, tail: nat) {
    NextIndex(head) == tail
  }

  /** The unread bytes of a ring with storage `buf`, from `tail` (oldest)
      up to, not including, `head`. */
  function PendingOf(buf: seq<uint8>, head: nat, tail: nat): (r: seq<uint8>)
    requires |buf| == CIRC_BUFF_SIZE && head < CIRC_BUFF_SIZE && tail < CIRC_BUFF_SIZE
    ensures |r| == (head - tail) % CIRC_BUFF_SIZE
    ensures |r| <= CIRC_BUFF_SIZE - 1
    ensures |r| == 0 <==> head == tail
    ensures forall i :: 0 <= i < |r| ==> r[i] == buf[(tail + i) % CIRC_BUFF_SIZE]
  {
    if tail <= head then buf[tail..head] else buf[tail..] + buf[..head]
  }

  /** Full exactly when 255 bytes, one less than the storage, are pending. */
  lemma FullIffMaxPending(buf: seq<uint8>, head: nat, tail: nat)
    requires |buf| == CIRC_BUFF_SIZE && head < CIRC_BUFF_SIZE && tail < CIRC_BUFF_SIZE
    ensures IsFull(head, tail) <==> |PendingOf(buf, head, tail)| == CIRC_BUFF_SIZE - 1
  {
  }

  /** Storing at `head` and advancing it appends exactly that byte to the
      pending bytes, when the ring is not full. */
  lemma PushAppends(buf: seq<uint8>, head: nat, tail: nat, b: uint8)
    requires |buf| == CIRC_BUFF_SIZE && head < CIRC_BUFF_SIZE && tail < CIRC_BUFF_SIZE
    requires !IsFull(head, tail)
    ensures PendingOf(buf[head := b], NextIndex(head), tail) == PendingOf(buf, head, tail) + [b]
  {
    var before := PendingOf(buf, head, tail);
    var after := PendingOf(buf[head := b], NextIndex(head), tail);
    assert |after| == |before| + 1;
    forall i | 0 <= i < |after|
      ensures after[i] == (before + [b])[i]
    {
      if i < |before| {
        assert (tail + i) % CIRC_BUFF_SIZE != head;
      } else {
        assert (tail + i) % CIRC_BUFF_SIZE == head;
      }
    }
  }

  /** Taking the byte at `tail` and advancing it removes the oldest pending
      byte, when the ring is not empty. */
  lemma PopFront(buf: seq<uint8>, head: nat, tail: nat)
    requires |buf| == CIRC_BUFF_SIZE && head < CIRC_BUFF_SIZE && tail < CIRC_BUFF_SIZE
    requires head != tail
    ensures PendingOf(buf, head, tail)[0] == buf[tail]
    ensures PendingOf(buf, head, NextIndex(tail)) == PendingOf(buf, head, tail)[1..]
  {
    var before := PendingOf(buf, head, tail);
    var after := PendingOf(buf, head, NextIndex(tail));
    assert |after| == |before| - 1;
    forall i | 0 <= i < |after|
      ensures after[i] == before[1..][i]
    {
      assert (NextIndex(tail) + i) % CIRC_BUFF_SIZE == (tail + (i + 1)) % CIRC_BUFF_SIZE;
    }
  }

  /** `CircularBuffer g_circ_struct`: storage, write cursor `head` (advanced
      only by the producer) and read cursor `tail` (advanced only by the
      consumer). The cursors are `uint16_t` in C but only ever hold 0..255. */
  class CircularBuffer {
    var data: array<uint8>
    var head: nat
    var tail: nat

    ghost predicate Valid()
      reads this
    {
      data.Length == CIRC_BUFF_SIZE && head < CIRC_BUFF_SIZE && tail < CIRC_BUFF_SIZE
    }

    /** The bytes pushed and not yet read, oldest first. */
    ghost function Pending(): seq<uint8>
      reads this, data
      requires Valid()
    {
      PendingOf(data[..], head, tail)
    }

    /** A zero-initialised global: empty, both cursors at slot 0. */
    constructor ()
      ensures Valid() && fresh(data)
      ensures head == 0 && tail == 0 && Pending() == []
      ensures forall i :: 0 <= i < CIRC_BUFF_SIZE ==> data[i] == 0
    {
      data := new uint8[CIRC_BUFF_SIZE](_ => 0);
      head, tail := 0, 0;
    }

    /** `AddToCircularBuffer`: store `b` and return 1, or drop it and
        return 0 when the buffer is full; unread bytes are never overwritten. */
    method Add(b: uint8) returns (ok: uint8)
      requires Valid()
      modifies this`head, data
      ensures Valid() && data == old(data) && tail == old(tail)
      ensures ok == 0 || ok == 1
      ensures ok == 1 <==> !IsFull(old(head), old(tail))
      ensures ok == 1 <==> |old(Pending())| < CIRC_BUFF_SIZE - 1
      ensures ok == 0 ==> head == old(head) && data[..] == old(data[..])
      ensures ok == 1 ==> head == NextIndex(old(head)) && data[..] == old(data[..])[old(head) := b]
      ensures Pending() == if ok == 1 then old(Pending()) + [b] else old(Pending())
    {
      FullIffMaxPending(data[..], head, tail);
      var nextHead := NextIndex(head);
      if nextHead == tail {
        return 0;
      }
      PushAppends(data[..], head, tail, b);
      data[head] := b;
      head := nextHead;
      return 1;
    }

    /** `ReadFromCircularBuffer`: return the byte at `tail` and advance
        `tail`. It does not test for emptiness: on an empty ring it returns
        a stale byte and leaves 255 stale bytes pending. */
    method Read() returns (b: uint8)
      requires Valid()
      modifies this`tail
      ensures Valid() && head == old(head)
      ensures b == data[old(tail)] && tail == NextIndex(old(tail))
      ensures old(head != tail) ==> b == old(Pending())[0] && Pending() == old(Pending())[1..]
      ensures old(head == tail) ==> |Pending()| == CIRC_BUFF_SIZE - 1
    {
      if head != tail {
        PopFront(data[..], head, tail);
      }
      b := data[tail];
      tail := NextIndex(tail);
    }
  }

  // ---------------------------------------------------------------------
  // Packet framer: the state machine of receive_packet as a function
  // ---------------------------------------------------------------------

  /** The framer's state: the static `status` (0 awaiting header,
      1 accumulating), `g_rx_index`, the contents of `g_rx_buff` and
      `g_rx_isReady`. */
  datatype FramerState = FramerState(status: uint8, index: nat, buff: seq<uint8>, ready: bool)

  predicate WellFormed(s: FramerState) {
    |s.buff| == RX_SIZE && s.index <= RX_SIZE && s.status <= 1
  }

  /** One byte through the `switch (status)` of `receive_packet`. */
  function Step(s: FramerState, b: uint8): (r: FramerState)
    requires |s.buff| == RX_SIZE
    ensures |r.buff| == RX_SIZE
    ensures WellFormed(s) ==> WellFormed(r)
    ensures s.ready ==> r.ready
    ensures r.ready != s.ready ==> s.status == 1 && b == PACKET_FOOTER
    ensures forall k :: 0 <= k < RX_SIZE && k != s.index ==> r.buff[k] == s.buff[k]
  {
    if s.status == 0 then
      if b == PACKET_HEADER then s.(index := 0, status := 1) else s
    else if s.status == 1 then
      if b == PACKET_FOOTER then s.(ready := true, status := 0)
      else if s.index < RX_SIZE then s.(buff := s.buff[s.index := b], index := s.index + 1)
      else s.(status := 0, index := 0)
    else
      s
  }

  /** The framer after the bytes `bs`, in order. */
  function Feed(s: FramerState, bs: seq<uint8>): (r: FramerState)
    requires |s.buff| == RX_SIZE
    ensures |r.buff| == RX_SIZE
    ensures WellFormed(s) ==> WellFormed(r)
    ensures s.ready ==> r.ready
    decreases |bs|
  {
    if bs == [] then s else Step(Feed(s, bs[..|bs| - 1]), bs[|bs| - 1])
  }

  /** Feeding one more byte of `input` is one more `Step`. */
  lemma FeedSnoc(s: FramerState, input: seq<uint8>, k: nat)
    requires |s.buff| == RX_SIZE && k < |input|
    ensures Feed(s, input[..k + 1]) == Step(Feed(s, input[..k]), input[k])
  {
    assert input[..k + 1][..k] == input[..k];
  }

  lemma {:induction false} FeedConcat(s: FramerState, a: seq<uint8>, b: seq<uint8>)
    requires |s.buff| == RX_SIZE
    ensures Feed(s, a + b) == Feed(Feed(s, a), b)
    decreases |b|
  {
    if b == [] {
      assert a + b == a;
    } else {
      var b' := b[..|b| - 1];
      assert (a + b)[..|a + b| - 1] == a + b';
      FeedConcat(s, a, b');
    }
  }

  /** Awaiting the header, bytes other than HEADER are noise and change nothing. */
  lemma {:induction false} NoiseIgnored(s: FramerState, bs: seq<uint8>)
    requires |s.buff| == RX_SIZE && s.status == 0
    requires PACKET_HEADER !in bs
    ensures Feed(s, bs) == s
    decreases |bs|
  {
    if bs != [] {
      NoiseIgnored(s, bs[..|bs| - 1]);
    }
  }

  /** While accumulating, payload bytes (HEADER included) that fit are
      stored in order after the current index. */
  lemma {:induction false} PayloadStored(s: FramerState, p: seq<uint8>)
    requires |s.buff| == RX_SIZE && s.status == 1
    requires s.index + |p| <= RX_SIZE
    requires PACKET_FOOTER !in p
    ensures Feed(s, p).status == 1
    ensures Feed(s, p).ready == s.ready
    ensures Feed(s, p).index == s.index + |p|
    ensures Feed(s, p).buff == s.buff[..s.index] + p + s.buff[s.index + |p|..]
    decreases |p|
  {
    if p != [] {
      var p' := p[..|p| - 1];
      assert PACKET_FOOTER !in p' by {
        forall k | 0 <= k < |p'| ensures p'[k] != PACKET_FOOTER { assert p'[k] == p[k]; }
      }
      PayloadStored(s, p');
      var t := Feed(s, p');
      assert p[|p| - 1] != PACKET_FOOTER;
      assert Feed(s, p) == Step(t, p[|p| - 1]);
      assert t.buff[t.index := p[|p| - 1]] == s.buff[..s.index] + p + s.buff[s.index + |p|..];
    }
  }

  /** `HEADER ‖ p ‖ FOOTER` fed to a framer awaiting a header marks `p`
      ready, leaves its length in the index and its bytes at the front of
      the receive buffer. */
  lemma {:induction false} FrameRoundTrip(s: FramerState, p: seq<uint8>)
    requires |s.buff| == RX_SIZE && s.status == 0
    requires |p| <= RX_SIZE && PACKET_FOOTER !in p
    ensures Feed(s, Frame(p)).status == 0
    ensures Feed(s, Frame(p)).ready
    ensures Feed(s, Frame(p)).index == |p|
    ensures Feed(s, Frame(p)).buff[..|p|] == p
    ensures Feed(s, Frame(p)).buff[|p|..] == s.buff[|p|..]
  {
    var started := Step(s, PACKET_HEADER);
    assert Feed(s, [PACKET_HEADER]) == started by {
      assert [PACKET_HEADER][..0] == [];
    }
    assert Frame(p) == [PACKET_HEADER] + p + [PACKET_FOOTER];
    FeedConcat(s, [PACKET_HEADER] + p, [PACKET_FOOTER]);
    FeedConcat(s, [PACKET_HEADER], p);
    PayloadStored(started, p);
    assert Feed(Feed(s, [PACKET_HEADER] + p), [PACKET_FOOTER])
        == Step(Feed(s, [PACKET_HEADER] + p), PACKET_FOOTER) by {
      assert [PACKET_FOOTER][..0] == [];
    }
  }

  /** A frame whose payload reaches RX_SIZE + 1 bytes without a FOOTER is
      abandoned: the framer is back awaiting a header, the index is 0, and
      the ready flag is what it was before the frame began. */
  lemma {:induction false} OverflowAbandons(s: FramerState, q: seq<uint8>)
    requires |s.buff| == RX_SIZE && s.status == 0
    requires |q| == RX_SIZE + 1 && PACKET_FOOTER !in q
    ensures Feed(s, [PACKET_HEADER] + q).status == 0
    ensures Feed(s, [PACKET_HEADER] + q).index == 0
    ensures Feed(s, [PACKET_HEADER] + q).ready == s.ready
  {
    var started := Step(s, PACKET_HEADER);
    assert Feed(s, [PACKET_HEADER]) == started by {
      assert [PACKET_HEADER][..0] == [];
    }
    var fill := q[..RX_SIZE];
    assert PACKET_FOOTER !in fill by {
      forall k | 0 <= k < |fill| ensures fill[k] != PACKET_FOOTER { assert fill[k] == q[k]; }
    }
    assert [PACKET_HEADER] + q == [PACKET_HEADER] + fill + [q[RX_SIZE]];
    FeedConcat(s, [PACKET_HEADER] + fill, [q[RX_SIZE]]);
    FeedConcat(s, [PACKET_HEADER], fill);
    PayloadStored(started, fill);
    assert q[RX_SIZE] != PACKET_FOOTER;
    assert [q[RX_SIZE]][..0] == [];
  }

  /** After an abandoned over-long frame the framer still extracts the
      next well-formed frame. */
  lemma OverflowThenRecover(s: FramerState, q: seq<uint8>, p: seq<uint8>)
    requires |s.buff| == RX_SIZE && s.status == 0
    requires |q| == RX_SIZE + 1 && PACKET_FOOTER !in q
    requires |p| <= RX_SIZE && PACKET_FOOTER !in p
    ensures Feed(s, [PACKET_HEADER] + q + Frame(p)).ready
    ensures Feed(s, [PACKET_HEADER] + q + Frame(p)).index == |p|
    ensures Feed(s, [PACKET_HEADER] + q + Frame(p)).buff[..|p|] == p
  {
    OverflowAbandons(s, q);
    FeedConcat(s, [PACKET_HEADER] + q, Frame(p));
    FrameRoundTrip(Feed(s, [PACKET_HEADER] + q), p);
  }

  // ---------------------------------------------------------------------
  // Transmit path: frame construction
  // ---------------------------------------------------------------------

  /** The outbound frame `HEADER ‖ payload ‖ FOOTER`. */
  function Frame(payload: seq<uint8>): (r: seq<uint8>)
    ensures |r| == |payload| + 2
    ensures r[0] == PACKET_HEADER && r[|r| - 1] == PACKET_FOOTER
    ensures r[1..|r| - 1] == payload
  {
    [PACKET_HEADER] + payload + [PACKET_FOOTER]
  }

  /** What `USART2_SendPacket` hands to `HAL_UART_Transmit` as written:
      the `sizeof` of the `len + 2` byte frame converted to the HAL's
      16-bit `Size` parameter, so only that many leading bytes go out. */
  function SentFrameAsWritten(payload: seq<uint8>, len: uint16): (r: seq<uint8>)
    requires len as int <= |payload|
    ensures len as int + 2 < 0x1_0000 ==> r == Frame(payload[..len])
    ensures len as int + 2 >= 0x1_0000 ==> |r| <= 1 && |r| < |Frame(payload[..len])|
  {
    Frame(payload[..len])[..(len as int + 2) % 0x1_0000]
  }

  /** With a 65534-byte payload the truncated size is 0: nothing is sent,
      although the frame built has 65536 bytes. */
  lemma SendPacketTruncates(payload: seq<uint8>)
    requires |payload| == 0xFFFE
    ensures SentFrameAsWritten(payload, 0xFFFE) == []
    ensures |Frame(payload)| == 0x1_0000
  {
  }

  // ---------------------------------------------------------------------
  // The USART2 context: ring buffer, framer state and transmit trace
  // ---------------------------------------------------------------------

  /** The file-level globals of usart.c gathered in one object:
      `g_circ_struct`, `g_rx_buff`, `g_rx_index`, `g_rx_isReady`, the
      static `status` of `receive_packet`, and the calls made to
      `HAL_UART_Transmit` (one entry per call, its bytes in order). */
  class Usart2 {
    const circ: CircularBuffer
    const rxBuff: array<uint8>
    var rxIndex: nat
    var rxIsReady: bool
    var status: uint8
    var transmitted: seq<seq<uint8>>

    ghost predicate Valid()
      reads this, circ
    {
      circ.Valid() && rxBuff.Length == RX_SIZE && rxBuff != circ.data &&
      rxIndex <= RX_SIZE && status <= 1
    }

    /** The framer's state as the pure model describes it. */
    ghost function Framer(): (r: FramerState)
      reads this, rxBuff
    {
      FramerState(status, rxIndex, rxBuff[..], rxIsReady)
    }

    constructor ()
      ensures Valid() && fresh(circ) && fresh(circ.data) && fresh(rxBuff)
      ensures circ.Pending() == [] && transmitted == []
      ensures Framer() == FramerState(0, 0, seq(RX_SIZE, _ => 0), false)
    {
      circ := new CircularBuffer();
      rxBuff := new uint8[RX_SIZE](_ => 0);
      rxIndex, rxIsReady, status := 0, false, 0;
      transmitted := [];
    }

    /** `USART2_IRQHandler` once a byte `b` has been read from DR: push it
        and ignore whether it was dropped. */
    method IrqHandler(b: uint8)
      requires Valid()
      modifies circ`head, circ.data
      ensures Valid() && circ.tail == old(circ.tail)
      ensures circ.Pending() == if |old(circ.Pending())| < CIRC_BUFF_SIZE - 1
                               then old(circ.Pending()) + [b] else old(circ.Pending())
      ensures Framer() == old(Framer())
    {
      var _ := circ.Add(b);
    }

    /** `receive_packet`: drain every pending byte through the framer, in order. */
    method ReceivePacket()
      requires Valid()
      modifies this, circ, rxBuff
      ensures Valid()
      ensures circ.tail == circ.head && circ.head == old(circ.head)
      ensures circ.data == old(circ.data) && circ.data[..] == old(circ.data[..])
      ensures Framer() == Feed(old(Framer()), old(circ.Pending()))
      ensures transmitted == old(transmitted)
    {
      ghost var input := circ.Pending();
      ghost var start := Framer();
      ghost var consumed := 0;
      while circ.tail != circ.head
        invariant Valid()
        invariant circ.head == old(circ.head)
        invariant circ.data == old(circ.data) && circ.data[..] == old(circ.data[..])
        invariant 0 <= consumed <= |input|
        invariant circ.Pending() == input[consumed..]
        invariant Framer() == Feed(start, input[..consumed])
        invariant transmitted == old(transmitted)
        decreases |input| - consumed
      {
        var data := circ.Read();
        assert data == input[consumed];
        FrameByte(data);
        FeedSnoc(start, input, consumed);
        consumed := consumed + 1;
      }
      assert input[..consumed] == input;
    }

    /** The `switch (status)` of `receive_packet` for one byte. */
    method FrameByte(data: uint8)
      requires Valid()
      modifies this`rxIndex, this`rxIsReady, this`status, rxBuff
      ensures Valid()
      ensures Framer() == Step(old(Framer()), data)
    {
      if status == 0 {
        if data == PACKET_HEADER {
          rxIndex := 0;
          status := 1;
        }
      } else if status == 1 {
        if data == PACKET_FOOTER {
          rxIsReady := true;
          status := 0;
        } else if rxIndex < RX_SIZE {
          rxBuff[rxIndex] := data;
          rxIndex := rxIndex + 1;
        } else {
          status := 0;
          rxIndex := 0;
        }
      }
    }

    /** `USART2_SendChar`: one transmit call carrying one byte. */
    method SendChar(ch: uint8)
      modifies this`transmitted
      ensures transmitted == old(transmitted) + [[ch]]
    {
      transmitted := transmitted + [[ch]];
    }

    /** `USART2_SendPacket`: build `HEADER ‖ data[0..len) ‖ FOOTER` in a
        local array and transmit it in one call (with the full length;
        see `SentFrameAsWritten` for the size the source passes). */
    method SendPacket(data: seq<uint8>, len: uint16)
      requires len as int <= |data|
      modifies this`transmitted
      ensures transmitted == old(transmitted) + [Frame(data[..len])]
      ensures |transmitted[|transmitted| - 1]| == len as int + 2
    {
      var n := len as int;
      var txBuffer := new uint8[n + 2];
      txBuffer[0] := PACKET_HEADER;
      forall k | 0 <= k < n {
        txBuffer[k + 1] := data[k];
      }
      txBuffer[n + 1] := PACKET_FOOTER;
      assert txBuffer[..] == Frame(data[..len]) by {
        forall k | 0 <= k < n + 2 ensures txBuffer[..][k] == Frame(data[..len])[k] {
          if 0 < k < n + 1 {
            assert Frame(data[..len])[k] == data[..len][k - 1];
          }
        }
      }
      transmitted := transmitted + [txBuffer[..]];
    }

    /** `USART2_SendString`: the first `length` bytes, one transmit call
        per byte, in order. */
    method SendString(data: seq<uint8>, length: uint8)
      requires length as int <= |data|
      modifies this`transmitted
      ensures |transmitted| == |old(transmitted)| + length as int
      ensures transmitted[..|old(transmitted)|] == old(transmitted)
      ensures forall i :: 0 <= i < length as int ==> transmitted[|old(transmitted)| + i] == [data[i]]
    {
      var i: uint8 := 0;
      while i < length
        invariant i <= length
        invariant |transmitted| == |old(transmitted)| + i as int
        invariant transmitted[..|old(transmitted)|] == old(transmitted)
        invariant forall j :: 0 <= j < i as int ==> transmitted[|old(transmitted)| + j] == [data[j]]
      {
        SendChar(data[i]);
        i := i + 1;
      }
    }
  }

  /** A loopback client of the driver, not part of it: the frame sent for a
      payload that fits and has no FOOTER byte, pushed byte by byte through
      the receive interrupt into an empty ring and then drained, is received
      intact. */
  method Loopback(u: Usart2, data: seq<uint8>, len: uint16)
    requires u.Valid() && u.status == 0 && u.circ.head == u.circ.tail
    requires len as int <= |data| && len as int <= RX_SIZE && PACKET_FOOTER !in data[..len]
    modifies u, u.circ, u.circ.data, u.rxBuff
    ensures u.Valid() && u.status == 0 && u.rxIsReady
    ensures u.rxIndex == len as int && u.rxBuff[..u.rxIndex] == data[..len]
  {
    u.SendPacket(data, len);
    ghost var payload := data[..len];
    var frame := u.transmitted[|u.transmitted| - 1];
    assert frame == Frame(payload);
    ghost var start := u.Framer();
    var i := 0;
    while i < |frame|
      invariant 0 <= i <= |frame| == len as int + 2
      invariant u.Valid()
      invariant u.circ.Pending() == frame[..i]
      invariant u.Framer() == start
      invariant u.circ.data == old(u.circ.data)
    {
      assert |u.circ.Pending()| < CIRC_BUFF_SIZE - 1;
      u.IrqHandler(frame[i]);
      assert frame[..i + 1] == frame[..i] + [frame[i]];
      i := i + 1;
    }
    assert frame[..i] == frame;
    u.ReceivePacket();
    FrameRoundTrip(start, payload);
    assert u.Framer() == Feed(start, Frame(payload));
    assert u.rxBuff[..u.rxIndex] == u.Framer().buff[..len];
  }
}
