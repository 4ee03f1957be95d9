/** What each operation on the message table leaves behind, slot by slot, bit by bit and
    byte by byte, and what a slot and its buffer hold after any number of them. */
module SlotLaws {
  import opened WordBits
  import opened Wire
  import opened Backend
  import opened Receiver
  import opened Slots

  // ---- one packet ----

  /** The payload lies at `at`, as far as there is room, and every other byte is as before. */
  ghost predicate Landed(before: seq<byte>, after: seq<byte>, at: nat, payload: seq<byte>) {
    && |after| == |before|
    && forall b :: 0 <= b < |before| ==>
         after[b] == if at <= b < at + |payload| then payload[b - at] else before[b]
  }

  lemma WrittenLands(buffer: seq<byte>, mtu: nat, p: nat, payload: seq<byte>)
    ensures Landed(buffer, Written(buffer, mtu, p, payload), if mtu == 0 then p else p * mtu, payload)
  {
    var at := p * if mtu == 0 then 1 else mtu;
    assert at == if mtu == 0 then p else p * mtu;
  }

  /** The slot is in use, and the packet carries its generation. */
  predicate For(t: Table, packet: Packet) {
    var id := packet.header.msgId;
    && t.Shaped() && id < 1024 && t.messages[id].Some?
    && t.messages[id].value.state == Active
    && t.messages[id].value.generation == packet.header.transferId
  }

  /** Its bit is set already. */
  predicate Seen(msg: MessageContext, p: nat) {
    msg.bitmap.Some? && p < msg.bitmap.value.total && Has(msg.bitmap.value.words, p)
  }

  /** Slot and counters are as before, all but the slot named. */
  ghost predicate OnlySlot(t: Table, r: Table, id: nat) {
    && t.Shaped() && r.Shaped() && r.counters == t.counters
    && forall other :: 0 <= other < 1024 && other != id ==> r.messages[other] == t.messages[other]
  }

  /** The same context, but for its bitmap, which has one bit more, if p is a packet of it. */
  ghost predicate OneBitMore(was: MessageContext, now: MessageContext, p: nat) {
    && now == was.(bitmap := now.bitmap)
    && (was.bitmap.None? ==> now.bitmap.None?)
    && (was.bitmap.Some? ==>
          && now.bitmap.Some? && now.bitmap.value.total == was.bitmap.value.total
          && forall q: nat :: Has(now.bitmap.value.words, q) <==>
               Has(was.bitmap.value.words, q) || (q == p && p < was.bitmap.value.total))
  }

  /** The payload in the region behind the buffer, at offset * mtu, and nothing elsewhere. */
  ghost predicate OneWrite(was: MessageContext, before: map<nat, seq<byte>>, after: map<nat, seq<byte>>, packet: Packet)
  {
    var p := packet.header.packetOffset;
    && after.Keys == before.Keys
    && forall region: nat :: region in before ==>
         if was.buffer == User(region)
         then Landed(before[region], after[region], if was.mtuBytes == 0 then p else p * was.mtuBytes, packet.payload)
         else after[region] == before[region]
  }

  /** A packet for a slot in use whose bit is not set puts its payload in place and sets its
      bit; any other packet changes nothing. */
  lemma PacketTaken(w: World, packet: Packet)
    requires w.table.Shaped()
    ensures var r, id := Process(w, packet), packet.header.msgId;
      if !For(w.table, packet) || Seen(w.table.messages[id].value, packet.header.packetOffset) then r == w
      else
        && OnlySlot(w.table, r.table, id) && r.table.messages[id].Some?
        && OneBitMore(w.table.messages[id].value, r.table.messages[id].value, packet.header.packetOffset)
        && OneWrite(w.table.messages[id].value, w.memory, r.memory, packet)
  {
    var id, p := packet.header.msgId, packet.header.packetOffset;
    if For(w.table, packet) && !Seen(w.table.messages[id].value, p) {
      var was := w.table.messages[id].value;
      if was.buffer.User? && was.buffer.region in w.memory {
        WrittenLands(w.memory[was.buffer.region], was.mtuBytes, p, packet.payload);
      }
    }
  }

  // ---- the other operations ----

  /** Until it is attached a slot has no buffer and no bitmap; it carries the number its
      counter was about to give, and the counter moves on. */
  lemma SlotAllocated(worlds: seq<World>, ops: seq<Op>, i: nat)
    requires Run(worlds, ops) && i < |ops| && ops[i].OpAllocate?
    ensures var t, r, id := worlds[i].table, worlds[i + 1].table, ops[i].id;
      && t.Shaped() && r.Shaped() && worlds[i + 1].memory == worlds[i].memory
      && if id < 1024 && (t.messages[id].Some? ==>
              t.messages[id].value.state != Active && t.counters[id] <= ops[i].generation)
         then
           && r.messages[id] == Some(MessageContext(id, t.counters[id], Active, NoBuffer, 0, None))
           && r.counters == t.counters[id := t.counters[id] + 1]
           && OnlySlot(t.(counters := r.counters), r, id)
         else r == t
  {
    RunTrue(worlds, ops, i);
    assert Stepped(worlds[i], ops[i], worlds[i + 1]);
    var id := ops[i].id;
    assert id < 1024 ==> SlotTrue(worlds[i].table, id);
  }

  /** The slot as it is attached: the region, MTU and packet count given, and no packet yet. */
  ghost predicate Attached(was: MessageContext, now: MessageContext, region: nat, mtu: nat, total: nat) {
    && now == was.(buffer := User(region), mtuBytes := mtu, bitmap := now.bitmap)
    && now.bitmap.Some? && now.bitmap.value.total == total
    && forall p: nat :: !Has(now.bitmap.value.words, p)
  }

  predicate Attachable(w: World, id: nat, region: nat) {
    && w.table.Shaped() && id < 1024 && w.table.messages[id].Some? && region in w.memory
    && w.table.messages[id].value.state == Active && w.table.messages[id].value.buffer == NoBuffer
  }

  lemma SlotAttached(w: World, id: nat, region: nat, mtu: nat, total: nat)
    requires w.table.Shaped()
    ensures var r := Attach(w, id, region, mtu, total);
      && r.memory == w.memory
      && if Attachable(w, id, region) then
           && OnlySlot(w.table, r.table, id) && r.table.messages[id].Some?
           && Attached(w.table.messages[id].value, r.table.messages[id].value, region, mtu, total)
         else r == w
  {
    var bits := Empty(total);
    forall p: nat ensures !Has(bits.words, p) {
    }
  }

  /** How the operations that end a message leave its slot. */
  lemma SlotEnded(w: World, op: Op)
    requires w.table.Shaped() && (op.OpComplete? || op.OpRelease? || op.OpDecode?) && op.id < 1024
    ensures var was, r := w.table.messages[op.id], Step(w, op);
      && r.memory == w.memory && OnlySlot(w.table, r.table, op.id)
      && r.table.messages[op.id] ==
           if was.None? || op.OpRelease? then None
           else if op.OpComplete? then Some(was.value.(state := Dead, buffer := NullSink))
           else if was.value.state == Active then Some(was.value.(state := Completed)) else was
  {
  }

  /** After any of them no packet for the slot changes anything until it is handed out again. */
  lemma EndSeals(worlds: seq<World>, ops: seq<Op>, i: nat, j: nat, id: nat, packet: Packet)
    requires Run(worlds, ops) && i < j < |worlds| && id < 1024 && Ends(ops[i], id)
    requires forall k, g: nat :: i < k < j ==> !Issues(worlds, ops, k, id, g)
    requires packet.header.msgId == id
    ensures worlds[j].table.Shaped() && Process(worlds[j], packet) == worlds[j]
  {
    assert Stepped(worlds[i], ops[i], worlds[i + 1]);
    SlotEnded(worlds[i], ops[i]);
    SealedUntilReissued(worlds, ops, i + 1, j, id, packet);
  }

  /** get_message finds whatever the slot holds. */
  lemma SlotFound(worlds: seq<World>, ops: seq<Op>, i: nat, id: nat)
    requires Run(worlds, ops) && i < |worlds|
    ensures worlds[i].table.Shaped()
    ensures worlds[i].table.Get(id) == if id < 1024 then worlds[i].table.messages[id] else None
  {
    RunTrue(worlds, ops, i);
    assert id < 1024 ==> SlotTrue(worlds[i].table, id);
  }

  // ---- a posted message over a run ----

  /** The slot is attached to this region, for a message of this shape. */
  ghost predicate Posted(w: World, id: nat, region: nat, mtu: nat, total: nat) {
    && w.table.Shaped() && region in w.memory
    && id < 1024 && w.table.messages[id].Some?
    && var msg := w.table.messages[id].value;
       && msg.state == Active && msg.buffer == User(region) && msg.mtuBytes == mtu
       && msg.bitmap.Some? && msg.bitmap.value.total == total
  }

  function Bits(w: World, id: nat): seq<Word>
    requires w.table.Shaped() && id < 1024 && w.table.messages[id].Some?
    requires w.table.messages[id].value.bitmap.Some?
  {
    w.table.messages[id].value.bitmap.value.words
  }

  /** Step k brings packet p of the message the slot holds. */
  predicate Brings(worlds: seq<World>, ops: seq<Op>, k: nat, id: nat, p: nat) {
    && k < |ops| && |worlds| == |ops| + 1 && ops[k].OpPacket?
    && ops[k].packet.header.msgId == id && ops[k].packet.header.packetOffset == p
    && For(worlds[k].table, ops[k].packet)
  }

  lemma StepKeepsPosted(w: World, op: Op, id: nat, region: nat, mtu: nat, total: nat)
    requires Posted(w, id, region, mtu, total) && !Ends(op, id)
    ensures Posted(Step(w, op), id, region, mtu, total)
    ensures !(op.OpPacket? && op.packet.header.msgId == id) ==>
      Step(w, op).table.messages[id] == w.table.messages[id]
  {
  }

  /** While the message lasts, a packet's bit is set exactly when the packet has come since
      the slot was attached. */
  lemma {:induction false} BitsAreArrivals(
    worlds: seq<World>, ops: seq<Op>, i: nat, j: nat, id: nat, region: nat, mtu: nat, total: nat, p: nat)
    requires Run(worlds, ops) && i < j < |worlds| && p < total
    requires ops[i] == OpAttach(id, region, mtu, total) && Attachable(worlds[i], id, region)
    requires forall k :: i < k < j ==> !Ends(ops[k], id)
    ensures Posted(worlds[j], id, region, mtu, total)
    ensures Has(Bits(worlds[j], id), p) <==> exists k :: i < k < j && Brings(worlds, ops, k, id, p)
    decreases j - i
  {
    hide Has;
    hide Process;
    hide Attach;
    var w, op := worlds[j - 1], ops[j - 1];
    assert Stepped(w, op, worlds[j]);
    if j == i + 1 {
      SlotAttached(w, id, region, mtu, total);
    } else {
      BitsAreArrivals(worlds, ops, i, j - 1, id, region, mtu, total, p);
      assert !Ends(op, id);
      StepKeepsPosted(w, op, id, region, mtu, total);
      BitAfterStep(w, op, id, region, mtu, total, p);
      ArrivalsGoOn(worlds, ops, i, j, id, p);
    }
  }

  lemma ArrivalsGoOn(worlds: seq<World>, ops: seq<Op>, i: nat, j: nat, id: nat, p: nat)
    requires i + 1 < j
    ensures (exists k :: i < k < j && Brings(worlds, ops, k, id, p)) <==>
      (exists k :: i < k < j - 1 && Brings(worlds, ops, k, id, p)) || Brings(worlds, ops, j - 1, id, p)
  {
    if k :| i < k < j && Brings(worlds, ops, k, id, p) {
      assert k == j - 1 || i < k < j - 1;
    }
  }

  lemma BitAfterStep(w: World, op: Op, id: nat, region: nat, mtu: nat, total: nat, p: nat)
    requires Posted(w, id, region, mtu, total) && !Ends(op, id) && p < total
    ensures Posted(Step(w, op), id, region, mtu, total)
    ensures Has(Bits(Step(w, op), id), p) <==>
      || Has(Bits(w, id), p)
      || (op.OpPacket? && op.packet.header.msgId == id && op.packet.header.packetOffset == p
          && For(w.table, op.packet))
  {
    hide Has;
    hide Process;
    StepKeepsPosted(w, op, id, region, mtu, total);
    if op.OpPacket? && op.packet.header.msgId == id {
      PacketTaken(w, op.packet);
    }
  }

  /** No other message in use has its buffer there. */
  ghost predicate Alone(t: Table, id: nat, region: nat) {
    forall other: nat :: other != id ==> !Exposes(t, other, region)
  }

  /** A packet for the slot carries the bytes of message m that its number stands for. */
  ghost predicate Genuine(w: World, op: Op, id: nat, m: Outgoing)
    requires m.Valid()
  {
    op.OpPacket? && op.packet.header.msgId == id && For(w.table, op.packet) ==>
      var p := op.packet.header.packetOffset;
      p < m.layout.Packets() ==> op.packet.payload == m.Slice(p)
  }

  /** The region holds the bytes of m for every bit set. */
  ghost predicate Holds(w: World, id: nat, region: nat, m: Outgoing) {
    && m.Valid() && Posted(w, id, region, m.layout.mtu, m.layout.Packets()) && Alone(w.table, id, region)
    && Published(m, w.memory[region], Bits(w, id))
  }

  lemma StaysAlone(w: World, op: Op, id: nat, region: nat)
    requires w.table.Shaped() && Alone(w.table, id, region) && (op.OpAttach? ==> op.region != region)
    ensures Alone(Step(w, op).table, id, region)
  {
    forall other: nat | other != id ensures !Exposes(Step(w, op).table, other, region) {
      assert !Exposes(w.table, other, region);
    }
  }

  lemma PacketHolds(w: World, packet: Packet, id: nat, region: nat, m: Outgoing)
    requires m.Valid() && Holds(w, id, region, m) && For(w.table, packet) && packet.header.msgId == id
    requires Genuine(w, OpPacket(packet), id, m)
    ensures var r := Process(w, packet);
      Posted(r, id, region, m.layout.mtu, m.layout.Packets()) && Published(m, r.memory[region], Bits(r, id))
  {
    var r, p := Process(w, packet), packet.header.packetOffset;
    PacketTaken(w, packet);
    if Seen(w.table.messages[id].value, p) {
      return;
    }
    if p < m.layout.Packets() {
      forall q: nat | q < m.layout.Packets() && Has(Bits(r, id), q) ensures HasBytes(m, r.memory[region], q) {
        WriteKeepsBytes(m, w.memory[region], p, q);
      }
    } else {
      PastTheEndWritesNothing(m, w.memory[region], p, packet.payload);
    }
  }

  lemma OtherPacket(w: World, packet: Packet, id: nat, region: nat)
    requires w.table.Shaped() && Alone(w.table, id, region) && packet.header.msgId != id
    requires region in w.memory
    ensures region in Process(w, packet).memory && Process(w, packet).memory[region] == w.memory[region]
  {
    assert !Exposes(w.table, packet.header.msgId, region);
  }

  lemma StepHolds(w: World, op: Op, id: nat, region: nat, m: Outgoing)
    requires m.Valid() && Holds(w, id, region, m) && !Ends(op, id) && Genuine(w, op, id, m)
    requires op.OpAttach? ==> op.region != region
    ensures Holds(Step(w, op), id, region, m)
  {
    hide Has;
    hide Process;
    hide Published;
    hide Alone;
    StaysAlone(w, op, id, region);
    StepKeepsPosted(w, op, id, region, m.layout.mtu, m.layout.Packets());
    if op.OpPacket? {
      if op.packet.header.msgId != id {
        OtherPacket(w, op.packet, id, region);
      } else if For(w.table, op.packet) {
        PacketHolds(w, op.packet, id, region, m);
      } else {
        PacketTaken(w, op.packet);
      }
    }
  }

  /** So when the packets that come are those of a message, and no other message in use
      shares the region, the region holds that message wherever a bit is set, in every
      state until the message is ended: all of it once every packet has come. */
  lemma {:induction false} RegionHoldsMessage(
    worlds: seq<World>, ops: seq<Op>, i: nat, j: nat, id: nat, region: nat, m: Outgoing)
    requires Run(worlds, ops) && i < j < |worlds| && m.Valid()
    requires ops[i] == OpAttach(id, region, m.layout.mtu, m.layout.Packets()) && Attachable(worlds[i], id, region)
    requires |worlds[i].memory[region]| == m.layout.length && !Exposed(worlds[i].table, region)
    requires forall k :: i < k < j ==> !Ends(ops[k], id) && Genuine(worlds[k], ops[k], id, m)
    requires forall k :: i < k < j && ops[k].OpAttach? ==> ops[k].region != region
    ensures Holds(worlds[j], id, region, m)
    ensures AllSet(Bits(worlds[j], id), 0, m.layout.Packets()) ==> worlds[j].memory[region] == m.data
    decreases j - i
  {
    hide Has;
    hide Process;
    hide Attach;
    hide Published;
    var w, op := worlds[j - 1], ops[j - 1];
    assert Stepped(w, op, worlds[j]);
    if j == i + 1 {
      AttachHolds(w, id, region, m);
    } else {
      RegionHoldsMessage(worlds, ops, i, j - 1, id, region, m);
      StepHolds(w, op, id, region, m);
    }
    if AllSet(Bits(worlds[j], id), 0, m.layout.Packets()) {
      AllPublished(m, worlds[j].memory[region], Bits(worlds[j], id));
    }
  }

  lemma AttachHolds(w: World, id: nat, region: nat, m: Outgoing)
    requires m.Valid() && Attachable(w, id, region) && !Exposed(w.table, region)
    requires |w.memory[region]| == m.layout.length
    ensures Holds(Attach(w, id, region, m.layout.mtu, m.layout.Packets()), id, region, m)
  {
    SlotAttached(w, id, region, m.layout.mtu, m.layout.Packets());
    var r := Attach(w, id, region, m.layout.mtu, m.layout.Packets());
    forall other: nat | other != id ensures !Exposes(r.table, other, region) {
      assert !Exposes(w.table, other, region);
    }
  }
}
