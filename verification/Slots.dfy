/** The message table of a connection: slots are allocated, filled, completed, released
    and reused, while packets for old and new messages keep arriving. */
module Slots {
  import opened WordBits
  import opened Backend
  import opened Wire
  import opened Receiver

  datatype MessageState = Active | Completed | Dead | NullState

  /** Where a slot's buffer pointer leads: nowhere, to a region of the user's memory, or to
      the connection's single-byte null sink. */
  datatype Target = NoBuffer | User(region: nat) | NullSink

  datatype PacketBits = PacketBits(total: nat, words: seq<Word>)
  type Bitmap = b: PacketBits | |b.words| == WordsFor(b.total) witness PacketBits(0, [])

  datatype MessageContext = MessageContext(
    msgId: nat, generation: nat, state: MessageState, buffer: Target, mtuBytes: nat, bitmap: Option<Bitmap>)

  datatype Table = Table(messages: seq<Option<MessageContext>>, counters: seq<nat>) {
    predicate Shaped() {
      |messages| == MESSAGE_IDS && |counters| == MESSAGE_IDS
    }

    /** get_message. */
    function Get(id: nat): Option<MessageContext>
      requires Shaped()
    {
      if id < MESSAGE_IDS && messages[id].Some? && messages[id].value.state != NullState then messages[id] else None
    }

    predicate IsActive(id: nat)
      requires Shaped()
    {
      id < MESSAGE_IDS && messages[id].Some? && messages[id].value.state == Active
    }
  }

  // ---- what the operations do, as functions ----

  predicate CanAllocate(t: Table, id: nat, generation: nat)
    requires t.Shaped()
  {
    && id < MESSAGE_IDS
    && (t.messages[id].Some? ==>
          var state := t.messages[id].value.state;
          && state != Active
          && (state in {Completed, Dead} ==> t.messages[id].value.generation < generation))
  }

  function Allocate(t: Table, id: nat, generation: nat): (r: Table)
    requires t.Shaped()
    ensures r.Shaped()
  {
    if !CanAllocate(t, id, generation) then t else
      t.(messages := t.messages[id := Some(MessageContext(id, t.counters[id], Active, NoBuffer, 0, None))],
         counters := t.counters[id := t.counters[id] + 1])
  }

  function Complete(t: Table, id: nat): (r: Table)
    requires t.Shaped()
    ensures r.Shaped()
  {
    if id < MESSAGE_IDS && t.messages[id].Some?
    then t.(messages := t.messages[id := Some(t.messages[id].value.(state := Dead, buffer := NullSink))])
    else t
  }

  function Release(t: Table, id: nat): (r: Table)
    requires t.Shaped()
    ensures r.Shaped()
  {
    if id < MESSAGE_IDS then t.(messages := t.messages[id := None]) else t
  }

  /** The table, and the user's memory that its buffers point into. */
  datatype World = World(table: Table, memory: map<nat, seq<byte>>)

  predicate Accepts(t: Table, header: Header)
    requires t.Shaped()
  {
    t.IsActive(header.msgId) && t.messages[header.msgId].value.generation == header.transferId
  }

  predicate Duplicate(bitmap: Option<Bitmap>, p: nat) {
    bitmap.Some? && p < bitmap.value.total && Has(bitmap.value.words, p)
  }

  function Marked(bitmap: Option<Bitmap>, p: nat): Option<Bitmap> {
    if bitmap.None? then None
    else Some(PacketBits(bitmap.value.total, Received(bitmap.value.words, bitmap.value.total, p)))
  }

  function Stored(memory: map<nat, seq<byte>>, buffer: Target, mtu: nat, p: nat, payload: seq<byte>)
    : map<nat, seq<byte>>
  {
    if buffer.User? && buffer.region in memory
    then memory[buffer.region := Written(memory[buffer.region], mtu, p, payload)]
    else memory
  }

  /** process_packet. */
  function Process(w: World, packet: Packet): (r: World)
    requires w.table.Shaped()
    ensures r.table.Shaped()
  {
    if !Accepts(w.table, packet.header) then w else
      var id, p := packet.header.msgId, packet.header.packetOffset;
      var msg := w.table.messages[id].value;
      if Duplicate(msg.bitmap, p) then w else
        World(w.table.(messages := w.table.messages[id := Some(msg.(bitmap := Marked(msg.bitmap, p)))]),
              Stored(w.memory, msg.buffer, msg.mtuBytes, p, packet.payload))
  }

  /** What sdr_recv_post puts into the slot it has just been given. */
  function Attach(w: World, id: nat, region: nat, mtu: nat, total: nat): (r: World)
    requires w.table.Shaped()
    ensures r.table.Shaped()
  {
    if w.table.IsActive(id) && w.table.messages[id].value.buffer == NoBuffer && region in w.memory then
      var msg := w.table.messages[id].value.(buffer := User(region), mtuBytes := mtu, bitmap := Some(Empty(total)));
      w.(table := w.table.(messages := w.table.messages[id := Some(msg)]))
    else w
  }

  function Empty(total: nat): Bitmap {
    PacketBits(total, seq(WordsFor(total), _ => ZERO_WORD))
  }

  /** The erasure-coding receiver declares the message decoded. */
  function Decode(t: Table, id: nat): (r: Table)
    requires t.Shaped()
    ensures r.Shaped()
  {
    if t.IsActive(id) then t.(messages := t.messages[id := Some(t.messages[id].value.(state := Completed))]) else t
  }

  // ---- the classes ----

  class ConnectionContext {
    var msgTable: seq<Option<MessageContext>>
    var generationCounters: seq<nat>

    function Contents(): Table
      reads this
    {
      Table(msgTable, generationCounters)
    }

    predicate Valid()
      reads this
    {
      Contents().Shaped()
    }

    constructor ()
      ensures Valid() && Unused(Contents())
    {
      msgTable := seq(MESSAGE_IDS, _ => None);
      generationCounters := seq(MESSAGE_IDS, _ => 1);
    }

    method AllocateMessageSlot(msgId: nat, generation: nat) returns (msg: Option<MessageContext>)
      requires Valid()
      modifies this
      ensures Valid() && Contents() == Allocate(old(Contents()), msgId, generation)
      ensures msg.Some? <==> CanAllocate(old(Contents()), msgId, generation)
      ensures msg.Some? ==> Contents().Get(msgId) == msg && msg.value.state == Active
    {
      if msgId >= MESSAGE_IDS {
        return None;
      }
      var slot := msgTable[msgId];
      if slot.Some? && slot.value.state == Active {
        return None;
      }
      if slot.Some? && (slot.value.state == Completed || slot.value.state == Dead)
         && slot.value.generation >= generation {
        return None;
      }
      var rotated := generationCounters[msgId];
      generationCounters := generationCounters[msgId := rotated + 1];
      msg := Some(MessageContext(msgId, rotated, Active, NoBuffer, 0, None));
      msgTable := msgTable[msgId := msg];
    }

    method GetMessage(msgId: nat) returns (msg: Option<MessageContext>)
      requires Valid()
      ensures msg == Contents().Get(msgId)
    {
      if msgId >= MESSAGE_IDS {
        return None;
      }
      msg := msgTable[msgId];
      if msg.None? || msg.value.state == NullState {
        return None;
      }
    }

    method ReleaseMessage(msgId: nat)
      requires Valid()
      modifies this
      ensures Valid() && Contents() == Release(old(Contents()), msgId)
    {
      if msgId >= MESSAGE_IDS {
        return;
      }
      msgTable := msgTable[msgId := None];
    }

    method CompleteMessage(msgId: nat)
      requires Valid()
      modifies this
      ensures Valid() && Contents() == Complete(old(Contents()), msgId)
    {
      if msgId >= MESSAGE_IDS {
        return;
      }
      if msgTable[msgId].Some? {
        msgTable := msgTable[msgId := Some(msgTable[msgId].value.(state := Dead, buffer := NullSink))];
      }
    }
  }

  class UDPReceiver {
    const connection: ConnectionContext
    var memory: map<nat, seq<byte>>

    function Contents(): World
      reads this, connection
    {
      World(connection.Contents(), memory)
    }

    constructor (connection: ConnectionContext, memory: map<nat, seq<byte>>)
      ensures this.connection == connection && this.memory == memory
    {
      this.connection := connection;
      this.memory := memory;
    }

    method ProcessPacket(packet: Packet)
      requires connection.Valid()
      modifies this, connection
      ensures connection.Valid() && Contents() == Process(old(Contents()), packet)
    {
      var id, p := packet.header.msgId, packet.header.packetOffset;
      var found := connection.GetMessage(id);
      if found.None? {
        return;
      }
      var msg := found.value;
      if msg.generation != packet.header.transferId {
        return;
      }
      if msg.state == Dead || msg.state == Completed || msg.state == NullState {
        return;
      }
      if msg.bitmap.Some? && p < msg.bitmap.value.total && Has(msg.bitmap.value.words, p) {
        return;
      }
      if msg.buffer.User? && msg.buffer.region in memory {
        memory := memory[msg.buffer.region := Written(memory[msg.buffer.region], msg.mtuBytes, p, packet.payload)];
      }
      if msg.bitmap.Some? {
        var bits := msg.bitmap.value;
        msg := msg.(bitmap := Some(bits.(words := Received(bits.words, bits.total, p))));
      }
      connection.msgTable := connection.msgTable[id := Some(msg)];
    }
  }

  // ---- runs ----

  datatype Op =
    | OpAllocate(id: nat, generation: nat)
    | OpAttach(id: nat, region: nat, mtu: nat, total: nat)
    | OpDecode(id: nat)
    | OpComplete(id: nat)
    | OpRelease(id: nat)
    | OpPacket(packet: Packet)

  function Step(w: World, op: Op): (r: World)
    requires w.table.Shaped()
    ensures r.table.Shaped()
  {
    match op
    case OpAllocate(id, generation) => w.(table := Allocate(w.table, id, generation))
    case OpAttach(id, region, mtu, total) => Attach(w, id, region, mtu, total)
    case OpDecode(id) => w.(table := Decode(w.table, id))
    case OpComplete(id) => w.(table := Complete(w.table, id))
    case OpRelease(id) => w.(table := Release(w.table, id))
    case OpPacket(packet) => Process(w, packet)
  }

  predicate Unused(t: Table) {
    t.Shaped() && forall id :: 0 <= id < MESSAGE_IDS ==> t.messages[id] == None && t.counters[id] == 1
  }

  ghost predicate Stepped(w: World, op: Op, r: World) {
    w.table.Shaped() && r == Step(w, op)
  }

  ghost predicate Run(worlds: seq<World>, ops: seq<Op>) {
    && |worlds| == |ops| + 1 && Unused(worlds[0].table)
    && forall i :: 0 <= i < |ops| ==> Stepped(worlds[i], ops[i], worlds[i + 1])
  }

  /** A slot holds the generation its counter gave out last, and its buffer has been
      redirected to the null sink only if it is dead. */
  ghost predicate SlotTrue(t: Table, id: nat)
    requires t.Shaped() && id < MESSAGE_IDS
  {
    && t.counters[id] >= 1
    && (t.messages[id].Some? ==>
          var msg := t.messages[id].value;
          && msg.msgId == id && msg.generation == t.counters[id] - 1 && msg.state != NullState
          && (msg.buffer == NullSink <==> msg.state == Dead))
  }

  ghost predicate TableTrue(t: Table) {
    t.Shaped() && forall id: nat :: id < MESSAGE_IDS ==> SlotTrue(t, id)
  }

  lemma StepTrue(w: World, op: Op)
    requires TableTrue(w.table)
    ensures TableTrue(Step(w, op).table)
    ensures forall id :: 0 <= id < MESSAGE_IDS ==> w.table.counters[id] <= Step(w, op).table.counters[id]
  {
    var r := Step(w, op);
    forall id: nat | id < MESSAGE_IDS ensures SlotTrue(r.table, id) {
      assert SlotTrue(w.table, id);
    }
  }

  lemma {:induction false} RunTrue(worlds: seq<World>, ops: seq<Op>, i: nat)
    requires Run(worlds, ops) && i < |worlds|
    ensures TableTrue(worlds[i].table)
  {
    if i > 0 {
      RunTrue(worlds, ops, i - 1);
      assert Stepped(worlds[i - 1], ops[i - 1], worlds[i]);
      StepTrue(worlds[i - 1], ops[i - 1]);
    } else {
      assert forall id: nat :: id < MESSAGE_IDS ==> SlotTrue(worlds[0].table, id);
    }
  }

  lemma {:induction false} CountersGrow(worlds: seq<World>, ops: seq<Op>, i: nat, j: nat, id: nat)
    requires Run(worlds, ops) && i <= j < |worlds| && id < MESSAGE_IDS
    ensures worlds[i].table.Shaped() && worlds[j].table.Shaped()
    ensures worlds[i].table.counters[id] <= worlds[j].table.counters[id]
    decreases j - i
  {
    RunTrue(worlds, ops, i);
    if i < j {
      CountersGrow(worlds, ops, i, j - 1, id);
      RunTrue(worlds, ops, j - 1);
      assert Stepped(worlds[j - 1], ops[j - 1], worlds[j]);
      StepTrue(worlds[j - 1], ops[j - 1]);
    }
  }

  /** Step i of the run hands out slot id, stamped with `generation`. */
  ghost predicate Issues(worlds: seq<World>, ops: seq<Op>, i: nat, id: nat, generation: nat) {
    && i < |ops| && |worlds| == |ops| + 1
    && ops[i].OpAllocate? && ops[i].id == id
    && worlds[i].table.Shaped() && CanAllocate(worlds[i].table, id, ops[i].generation)
    && generation == worlds[i].table.counters[id]
  }

  /** The generations a slot hands out strictly increase, across completion and release. */
  lemma GenerationsIncrease(
    worlds: seq<World>, ops: seq<Op>, i: nat, j: nat, id: nat, first: nat, second: nat
  )
    requires Run(worlds, ops) && i < j
    requires Issues(worlds, ops, i, id, first) && Issues(worlds, ops, j, id, second)
    ensures first < second
    ensures worlds[j + 1].table.Shaped() && worlds[j + 1].table.IsActive(id)
    ensures worlds[j + 1].table.messages[id].value.generation == second
  {
    assert Stepped(worlds[i], ops[i], worlds[i + 1]);
    assert Stepped(worlds[j], ops[j], worlds[j + 1]);
    CountersGrow(worlds, ops, i + 1, j, id);
  }

  /** A packet that changes anything carries the last generation its slot handed out, and
      finds the slot active and the packet's bit not yet set; what it changes is that
      slot's bitmap and the region behind that slot's buffer, and nothing else. */
  lemma PacketsTouchOnlyTheirMessage(worlds: seq<World>, ops: seq<Op>, i: nat, packet: Packet)
    requires Run(worlds, ops) && i < |worlds|
    ensures worlds[i].table.Shaped()
    ensures var w, id := worlds[i], packet.header.msgId; var r := Process(w, packet);
      r != w ==>
        && w.table.IsActive(id) && packet.header.transferId + 1 == w.table.counters[id]
        && !Duplicate(w.table.messages[id].value.bitmap, packet.header.packetOffset)
        && r.table.counters == w.table.counters
        && (forall other :: 0 <= other < MESSAGE_IDS && other != id ==>
              r.table.messages[other] == w.table.messages[other])
        && r.memory.Keys == w.memory.Keys
        && (forall region: nat :: region in w.memory && User(region) != w.table.messages[id].value.buffer ==>
              r.memory[region] == w.memory[region])
  {
    RunTrue(worlds, ops, i);
    if packet.header.msgId < MESSAGE_IDS {
      assert SlotTrue(worlds[i].table, packet.header.msgId);
    }
  }

  /** Once a slot has been handed out again, packets of its earlier messages change nothing. */
  lemma StalePacketChangesNothing(
    worlds: seq<World>, ops: seq<Op>, i: nat, j: nat, k: nat, id: nat, stale: nat, latest: nat, packet: Packet
  )
    requires Run(worlds, ops) && i < j < k < |worlds|
    requires Issues(worlds, ops, i, id, stale) && Issues(worlds, ops, j, id, latest)
    requires packet.header.msgId == id && packet.header.transferId == stale
    ensures worlds[k].table.Shaped() && Process(worlds[k], packet) == worlds[k]
  {
    GenerationsIncrease(worlds, ops, i, j, id, stale, latest);
    CountersGrow(worlds, ops, j + 1, k, id);
    assert Stepped(worlds[j], ops[j], worlds[j + 1]);
    PacketsTouchOnlyTheirMessage(worlds, ops, k, packet);
  }

  predicate Ends(op: Op, id: nat) {
    (op.OpComplete? || op.OpRelease? || op.OpDecode?) && op.id == id
  }

  /** An active message keeps its slot, generation and buffer until it is completed,
      decoded or released; until then the slot is refused to everyone else. */
  lemma {:induction false} ActiveKeepsItsSlot(worlds: seq<World>, ops: seq<Op>, i: nat, j: nat, id: nat)
    requires Run(worlds, ops) && i <= j < |worlds|
    requires worlds[i].table.Shaped() && worlds[i].table.IsActive(id)
    requires forall k :: i <= k < j ==> !Ends(ops[k], id)
    ensures worlds[j].table.Shaped() && worlds[j].table.IsActive(id)
    ensures forall generation: nat :: !CanAllocate(worlds[j].table, id, generation)
    ensures var was, now := worlds[i].table.messages[id].value, worlds[j].table.messages[id].value;
      && now.generation == was.generation
      && (was.buffer != NoBuffer ==> now.buffer == was.buffer && now.mtuBytes == was.mtuBytes)
    decreases j - i
  {
    if i < j {
      ActiveKeepsItsSlot(worlds, ops, i, j - 1, id);
      assert Stepped(worlds[j - 1], ops[j - 1], worlds[j]);
      assert !Ends(ops[j - 1], id);
    }
  }

  /** A slot that is not active stays so until it is handed out again, and no packet for
      it changes anything meanwhile. */
  lemma {:induction false} SealedUntilReissued(
    worlds: seq<World>, ops: seq<Op>, i: nat, j: nat, id: nat, packet: Packet
  )
    requires Run(worlds, ops) && i <= j < |worlds| && id < MESSAGE_IDS
    requires worlds[i].table.Shaped() && !worlds[i].table.IsActive(id)
    requires forall k, g: nat :: i <= k < j ==> !Issues(worlds, ops, k, id, g)
    requires packet.header.msgId == id
    ensures worlds[j].table.Shaped() && !worlds[j].table.IsActive(id)
    ensures Process(worlds[j], packet) == worlds[j]
    decreases j - i
  {
    if i < j {
      SealedUntilReissued(worlds, ops, i, j - 1, id, packet);
      assert Stepped(worlds[j - 1], ops[j - 1], worlds[j]);
      var before := worlds[j - 1].table;
      if ops[j - 1].OpAllocate? && ops[j - 1].id == id && CanAllocate(before, id, ops[j - 1].generation) {
        assert Issues(worlds, ops, j - 1, id, before.counters[id]);
        assert false;
      }
    }
  }

  /** complete_message seals its slot. */
  lemma CompletionSeals(worlds: seq<World>, ops: seq<Op>, i: nat, j: nat, id: nat, packet: Packet)
    requires Run(worlds, ops) && i < j < |worlds| && id < MESSAGE_IDS && ops[i] == OpComplete(id)
    requires forall k, g: nat :: i < k < j ==> !Issues(worlds, ops, k, id, g)
    requires packet.header.msgId == id
    ensures worlds[j].table.Shaped() && Process(worlds[j], packet) == worlds[j]
  {
    assert Stepped(worlds[i], ops[i], worlds[i + 1]);
    SealedUntilReissued(worlds, ops, i + 1, j, id, packet);
  }

  /** An active slot whose buffer is the region. */
  ghost predicate Exposes(t: Table, id: nat, region: nat) {
    t.Shaped() && t.IsActive(id) && t.messages[id].value.buffer == User(region)
  }

  ghost predicate Exposed(t: Table, region: nat) {
    exists id: nat :: Exposes(t, id, region)
  }

  /** The user's memory after completion: a region no active slot points to keeps its bytes
      for as long as it is not posted again, whatever packets arrive for whatever slot. */
  lemma {:induction false} MemoryIsSafe(worlds: seq<World>, ops: seq<Op>, i: nat, j: nat, region: nat)
    requires Run(worlds, ops) && i <= j < |worlds|
    requires region in worlds[i].memory && !Exposed(worlds[i].table, region)
    requires forall k :: i <= k < j && ops[k].OpAttach? ==> ops[k].region != region
    ensures region in worlds[j].memory && worlds[j].memory[region] == worlds[i].memory[region]
    ensures !Exposed(worlds[j].table, region)
    decreases j - i
  {
    if i < j {
      MemoryIsSafe(worlds, ops, i, j - 1, region);
      assert Stepped(worlds[j - 1], ops[j - 1], worlds[j]);
      StepSafe(worlds[j - 1], ops[j - 1], region);
    }
  }

  lemma StepSafe(w: World, op: Op, region: nat)
    requires w.table.Shaped() && region in w.memory && !Exposed(w.table, region)
    requires op.OpAttach? ==> op.region != region
    ensures region in Step(w, op).memory && Step(w, op).memory[region] == w.memory[region]
    ensures !Exposed(Step(w, op).table, region)
  {
    var r := Step(w, op);
    if op.OpPacket? && Accepts(w.table, op.packet.header) {
      assert !Exposes(w.table, op.packet.header.msgId, region);
    }
    forall id: nat ensures !Exposes(r.table, id, region) {
      assert !Exposes(w.table, id, region);
    }
  }
}
