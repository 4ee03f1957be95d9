/** Message after message on one receiver: which posts can receive what is sent for them.
    The CTS carries a number from one counter, the slot takes its generation from another. */
module Posts {
  import opened Geometry
  import opened Wire
  import opened Slots

  /** A receiving process: how many messages it has posted, its slots and its memory. */
  datatype Host = Host(posts: nat, world: World)

  /** Posting the next message, or anything else that happens to the slots. */
  datatype Event = Post | Happens(op: Op)

  /** The slot the next post asks for. */
  function NextId(p: Host): nat {
    p.posts % MESSAGE_IDS
  }

  /** The transfer_id of the CTS that answers it, also the generation asked for. */
  function NextTransfer(p: Host): nat {
    p.posts + 1
  }

  function After(p: Host, e: Event): (r: Host)
    requires p.world.table.Shaped()
    ensures r.world.table.Shaped()
  {
    match e
    case Post => Host(p.posts + 1, Step(p.world, OpAllocate(NextId(p), NextTransfer(p))))
    case Happens(op) => p.(world := Step(p.world, op))
  }

  /** How many of the first n posts asked for slot id. */
  function Uses(id: nat, n: nat): (r: nat)
    requires id < MESSAGE_IDS
    ensures r == (n + MESSAGE_IDS - 1 - id) / MESSAGE_IDS
  {
    if n == 0 then 0 else Uses(id, n - 1) + if (n - 1) % MESSAGE_IDS == id then 1 else 0
  }

  ghost predicate Moves(p: Host, e: Event, r: Host) {
    && p.world.table.Shaped() && r == After(p, e)
    && (e.Happens? ==> !e.op.OpAllocate?)
  }

  ghost predicate Life(states: seq<Host>, events: seq<Event>) {
    && |states| == |events| + 1
    && states[0].posts == 0 && Unused(states[0].world.table)
    && forall i :: 0 <= i < |events| ==> Moves(states[i], events[i], states[i + 1])
  }

  /** A slot's counter has moved at most once for every post that asked for the slot. */
  ghost predicate Counted(p: Host) {
    && TableTrue(p.world.table)
    && forall id: nat :: id < MESSAGE_IDS ==> p.world.table.counters[id] <= 1 + Uses(id, p.posts)
  }

  lemma {:induction false} LifeCounted(states: seq<Host>, events: seq<Event>, i: nat)
    requires Life(states, events) && i < |states|
    ensures Counted(states[i])
  {
    if i > 0 {
      LifeCounted(states, events, i - 1);
      var p, e := states[i - 1], events[i - 1];
      assert Moves(p, e, states[i]);
      match e
      case Post =>
        StepTrue(p.world, OpAllocate(NextId(p), NextTransfer(p)));
      case Happens(op) =>
        StepTrue(p.world, op);
    } else {
      assert forall id: nat :: id < MESSAGE_IDS ==> SlotTrue(states[0].world.table, id);
    }
  }

  /** A post is refused exactly when its slot is still active: the generation it asks for
      is newer than any the slot has held. */
  lemma PostNeedsAnInactiveSlot(states: seq<Host>, events: seq<Event>, i: nat)
    requires Life(states, events) && i < |states|
    ensures var p := states[i];
      && p.world.table.Shaped()
      && (CanAllocate(p.world.table, NextId(p), NextTransfer(p)) <==> !p.world.table.IsActive(NextId(p)))
  {
    LifeCounted(states, events, i);
    var p := states[i];
    var id := NextId(p);
    assert SlotTrue(p.world.table, id);
    assert p.world.table.counters[id] <= 1 + Uses(id, p.posts);
  }

  /** The slot a post has just been given expects the stamp that the CTS hands to the sender
      exactly when this is the process's first post. */
  lemma StampMatchesFirstPostOnly(states: seq<Host>, events: seq<Event>, i: nat)
    requires Life(states, events) && i < |events| && events[i] == Post
    requires states[i].world.table.Shaped()
    requires CanAllocate(states[i].world.table, NextId(states[i]), NextTransfer(states[i]))
    ensures var p, table := states[i], states[i + 1].world.table;
      && table.Shaped() && table.IsActive(NextId(p))
      && (table.messages[NextId(p)].value.generation == NextTransfer(p) <==> p.posts == 0)
  {
    LifeCounted(states, events, i);
    var p := states[i];
    var id := NextId(p);
    assert Moves(p, events[i], states[i + 1]);
    assert SlotTrue(p.world.table, id);
    assert p.world.table.counters[id] <= 1 + Uses(id, p.posts);
  }

  /** A header stamped as the CTS of post n asked. */
  predicate StampedFor(header: Header, n: nat) {
    header.msgId == n % MESSAGE_IDS && header.transferId == n + 1
  }

  /** When such a packet is taken at all: exactly while its slot is active and has been
      handed out n + 1 times. */
  lemma AcceptedExactly(states: seq<Host>, events: seq<Event>, i: nat, n: nat, header: Header)
    requires Life(states, events) && i < |states| && StampedFor(header, n)
    ensures var table := states[i].world.table;
      && table.Shaped()
      && (Accepts(table, header) <==> table.IsActive(header.msgId) && table.counters[header.msgId] == n + 2)
  {
    LifeCounted(states, events, i);
    assert SlotTrue(states[i].world.table, header.msgId);
  }

  /** So every data packet stamped as the CTS of post n asked is ignored, whatever else
      happens, until its slot has been asked for n + 1 times. The first post apart, that is
      not before the slot has been handed to another message. */
  lemma LaterPostsReceiveNothing(states: seq<Host>, events: seq<Event>, i: nat, j: nat, packet: Packet)
    requires Life(states, events) && i < j < |states| && events[i] == Post
    requires Uses(NextId(states[i]), states[j].posts) <= states[i].posts
    requires packet.header.msgId == NextId(states[i]) && packet.header.transferId == NextTransfer(states[i])
    ensures states[j].world.table.Shaped() && Process(states[j].world, packet) == states[j].world
  {
    LifeCounted(states, events, j);
    AcceptedExactly(states, events, j, states[i].posts, packet.header);
  }

  // ---- a process that completes every message it posts ----

  /** As many posts, each completed; every slot has been handed out whenever it was asked for. */
  ghost predicate Tidy(p: Host, posts: nat) {
    && p.posts == posts && TableTrue(p.world.table)
    && forall id: nat :: id < MESSAGE_IDS ==>
         !p.world.table.IsActive(id) && p.world.table.counters[id] == 1 + Uses(id, posts)
  }

  /** In a tidy process the next post gets its slot. */
  lemma PostGetsSlot(p: Host, posts: nat)
    requires Tidy(p, posts)
    ensures CanAllocate(p.world.table, NextId(p), NextTransfer(p))
    ensures After(p, Post).posts == posts + 1 && TableTrue(After(p, Post).world.table)
    ensures After(p, Post).world.table.IsActive(NextId(p))
    ensures After(p, Post).world.table.counters
      == p.world.table.counters[NextId(p) := p.world.table.counters[NextId(p)] + 1]
    ensures forall other: nat :: other < MESSAGE_IDS && other != NextId(p) ==>
      !After(p, Post).world.table.IsActive(other)
  {
    var id := NextId(p);
    assert SlotTrue(p.world.table, id) && !p.world.table.IsActive(id);
    StepTrue(p.world, OpAllocate(id, NextTransfer(p)));
    forall other: nat | other < MESSAGE_IDS && other != id ensures !After(p, Post).world.table.IsActive(other) {
      assert !p.world.table.IsActive(other);
    }
  }

  lemma UsesNext(id: nat, posts: nat)
    requires id < MESSAGE_IDS
    ensures Uses(id, posts + 1) == Uses(id, posts) + if posts % MESSAGE_IDS == id then 1 else 0
  {
  }

  lemma PostAndComplete(p: Host, posts: nat) returns (q: Host, r: Host)
    requires Tidy(p, posts)
    ensures Moves(p, Post, q) && Moves(q, Happens(OpComplete(NextId(p))), r)
    ensures q.posts == posts + 1 && q.world.table.Shaped() && q.world.table.IsActive(NextId(p))
    ensures q.world.table.counters[NextId(p)] == 2 + Uses(NextId(p), posts)
    ensures Tidy(r, posts + 1)
  {
    hide Uses;
    hide TableTrue;
    TidyShaped(p, posts);
    var id := NextId(p);
    q := After(p, Post);
    PostGetsSlot(p, posts);
    TableShaped(q.world.table);
    assert !p.world.table.IsActive(id);
    r := After(q, Happens(OpComplete(id)));
    StepTrue(q.world, OpComplete(id));
    forall other: nat | other < MESSAGE_IDS
      ensures !r.world.table.IsActive(other) && r.world.table.counters[other] == 1 + Uses(other, posts + 1)
    {
      assert !p.world.table.IsActive(other);
      UsesNext(other, posts);
    }
  }

  lemma TableShaped(t: Table)
    requires TableTrue(t)
    ensures t.Shaped()
  {
  }

  lemma TidyShaped(p: Host, posts: nat)
    requires Tidy(p, posts)
    ensures p.world.table.Shaped() && p.posts == posts
  {
  }

  lemma {:induction false} TidyLife(start: Host, posts: nat) returns (states: seq<Host>, events: seq<Event>)
    requires start.posts == 0 && Unused(start.world.table)
    ensures Life(states, events) && states[0] == start && Tidy(states[|events|], posts)
  {
    if posts == 0 {
      states, events := [start], [];
      assert forall id: nat :: id < MESSAGE_IDS ==> SlotTrue(start.world.table, id);
    } else {
      states, events := TidyLife(start, posts - 1);
      var q, r := PostAndComplete(states[|events|], posts - 1);
      var complete := Happens(OpComplete(NextId(states[|events|])));
      states, events := states + [q] + [r], events + [Post] + [complete];
    }
  }

  /** How many posts come before the one that gets the slot of post n as its tenant n + 1. */
  function PostsBefore(n: nat): nat {
    n % MESSAGE_IDS + n * MESSAGE_IDS
  }

  lemma DivideBack(n: nat, k: nat)
    requires k > 0
    ensures (n * k + (k - 1)) / k == n
  {
    MulSum(n, 1, k);
    BlockOf(n * k + (k - 1), k, n);
  }

  lemma UsesAt(n: nat)
    ensures Uses(n % MESSAGE_IDS, PostsBefore(n)) == n
  {
    DivideBack(n, MESSAGE_IDS);
    var id, posts := n % MESSAGE_IDS, PostsBefore(n);
    assert posts + MESSAGE_IDS - 1 - id == n * MESSAGE_IDS + (MESSAGE_IDS - 1);
    assert Uses(id, posts) == (posts + MESSAGE_IDS - 1 - id) / MESSAGE_IDS;
  }

  lemma SlotOfTenant(n: nat)
    ensures PostsBefore(n) % MESSAGE_IDS == n % MESSAGE_IDS
    ensures n > 0 ==> PostsBefore(n) > n
  {
    ModuloBack(n % MESSAGE_IDS, n, MESSAGE_IDS);
    if n > 0 {
      MulStep(0, n, MESSAGE_IDS);
      TimesMore(n);
    }
  }

  lemma ModuloBack(id: nat, n: nat, k: nat)
    requires id < k
    ensures (id + n * k) % k == id
  {
    MulSum(n, 1, k);
    BlockOf(id + n * k, k, n);
  }

  lemma TimesMore(n: nat)
    requires n > 0
    ensures n * MESSAGE_IDS > n
  {
  }

  /** And from then on they are not ignored: for every n a life ends in which packets
      stamped for post n are accepted, for n > 0 by a message posted later. */
  lemma StalePacketsAccepted(start: Host, n: nat, header: Header) returns (states: seq<Host>, events: seq<Event>)
    requires start.posts == 0 && Unused(start.world.table) && StampedFor(header, n)
    ensures Life(states, events) && states[0] == start
    ensures var last := states[|events|];
      && last.posts == PostsBefore(n) + 1 && (n > 0 ==> PostsBefore(n) > n)
      && last.world.table.Shaped() && Accepts(last.world.table, header)
  {
    hide Tidy;
    hide Uses;
    hide PostsBefore;
    hide After;
    states, events := TidyLife(start, PostsBefore(n));
    var p := states[|events|];
    TidyShaped(p, PostsBefore(n));
    var q, r := PostAndComplete(p, PostsBefore(n));
    states, events := states + [q], events + [Post];
    UsesAt(n);
    SlotOfTenant(n);
    AcceptedExactly(states, events, |events|, n, header);
  }
}
