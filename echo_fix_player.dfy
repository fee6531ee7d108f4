/**
 * The player object that splits its own outbound broadcasts: viewers always
 * get the original packet, while the player itself gets a copy passed through
 * its filter, but only while a client-predicted state change is in progress.
 *
 * The framework is abstracted as follows. Its two send primitives append to
 * `selfLog` (packets sent to this player) and `viewerLog` (packets sent to
 * the viewers). Its own broadcast appends the same packet to both. A
 * framework setter such as setSneaking is represented by the packets it
 * broadcasts through this object's `SendPacketToViewersAndSelf`, in order.
 */
module EchoFix {
  import opened MetaFilter

  /** Outbound packets, as far as the splitter tells them apart. */
  datatype Packet =
    | EntityMetaData(entityId: int, entries: Entries)
    | EntityAttributes(entityId: int)
    | OtherPacket(payload: int)

  /**
   * How one broadcast is carried out: handed to the framework unchanged, or
   * split into the original for the viewers and at most one copy for the player.
   */
  datatype Route = Broadcast | Split(selfCopy: Option<Packet>)

  /** The splitter's decision for a packet, given the echo flag, the filter (None when null) and the player's entity id. */
  function RouteOf(echoing: bool, policy: Option<Policy>, self: int, packet: Packet): Route {
    if echoing && policy.Some? then
      if packet.EntityMetaData? && packet.entityId == self && Filtered(policy.value, packet.entries).Some? then
        var filtered := Filtered(policy.value, packet.entries).value;
        Split(if filtered != map[] then Some(EntityMetaData(packet.entityId, filtered)) else None)
      else if packet.EntityAttributes? && packet.entityId == self && policy.value.suppressAttributes then
        Split(None)
      else
        Broadcast
    else
      Broadcast
  }

  /** What the player itself receives when a packet is carried out along a route: at most one packet. */
  function SelfDelivery(route: Route, packet: Packet): (s: seq<Packet>)
    ensures |s| <= 1
    ensures route.Broadcast? ==> s == [packet]
  {
    match route
    case Broadcast => [packet]
    case Split(copy) => if copy.Some? then [copy.value] else []
  }

  /** What the player receives when the packets are broadcast one after another under fixed flags. */
  function SelfStream(echoing: bool, policy: Option<Policy>, self: int, packets: seq<Packet>): (s: seq<Packet>)
    ensures |s| <= |packets|
  {
    if packets == [] then []
    else
      var last := packets[|packets| - 1];
      SelfStream(echoing, policy, self, packets[..|packets| - 1]) + SelfDelivery(RouteOf(echoing, policy, self, last), last)
  }

  /** setFlyingWithElytra enters echo scope: starting is predicted; stopping only when the filter asks for it. */
  predicate ElytraScoped(flying: bool, serverForced: bool, policy: Option<Policy>) {
    !serverForced && (flying || (policy.Some? && policy.value.filterElytraStop))
  }

  /** One call that a forced action makes on the player. */
  datatype Call =
    | Sneak(sneaking: bool, delegate: seq<Packet>)
    | Sprint(sprinting: bool, delegate: seq<Packet>)
    | ElytraFlight(flying: bool, delegate: seq<Packet>)
    | ActiveHand(isHandActive: bool, offHand: bool, riptideSpinAttack: bool, delegate: seq<Packet>)
    | Send(packet: Packet)

  /** An action run by forceMetadata: its calls, after which it returns normally or throws. */
  datatype Action = Action(calls: seq<Call>, raises: bool)

  /** Whether a call runs its delegate in echo scope. */
  predicate CallScoped(c: Call, serverForced: bool, policy: Option<Policy>) {
    match c
    case Sneak(_, _) => !serverForced
    case Sprint(_, _) => !serverForced
    case ElytraFlight(flying, _) => ElytraScoped(flying, serverForced, policy)
    case ActiveHand(_, _, _, _) => !serverForced
    case Send(_) => false
  }

  /** The packets a call broadcasts. */
  function Broadcasts(c: Call): seq<Packet> {
    match c
    case Sneak(_, d) => d
    case Sprint(_, d) => d
    case ElytraFlight(_, d) => d
    case ActiveHand(_, _, _, d) => d
    case Send(p) => [p]
  }

  /** The packets a sequence of calls broadcasts, in order. */
  function Emitted(calls: seq<Call>): seq<Packet> {
    if calls == [] then [] else Emitted(calls[..|calls| - 1]) + Broadcasts(calls[|calls| - 1])
  }

  /** The echo flag while a wrapped delegate runs. */
  function EchoDuring(scoped: bool, echoing: bool): bool {
    scoped || echoing
  }

  /** The echo flag after a wrapped delegate returns: reset to false, not restored. */
  function EchoAfter(scoped: bool, echoing: bool): bool {
    if scoped then false else echoing
  }

  // ---------------------------------------------------------------------------
  // Properties of the splitter
  // ---------------------------------------------------------------------------

  /** Outside echo scope, or with no filter, the framework's own broadcast runs: the player gets the original. */
  lemma OutOfScopeBroadcasts(echoing: bool, policy: Option<Policy>, self: int, packet: Packet)
    requires !echoing || policy.None?
    ensures RouteOf(echoing, policy, self, packet) == Broadcast
    ensures SelfDelivery(RouteOf(echoing, policy, self, packet), packet) == [packet]
  {
  }

  /**
   * In scope, the player's own metadata with a non-null filter result is
   * split: the player gets the filtered packet only when the map is non-empty.
   */
  lemma OwnMetadataSplit(p: Policy, self: int, entries: Entries)
    requires Filtered(p, entries).Some?
    ensures var m := Filtered(p, entries).value;
      && RouteOf(true, Some(p), self, EntityMetaData(self, entries)).Split?
      && SelfDelivery(RouteOf(true, Some(p), self, EntityMetaData(self, entries)), EntityMetaData(self, entries)) ==
        (if m == map[] then [] else [EntityMetaData(self, m)])
  {
  }

  /** In scope, the player's own metadata with a null filter result falls through to the framework. */
  lemma OwnMetadataUnfiltered(p: Policy, self: int, entries: Entries)
    requires Filtered(p, entries).None?
    ensures RouteOf(true, Some(p), self, EntityMetaData(self, entries)) == Broadcast
  {
  }

  /** In scope, the player's own attribute packet goes to the viewers only when attributes are suppressed. */
  lemma OwnAttributes(p: Policy, self: int)
    ensures RouteOf(true, Some(p), self, EntityAttributes(self)) ==
      if p.suppressAttributes then Split(None) else Broadcast
  {
  }

  /** Packets about another entity, and other kinds of packet, pass through unchanged. */
  lemma OthersPassThrough(echoing: bool, policy: Option<Policy>, self: int, packet: Packet)
    requires packet.OtherPacket? || packet.entityId != self
    ensures RouteOf(echoing, policy, self, packet) == Broadcast
  {
  }

  /**
   * In scope, whatever the player receives of its own metadata is the
   * filter's effective output, and carries nothing the filter strips.
   */
  lemma SelfMetadataIsClean(p: Policy, self: int, entries: Entries)
    ensures forall q :: q in SelfDelivery(RouteOf(true, Some(p), self, EntityMetaData(self, entries)), EntityMetaData(self, entries)) ==>
      q == EntityMetaData(self, Effective(p, entries)) && Clean(p, q.entries)
  {
    EffectiveIsClean(p, entries);
  }

  /** Appending broadcasts appends what the player receives. */
  lemma {:induction false} SelfStreamAppend(echoing: bool, policy: Option<Policy>, self: int, a: seq<Packet>, b: seq<Packet>)
    ensures SelfStream(echoing, policy, self, a + b) == SelfStream(echoing, policy, self, a) + SelfStream(echoing, policy, self, b)
    decreases |b|
  {
    if b == [] {
      assert a + b == a;
    } else {
      var last := b[|b| - 1];
      assert (a + b)[..|a + b| - 1] == a + b[..|b| - 1];
      SelfStreamAppend(echoing, policy, self, a, b[..|b| - 1]);
    }
  }

  /** Outside echo scope, or with no filter, the player receives every broadcast unchanged. */
  lemma {:induction false} SelfStreamUnfiltered(echoing: bool, policy: Option<Policy>, self: int, packets: seq<Packet>)
    requires !echoing || policy.None?
    ensures SelfStream(echoing, policy, self, packets) == packets
    decreases |packets|
  {
    if packets != [] {
      SelfStreamUnfiltered(echoing, policy, self, packets[..|packets| - 1]);
      assert packets[..|packets| - 1] + [packets[|packets| - 1]] == packets;
    }
  }

  /** While serverForced is set no entry point enters echo scope. */
  lemma ForcedCallUnscoped(c: Call, policy: Option<Policy>)
    ensures !CallScoped(c, true, policy)
  {
  }

  /**
   * forceMetadata bypasses the filter when it starts outside an echo scope:
   * every broadcast of the action reaches the player unchanged.
   */
  lemma ForcedFromIdleUnfiltered(policy: Option<Policy>, self: int, action: Action)
    ensures SelfStream(false, policy, self, Emitted(action.calls)) == Emitted(action.calls)
  {
    SelfStreamUnfiltered(false, policy, self, Emitted(action.calls));
  }

  /**
   * Forcing does not close a scope that is already open: the splitter looks
   * only at echoingSelfInput, so a crouch-only update sent by a forced action
   * that starts in echo scope still never reaches the player.
   */
  lemma ForcedInsideScopeStillFiltered(self: int)
    ensures var packet := EntityMetaData(self, map[ENTITY_FLAGS := ByteV(0x02)]);
      SelfStream(true, Some(DefaultPolicy()), self, Emitted(Action([Send(packet)], false).calls)) == []
  {
    var packet := EntityMetaData(self, map[ENTITY_FLAGS := ByteV(0x02)]);
    assert Emitted([Send(packet)]) == [packet] by {
      assert [Send(packet)][..0] == [];
    }
    assert [packet][..0] == [];
    CrouchToggleScenario(self);
  }

  /** A log that received the stream of `a` and then that of `b` received the stream of `a + b`. */
  lemma LogExtends(echoing: bool, policy: Option<Policy>, self: int, start: seq<Packet>, middle: seq<Packet>, end: seq<Packet>,
                   a: seq<Packet>, b: seq<Packet>)
    requires middle == start + SelfStream(echoing, policy, self, a)
    requires end == middle + SelfStream(echoing, policy, self, b)
    ensures end == start + SelfStream(echoing, policy, self, a + b)
  {
    SelfStreamAppend(echoing, policy, self, a, b);
    Associative(start, SelfStream(echoing, policy, self, a), SelfStream(echoing, policy, self, b));
  }

  /** Concatenation of logs is associative (stated once so that callers need not prove it by extensionality). */
  lemma Associative(a: seq<Packet>, b: seq<Packet>, c: seq<Packet>)
    ensures (a + b) + c == a + (b + c)
  {
  }

  /** With the default filter, stopping elytra flight is never scoped. */
  lemma DefaultElytraStopUnscoped(serverForced: bool)
    ensures !ElytraScoped(false, serverForced, Some(DefaultPolicy()))
  {
  }

  /** Crouch toggle with the default filter: {0: 0x02} reaches the viewers only. */
  lemma CrouchToggleScenario(self: int)
    ensures var packet := EntityMetaData(self, map[ENTITY_FLAGS := ByteV(0x02)]);
      SelfDelivery(RouteOf(true, Some(DefaultPolicy()), self, packet), packet) == []
  {
    DefaultCrouchOnlyIsEmpty();
  }

  /** Mixed flags with the default filter: the player gets {0: 0x10}, the viewers {0: 0x12}. */
  lemma MixedFlagsScenario(self: int)
    ensures var packet := EntityMetaData(self, map[ENTITY_FLAGS := ByteV(0x12)]);
      SelfDelivery(RouteOf(true, Some(DefaultPolicy()), self, packet), packet) ==
        [EntityMetaData(self, map[ENTITY_FLAGS := ByteV(0x10)])]
  {
    DefaultKeepsServerBits();
  }

  /** A pose update with the default filter: the player receives nothing. */
  lemma PoseScenario(self: int, pose: int)
    ensures var packet := EntityMetaData(self, map[POSE := Opaque(pose)]);
      SelfDelivery(RouteOf(true, Some(DefaultPolicy()), self, packet), packet) == []
  {
    var e := map[POSE := Opaque(pose)];
    assert Matches(DefaultPolicy(), POSE, e[POSE]);
    assert Redact(DefaultPolicy(), e) == map[];
  }

  // ---------------------------------------------------------------------------
  // The player object
  // ---------------------------------------------------------------------------

  class EchoFixPlayer {
    const entityId: int
    var selfMetaFilter: SelfMetaFilter?
    var echoingSelfInput: bool
    var serverForced: bool
    /** Packets sent to this player, oldest first. */
    var selfLog: seq<Packet>
    /** Packets sent to the viewers of this player, oldest first. */
    var viewerLog: seq<Packet>

    /** The attached filter's configuration, None when the filter is null. */
    function ActivePolicy(): Option<Policy>
      reads this, selfMetaFilter
    {
      if selfMetaFilter == null then None else Some(selfMetaFilter.View())
    }

    /** Between calls neither scope flag is set. */
    ghost predicate Idle()
      reads this
    {
      !echoingSelfInput && !serverForced
    }

    /** A new player, with the default filter attached. */
    constructor (entityId: int)
      ensures this.entityId == entityId
      ensures selfMetaFilter != null && fresh(selfMetaFilter)
      ensures ActivePolicy() == Some(DefaultPolicy())
      ensures Idle() && selfLog == [] && viewerLog == []
    {
      this.entityId := entityId;
      var f := DefaultPlayerFilter();
      selfMetaFilter := f;
      echoingSelfInput := false;
      serverForced := false;
      selfLog := [];
      viewerLog := [];
    }

    /** The attached filter, null when filtering is disabled. */
    function GetSelfMetadataFilter(): SelfMetaFilter?
      reads this
    {
      selfMetaFilter
    }

    /** Attach a filter, or null to disable filtering. */
    method SetSelfMetadataFilter(filter: SelfMetaFilter?)
      modifies this`selfMetaFilter
      ensures GetSelfMetadataFilter() == filter
    {
      selfMetaFilter := filter;
    }

    /**
     * Run an action with serverForced set; the flag is cleared whether the
     * action returns or throws, and the exception (if any) is passed on.
     */
    method ForceMetadata(action: Action) returns (raised: bool)
      modifies this`serverForced, this`echoingSelfInput, this`selfLog, this`viewerLog
      ensures !serverForced && raised == action.raises
      ensures echoingSelfInput == old(echoingSelfInput)
      ensures viewerLog == old(viewerLog) + Emitted(action.calls)
      ensures selfLog == old(selfLog) + SelfStream(old(echoingSelfInput), ActivePolicy(), entityId, Emitted(action.calls))
      ensures old(Idle()) ==> Idle()
    {
      serverForced := true;
      RunForced(action.calls);
      raised := action.raises;
      serverForced := false;
    }

    /** The calls of a forced action, one after another, while serverForced is set. */
    method RunForced(calls: seq<Call>)
      requires serverForced
      modifies this`echoingSelfInput, this`selfLog, this`viewerLog
      ensures echoingSelfInput == old(echoingSelfInput)
      ensures viewerLog == old(viewerLog) + Emitted(calls)
      ensures selfLog == old(selfLog) + SelfStream(old(echoingSelfInput), ActivePolicy(), entityId, Emitted(calls))
      decreases |calls|
    {
      if calls != [] {
        var prefix, last := calls[..|calls| - 1], calls[|calls| - 1];
        RunForced(prefix);
        ghost var selfBefore := selfLog;
        ForcedCallUnscoped(last, ActivePolicy());
        Perform(last);
        Associative(old(viewerLog), Emitted(prefix), Broadcasts(last));
        LogExtends(echoingSelfInput, ActivePolicy(), entityId, old(selfLog), selfBefore, selfLog,
                   Emitted(prefix), Broadcasts(last));
      }
    }

    /** One call of a forced action, dispatched to the matching entry point. */
    method Perform(c: Call)
      modifies this`echoingSelfInput, this`selfLog, this`viewerLog
      ensures echoingSelfInput == EchoAfter(CallScoped(c, serverForced, ActivePolicy()), old(echoingSelfInput))
      ensures viewerLog == old(viewerLog) + Broadcasts(c)
      ensures selfLog == old(selfLog) +
        SelfStream(EchoDuring(CallScoped(c, serverForced, ActivePolicy()), old(echoingSelfInput)), ActivePolicy(), entityId, Broadcasts(c))
    {
      match c
      case Sneak(sneaking, d) => SetSneaking(sneaking, d);
      case Sprint(sprinting, d) => SetSprinting(sprinting, d);
      case ElytraFlight(flying, d) => SetFlyingWithElytra(flying, d);
      case ActiveHand(active, off, riptide, d) => RefreshActiveHand(active, off, riptide, d);
      case Send(p) =>
        SendPacketToViewersAndSelf(p);
        assert [p][..0] == [];
    }

    /**
     * setSneaking: the delegate runs in echo scope unless the change is
     * server-forced. `sneaking` reaches the framework only through the
     * delegate, which stands for its effect.
     */
    method SetSneaking(sneaking: bool, delegate: seq<Packet>)
      modifies this`echoingSelfInput, this`selfLog, this`viewerLog
      ensures echoingSelfInput == EchoAfter(!serverForced, old(echoingSelfInput))
      ensures viewerLog == old(viewerLog) + delegate
      ensures selfLog == old(selfLog) + SelfStream(EchoDuring(!serverForced, old(echoingSelfInput)), ActivePolicy(), entityId, delegate)
      ensures old(Idle()) ==> Idle()
    {
      if !serverForced {
        echoingSelfInput := true;
        RunDelegate(delegate);
        echoingSelfInput := false;
      } else {
        RunDelegate(delegate);
      }
    }

    /**
     * setSprinting: the delegate runs in echo scope unless the change is
     * server-forced. `sprinting` reaches the framework only through the
     * delegate, which stands for its effect.
     */
    method SetSprinting(sprinting: bool, delegate: seq<Packet>)
      modifies this`echoingSelfInput, this`selfLog, this`viewerLog
      ensures echoingSelfInput == EchoAfter(!serverForced, old(echoingSelfInput))
      ensures viewerLog == old(viewerLog) + delegate
      ensures selfLog == old(selfLog) + SelfStream(EchoDuring(!serverForced, old(echoingSelfInput)), ActivePolicy(), entityId, delegate)
      ensures old(Idle()) ==> Idle()
    {
      if !serverForced {
        echoingSelfInput := true;
        RunDelegate(delegate);
        echoingSelfInput := false;
      } else {
        RunDelegate(delegate);
      }
    }

    /**
     * setFlyingWithElytra: starting to fly is scoped; stopping is scoped only
     * when the filter is set to filter the elytra stop; never when server-forced.
     * The framework setter's own use of `flying` is the delegate's packets.
     */
    method SetFlyingWithElytra(flying: bool, delegate: seq<Packet>)
      modifies this`echoingSelfInput, this`selfLog, this`viewerLog
      ensures echoingSelfInput == EchoAfter(ElytraScoped(flying, serverForced, ActivePolicy()), old(echoingSelfInput))
      ensures viewerLog == old(viewerLog) + delegate
      ensures selfLog == old(selfLog) +
        SelfStream(EchoDuring(ElytraScoped(flying, serverForced, ActivePolicy()), old(echoingSelfInput)), ActivePolicy(), entityId, delegate)
      ensures old(Idle()) ==> Idle()
    {
      if flying && !serverForced {
        echoingSelfInput := true;
        RunDelegate(delegate);
        echoingSelfInput := false;
      } else if !flying && !serverForced && selfMetaFilter != null && selfMetaFilter.ElytraStopFiltered() {
        echoingSelfInput := true;
        RunDelegate(delegate);
        echoingSelfInput := false;
      } else {
        RunDelegate(delegate);
      }
    }

    /**
     * refreshActiveHand: the delegate runs in echo scope unless the change is
     * server-forced. The three hand arguments reach the framework only through
     * the delegate, which stands for their effect.
     */
    method RefreshActiveHand(isHandActive: bool, offHand: bool, riptideSpinAttack: bool, delegate: seq<Packet>)
      modifies this`echoingSelfInput, this`selfLog, this`viewerLog
      ensures echoingSelfInput == EchoAfter(!serverForced, old(echoingSelfInput))
      ensures viewerLog == old(viewerLog) + delegate
      ensures selfLog == old(selfLog) + SelfStream(EchoDuring(!serverForced, old(echoingSelfInput)), ActivePolicy(), entityId, delegate)
      ensures old(Idle()) ==> Idle()
    {
      if !serverForced {
        echoingSelfInput := true;
        RunDelegate(delegate);
        echoingSelfInput := false;
      } else {
        RunDelegate(delegate);
      }
    }

    /** The framework setter behind a wrapper: it broadcasts its packets through this object, in order. */
    method RunDelegate(packets: seq<Packet>)
      modifies this`selfLog, this`viewerLog
      ensures viewerLog == old(viewerLog) + packets
      ensures selfLog == old(selfLog) + SelfStream(echoingSelfInput, ActivePolicy(), entityId, packets)
    {
      var i := 0;
      while i < |packets|
        invariant 0 <= i <= |packets|
        invariant viewerLog == old(viewerLog) + packets[..i]
        invariant selfLog == old(selfLog) + SelfStream(echoingSelfInput, ActivePolicy(), entityId, packets[..i])
      {
        SendPacketToViewersAndSelf(packets[i]);
        assert packets[..i + 1][..i] == packets[..i];
        i := i + 1;
      }
      assert packets[..i] == packets;
    }

    /**
     * The splitter. The viewers always get the original exactly once; the
     * player gets what the route gives it.
     */
    method SendPacketToViewersAndSelf(packet: Packet)
      modifies this`selfLog, this`viewerLog
      ensures viewerLog == old(viewerLog) + [packet]
      ensures selfLog == old(selfLog) + SelfDelivery(RouteOf(echoingSelfInput, ActivePolicy(), entityId, packet), packet)
    {
      if echoingSelfInput && selfMetaFilter != null {
        if packet.EntityMetaData? && packet.entityId == entityId {
          var filtered := selfMetaFilter.Filter(packet.entries);
          if filtered.Some? {
            if filtered.value != map[] {
              SendPacket(EntityMetaData(packet.entityId, filtered.value));
            }
            SendPacketToViewers(packet);
            return;
          }
        }
        if packet.EntityAttributes? && packet.entityId == entityId && selfMetaFilter.AttributesSuppressed() {
          SendPacketToViewers(packet);
          return;
        }
      }
      BroadcastUnfiltered(packet);
    }

    /** The framework's send to this player alone. */
    method SendPacket(packet: Packet)
      modifies this`selfLog
      ensures selfLog == old(selfLog) + [packet]
    {
      selfLog := selfLog + [packet];
    }

    /** The framework's send to the viewers alone. */
    method SendPacketToViewers(packet: Packet)
      modifies this`viewerLog
      ensures viewerLog == old(viewerLog) + [packet]
    {
      viewerLog := viewerLog + [packet];
    }

    /** The framework's own broadcast (the overridden method): the same packet to the viewers and to this player. */
    method BroadcastUnfiltered(packet: Packet)
      modifies this`selfLog, this`viewerLog
      ensures viewerLog == old(viewerLog) + [packet]
      ensures selfLog == old(selfLog) + [packet]
    {
      viewerLog := viewerLog + [packet];
      selfLog := selfLog + [packet];
    }
  }
}
