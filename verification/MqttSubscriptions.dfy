/** The subscription manager of the MQTT agent: every region that runs under its mutex,
    as one atomic step, and the bookkeeping that all of them keep. */
module MqttSubscriptions {
  import opened Basics
  import opened MqttTables

  datatype Status = Success | NoMemory | NoDataAvailable | OtherError

  /** MQTTSubAckStatus_t: the failure code, a granted quality of service, or a value that the
      type does not name. */
  datatype Ack = AckFailure | AckQoS(qos: nat) | AckUnknown

  const FAILURE_CODE := 0x80  // MQTTSubAckFailure

  /** The number that `width` bytes of 0x80 make. */
  function ByteFill(width: nat): nat {
    if width == 0 then 0 else 256 * ByteFill(width - 1) + FAILURE_CODE
  }

  /** What memset leaves in an entry of `width` bytes. */
  function FilledAck(width: nat): Ack {
    if ByteFill(width) == FAILURE_CODE then AckFailure else AckUnknown
  }

  /** Filling the entries byte by byte with the failure code makes them failures only if an
      entry is a single byte. */
  lemma FilledIsFailure(width: nat)
    ensures FilledAck(width) == AckFailure <==> width == 1
  {
    if width > 1 {
      assert ByteFill(width) == 256 * ByteFill(width - 1) + FAILURE_CODE;
      assert ByteFill(width - 1) > 0;
    }
  }

  // ---------------------------------------------------------------------------
  // Counting used entries
  // ---------------------------------------------------------------------------

  function Count<T>(s: seq<T>, used: T -> bool): nat {
    |Packed(s, used)|
  }

  lemma CountSplit<T>(s: seq<T>, used: T -> bool, i: nat)
    requires i < |s|
    ensures Count(s, used) == Count(s[..i], used) + (if used(s[i]) then 1 else 0) + Count(s[i + 1..], used)
  {
    assert s == s[..i] + [s[i]] + s[i + 1..];
    PackedAppend(s[..i] + [s[i]], s[i + 1..], used);
    PackedAppend(s[..i], [s[i]], used);
    assert [s[i]][..0] == [];
  }

  lemma CountUpdate<T>(s: seq<T>, used: T -> bool, i: nat, x: T)
    requires i < |s|
    ensures Count(s[i := x], used) + (if used(s[i]) then 1 else 0) == Count(s, used) + (if used(x) then 1 else 0)
  {
    CountSplit(s, used, i);
    CountSplit(s[i := x], used, i);
    assert s[i := x][..i] == s[..i] && s[i := x][i + 1..] == s[i + 1..];
  }

  lemma CountPositive<T>(s: seq<T>, used: T -> bool, i: nat)
    requires i < |s| && used(s[i])
    ensures Count(s, used) > 0
  {
    CountSplit(s, used, i);
  }

  /** A packed table has as many used entries as its packed part is long. */
  lemma CountPackedTable<T>(was: seq<T>, now: seq<T>, used: T -> bool, count: nat)
    requires count <= |now| && now[..count] == Packed(was, used)
    requires forall i :: count <= i < |now| ==> !used(now[i])
    ensures Count(now, used) == count == Count(was, used)
  {
    assert now == now[..count] + now[count..];
    PackedAppend(now[..count], now[count..], used);
    PackedLength(was, used);
    PackedAll(now[..count], used);
    PackedNone(now[count..], used);
  }

  lemma {:induction false} PackedMembers<T>(s: seq<T>, used: T -> bool)
    ensures forall x :: x in Packed(s, used) ==> x in s
  {
    if s != [] {
      PackedMembers(s[..|s| - 1], used);
    }
  }

  // ---------------------------------------------------------------------------
  // String comparison as the lookups do it
  // ---------------------------------------------------------------------------

  /** strncmp( pTopicFilter, topic, length ) == 0 for a stored filter. */
  predicate PrefixMatches(s: Sub, topic: string) {
    s.length == 0 ||
    (s.filter.Some? && s.length <= |topic| && s.length <= |s.filter.value| && s.filter.value[..s.length] == topic[..s.length])
  }

  /** The length test and strncmp of the unsubscribe lookups. */
  predicate ExactlyMatches(s: Sub, topic: string) {
    |topic| == s.length && PrefixMatches(s, topic)
  }

  /** What the comparisons mean for a slot that is kept in order: a stored filter is a prefix
      of the topic, or the topic itself. */
  lemma LookupsAre(s: Sub, topic: string)
    requires SubOk(s) && |topic| > 0
    ensures PrefixMatches(s, topic) <==> s.filter.None? || s.filter.value <= topic
    ensures ExactlyMatches(s, topic) <==> s.filter == Some(topic)
  {
    if s.filter.Some? {
      var f := s.filter.value;
      assert f[..s.length] == f;
      if f <= topic {
        assert topic[..|f|] == f;
      }
      if |topic| == |f| {
        assert topic[..|topic|] == topic;
      }
    }
  }

  lemma LookupsInTable(subs: seq<Sub>, topic: string)
    requires SubsOk(subs) && |topic| > 0
    ensures forall i :: 0 <= i < |subs| ==>
              && (PrefixMatches(subs[i], topic) <==> subs[i].filter.None? || subs[i].filter.value <= topic)
              && (ExactlyMatches(subs[i], topic) <==> subs[i].filter == Some(topic))
  {
    hide PrefixMatches, ExactlyMatches;
    forall i | 0 <= i < |subs|
      ensures PrefixMatches(subs[i], topic) <==> subs[i].filter.None? || subs[i].filter.value <= topic
      ensures ExactlyMatches(subs[i], topic) <==> subs[i].filter == Some(topic)
    {
      LookupsAre(subs[i], topic);
    }
  }

  /** The same for the slot that is chosen, and for a table in which there is none. */
  lemma ChosenText(subs: seq<Sub>, topic: string)
    requires SubsOk(subs) && |topic| > 0
    ensures forall slot: nat :: Chosen(subs, topic, slot) ==>
              && (subs[slot].filter.None? || subs[slot].filter.value <= topic)
              && (subs[slot].filter.Some? ==>
                    forall k :: 0 <= k < slot && subs[k].filter.Some? ==> !(subs[k].filter.value <= topic))
    ensures (forall i :: 0 <= i < |subs| ==> SubUsed(subs[i]) && !PrefixMatches(subs[i], topic)) ==>
              forall i :: 0 <= i < |subs| ==> subs[i].filter.Some? && !(subs[i].filter.value <= topic)
  {
    hide PrefixMatches;
    LookupsInTable(subs, topic);
  }

  /** A slot that holds one topic is never chosen for another of the same length. */
  lemma EqualLengthsApart(subs: seq<Sub>, slot: nat, stored: string, topic: string)
    requires slot < |subs| && SubOk(subs[slot]) && subs[slot].filter == Some(stored)
    requires |stored| == |topic| > 0 && Chosen(subs, topic, slot)
    ensures stored == topic
  {
    LookupsAre(subs[slot], topic);
  }

  /** Two different topics, of whatever lengths, can share a slot exactly if its filter is a
      prefix of both: "a" serves "ab" and "ac". */
  lemma SharedSlot(s: Sub, one: string, other: string)
    requires SubOk(s) && SubUsed(s) && |one| > 0 && |other| > 0
    ensures PrefixMatches(s, one) && PrefixMatches(s, other) <==> s.filter.value <= one && s.filter.value <= other
    ensures PrefixMatches(Sub(Some("a"), 1, 0), "ab") && PrefixMatches(Sub(Some("a"), 1, 0), "ac")
  {
    LookupsAre(s, one);
    LookupsAre(s, other);
    LookupsAre(Sub(Some("a"), 1, 0), "ab");
    LookupsAre(Sub(Some("a"), 1, 0), "ac");
  }

  /** prvGetNewQoS: a differing quality of service becomes QoS 1. */
  function NewQoS(current: nat, requested: nat): nat {
    if current == requested then current else 1
  }

  /** A slot the subscribe search stops at: its filter is a prefix of the topic, where an
      empty slot after the first one passes for such a prefix. */
  predicate StopsAt(subs: seq<Sub>, topic: string, i: nat)
    requires i < |subs|
  {
    PrefixMatches(subs[i], topic) && (SubUsed(subs[i]) || exists k :: 0 <= k < i && !SubUsed(subs[k]))
  }

  /** The slot a subscribe uses: the first at which the search stops, or else the only
      empty one. */
  predicate Chosen(subs: seq<Sub>, topic: string, slot: nat) {
    && slot < |subs|
    && (StopsAt(subs, topic, slot) || (!SubUsed(subs[slot]) && forall k :: slot < k < |subs| ==> !StopsAt(subs, topic, k)))
    && forall k :: 0 <= k < slot ==> !StopsAt(subs, topic, k)
  }

  /** A topic has at most one such slot, and none in a table full of filters that are no
      prefix of it. */
  lemma ChosenUnique(subs: seq<Sub>, topic: string, a: nat, b: nat)
    requires Chosen(subs, topic, a) && Chosen(subs, topic, b)
    ensures a == b < |subs|
    ensures exists i :: 0 <= i < |subs| && (!SubUsed(subs[i]) || PrefixMatches(subs[i], topic))
  {
    if a < b && !SubUsed(subs[b]) {
      assert !SubUsed(subs[a]) && StopsAt(subs, topic, b);
    }
    if b < a && !SubUsed(subs[a]) {
      assert !SubUsed(subs[b]) && StopsAt(subs, topic, a);
    }
    assert !SubUsed(subs[a]) || PrefixMatches(subs[a], topic);
  }

  lemma ChosenIsUnique(subs: seq<Sub>, topic: string, slot: nat)
    requires Chosen(subs, topic, slot)
    ensures slot < |subs| && forall other :: Chosen(subs, topic, other) ==> other == slot
  {
    hide Chosen;
    assert slot < |subs| by { ChosenUnique(subs, topic, slot, slot); }
    forall other | Chosen(subs, topic, other)
      ensures other == slot
    {
      ChosenUnique(subs, topic, slot, other);
    }
  }

  lemma ChosenPrefix(subs: seq<Sub>, topic: string, slot: nat)
    requires Chosen(subs, topic, slot)
    ensures slot < |subs| && (SubUsed(subs[slot]) ==> PrefixMatches(subs[slot], topic))
  {
  }

  lemma NoneChosen(subs: seq<Sub>, topic: string)
    requires forall i :: 0 <= i < |subs| ==> SubUsed(subs[i]) && !PrefixMatches(subs[i], topic)
    ensures forall slot :: !Chosen(subs, topic, slot)
  {
  }

  /** The quality of service that the chosen slot gets. */
  function SlotQoS(subs: seq<Sub>, topic: string, slot: nat, requested: nat): nat
    requires slot < |subs|
  {
    if StopsAt(subs, topic, slot) then NewQoS(subs[slot].qos, requested) else requested
  }

  /** The acknowledgement of the chosen slot when the search ends. It is reset, so that the
      slot is (re)subscribed, for the only empty slot and for a change of quality of service. */
  function SlotAck(subs: seq<Sub>, acks: seq<Ack>, topic: string, slot: nat, requested: nat): Ack
    requires slot < |subs| == |acks|
  {
    if !StopsAt(subs, topic, slot) || SlotQoS(subs, topic, slot, requested) != subs[slot].qos then AckFailure
    else acks[slot]
  }

  predicate FirstEmpty(subs: seq<Sub>, i: nat)
    requires i < |subs|
  {
    !SubUsed(subs[i]) && forall k :: 0 <= k < i ==> SubUsed(subs[k])
  }

  predicate Reached(subs: seq<Sub>, topic: string, i: nat)
    requires i < |subs|
  {
    forall k :: 0 <= k < i ==> !StopsAt(subs, topic, k)
  }

  /** The acknowledgement of any slot when the search ends: reset for the first empty slot, if
      the search gets there, and as above for the slot it stops at. */
  function AckAfter(subs: seq<Sub>, acks: seq<Ack>, topic: string, requested: nat, i: nat): Ack
    requires i < |subs| == |acks|
  {
    if !Reached(subs, topic, i) then acks[i]
    else if FirstEmpty(subs, i) then AckFailure
    else if StopsAt(subs, topic, i) then SlotAck(subs, acks, topic, i, requested)
    else acks[i]
  }

  function AcksAfter(subs: seq<Sub>, acks: seq<Ack>, topic: string, requested: nat): (r: seq<Ack>)
    requires |subs| == |acks|
    ensures |r| == |acks|
    ensures forall i :: 0 <= i < |acks| ==> r[i] == AckAfter(subs, acks, topic, requested, i)
  {
    seq(|acks|, i requires 0 <= i < |acks| => AckAfter(subs, acks, topic, requested, i))
  }

  /** The topic gets copied into the chosen slot, which is empty. */
  predicate NeedsCopy(subs: seq<Sub>, acks: seq<Ack>, topic: string, slot: nat, requested: nat)
    requires slot < |subs| == |acks|
  {
    !SubUsed(subs[slot]) && SlotAck(subs, acks, topic, slot, requested) == AckFailure
  }

  /** The chosen slot after a successful subscribe. */
  function SlotAfter(subs: seq<Sub>, acks: seq<Ack>, topic: string, slot: nat, requested: nat): Sub
    requires slot < |subs| == |acks|
  {
    var qos := SlotQoS(subs, topic, slot, requested);
    if NeedsCopy(subs, acks, topic, slot, requested) then Sub(Some(topic), |topic|, qos)
    else if SubUsed(subs[slot]) then subs[slot].(qos := qos) else subs[slot]
  }

  /** In the words of the table: after a successful subscribe the slot is empty or its filter
      is a prefix of the topic; a filter that was there stays, with a quality of service of 1
      if the request differs. */
  lemma SlotAfterIs(subs: seq<Sub>, acks: seq<Ack>, topic: string, slot: nat, requested: nat)
    requires SubsOk(subs) && |subs| == |acks| && |topic| > 0 && Chosen(subs, topic, slot)
    ensures var s := SlotAfter(subs, acks, topic, slot, requested);
            && (s.filter.None? || s.filter.value <= topic)
            && (subs[slot].filter.Some? ==>
                  && s.filter == subs[slot].filter
                  && s.qos == if subs[slot].qos == requested then requested else 1)
  {
    hide PrefixMatches;
    assert SubOk(subs[slot]);
    LookupsAre(subs[slot], topic);
  }

  /** The entry is there already or there is room for it. */
  predicate HasEntry(callbacks: seq<Callback>, wanted: Callback) {
    wanted in callbacks || exists i :: 0 <= i < |callbacks| && !CallbackUsed(callbacks[i])
  }

  /** When a subscribe succeeds, seen from before the call. */
  ghost predicate Accepts(
      subs: seq<Sub>, acks: seq<Ack>, callbacks: seq<Callback>,
      topic: string, requested: nat, func: nat, context: nat, task: nat, memory: bool)
    requires |subs| == |acks|
  {
    exists slot ::
      && Chosen(subs, topic, slot) && HasEntry(callbacks, Callback(func, context, task, Some(slot)))
      && (memory || !NeedsCopy(subs, acks, topic, slot, requested))
  }

  /** The subscriptions after a subscribe that was refused: the chosen slot has its new quality
      of service if only the memory was missing. */
  ghost predicate Refused(
      subs: seq<Sub>, callbacks: seq<Callback>, topic: string, requested: nat, func: nat, context: nat, task: nat, now: seq<Sub>)
  {
    && (forall slot: nat :: Chosen(subs, topic, slot) && HasEntry(callbacks, Callback(func, context, task, Some(slot))) ==>
          now == subs[slot := subs[slot].(qos := SlotQoS(subs, topic, slot, requested))])
    && ((forall slot: nat :: Chosen(subs, topic, slot) ==> !HasEntry(callbacks, Callback(func, context, task, Some(slot)))) ==>
          now == subs)
  }

  lemma RefusedWithoutPlace(
      subs: seq<Sub>, callbacks: seq<Callback>, topic: string, requested: nat, func: nat, context: nat, task: nat)
    requires forall slot: nat :: Chosen(subs, topic, slot) ==> !HasEntry(callbacks, Callback(func, context, task, Some(slot)))
    ensures Refused(subs, callbacks, topic, requested, func, context, task, subs)
  {
  }

  lemma RefusedWithoutMemory(
      subs: seq<Sub>, callbacks: seq<Callback>, topic: string, requested: nat, func: nat, context: nat, task: nat, slot: nat)
    requires Chosen(subs, topic, slot) && HasEntry(callbacks, Callback(func, context, task, Some(slot)))
    ensures Refused(subs, callbacks, topic, requested, func, context, task,
                    subs[slot := subs[slot].(qos := SlotQoS(subs, topic, slot, requested))])
  {
    hide Chosen, HasEntry, SlotQoS;
    ChosenIsUnique(subs, topic, slot);
  }

  predicate FirstMatch(subs: seq<Sub>, topic: string, i: nat) {
    i < |subs| && ExactlyMatches(subs[i], topic) && forall k :: 0 <= k < i ==> !ExactlyMatches(subs[k], topic)
  }

  predicate FirstFree(callbacks: seq<Callback>, entry: nat) {
    && entry < |callbacks| && !CallbackUsed(callbacks[entry])
    && forall i :: 0 <= i < entry ==> CallbackUsed(callbacks[i])
  }

  /** The slot that an unsubscribe removes from: the first with an equal filter and a
      reference count of zero. */
  predicate Target(subs: seq<Sub>, refCounts: seq<nat>, topic: string, i: nat) {
    && i < |subs| == |refCounts| && refCounts[i] == 0 && ExactlyMatches(subs[i], topic)
    && forall k :: 0 <= k < i ==> !(refCounts[k] == 0 && ExactlyMatches(subs[k], topic))
  }

  ghost predicate HasTarget(subs: seq<Sub>, refCounts: seq<nat>, topic: string) {
    exists i :: Target(subs, refCounts, topic, i)
  }

  /** What the search for the target has found when it stops at `slot` or at the end. */
  lemma TargetOr(subs: seq<Sub>, refCounts: seq<nat>, topic: string, slot: nat)
    requires slot <= |subs| == |refCounts|
    requires slot < |subs| ==> refCounts[slot] == 0 && ExactlyMatches(subs[slot], topic)
    requires forall k :: 0 <= k < slot ==> !(refCounts[k] == 0 && ExactlyMatches(subs[k], topic))
    ensures forall i :: Target(subs, refCounts, topic, i) <==> i == slot < |subs|
    ensures HasTarget(subs, refCounts, topic) <==> slot < |subs|
  {
    assert slot < |subs| ==> Target(subs, refCounts, topic, slot);
  }

  /** Counts are exact, a filter is NULL exactly when its length is 0, a free callback has
      no function, and callbacks point into the table. */
  ghost predicate Bookkeeping(subs: seq<Sub>, callbacks: seq<Callback>, subCount: nat, callbackCount: nat) {
    && subCount == Count(subs, SubUsed) && callbackCount == Count(callbacks, CallbackUsed)
    && SubsOk(subs) && FreeAreClear(callbacks) && RefsInTable(subs, callbacks)
  }

  lemma UseCallback(subs: seq<Sub>, callbacks: seq<Callback>, n: nat, m: nat, j: nat, c: Callback)
    requires Bookkeeping(subs, callbacks, n, m) && j < |callbacks| && !CallbackUsed(callbacks[j])
    requires c.sub.Some? && c.sub.value < |subs|
    ensures Bookkeeping(subs, callbacks[j := c], n, m + 1)
  {
    CountUpdate(callbacks, CallbackUsed, j, c);
  }

  lemma FreeCallback(subs: seq<Sub>, callbacks: seq<Callback>, n: nat, m: nat, j: nat)
    requires Bookkeeping(subs, callbacks, n, m) && j < |callbacks| && CallbackUsed(callbacks[j])
    ensures m > 0 && Bookkeeping(subs, callbacks[j := NO_CALLBACK], n, m - 1)
  {
    CountUpdate(callbacks, CallbackUsed, j, NO_CALLBACK);
  }

  lemma ChangeSub(subs: seq<Sub>, callbacks: seq<Callback>, n: nat, m: nat, i: nat, s: Sub)
    requires Bookkeeping(subs, callbacks, n, m) && i < |subs| && SubOk(s)
    ensures SubUsed(subs[i]) ==> n > 0
    ensures Bookkeeping(subs[i := s], callbacks, n - (if SubUsed(subs[i]) then 1 else 0) + (if SubUsed(s) then 1 else 0), m)
  {
    CountUpdate(subs, SubUsed, i, s);
    if SubUsed(subs[i]) {
      CountPositive(subs, SubUsed, i);
    }
  }

  lemma BookkeepingSub(subs: seq<Sub>, callbacks: seq<Callback>, n: nat, m: nat, i: nat)
    requires Bookkeeping(subs, callbacks, n, m) && i < |subs|
    ensures SubOk(subs[i]) && SubsOk(subs)
  {
  }

  lemma InTable(subs: seq<Sub>, callbacks: seq<Callback>, n: nat, m: nat, topic: string)
    requires Bookkeeping(subs, callbacks, n, m) && |topic| > 0
    ensures forall i :: 0 <= i < |subs| ==>
              && (PrefixMatches(subs[i], topic) <==> subs[i].filter.None? || subs[i].filter.value <= topic)
              && (ExactlyMatches(subs[i], topic) <==> subs[i].filter == Some(topic))
  {
    LookupsInTable(subs, topic);
  }

  lemma PackCallbacks(subs: seq<Sub>, was: seq<Callback>, now: seq<Callback>, n: nat, m: nat, count: nat)
    requires Bookkeeping(subs, was, n, m) && count <= |now| && now[..count] == Packed(was, CallbackUsed)
    requires (forall i :: count <= i < |now| ==> !CallbackUsed(now[i])) && FreeAreClear(now)
    ensures count == m && Bookkeeping(subs, now, n, count)
  {
    CountPackedTable(was, now, CallbackUsed, count);
    PackedMembers(was, CallbackUsed);
    forall j | 0 <= j < |now| && now[j].sub.Some?
      ensures now[j].sub.value < |subs|
    {
      assert now[j] == now[..count][j] && now[j] in was;
    }
  }

  lemma PackSubs(subs: seq<Sub>, callbacks: seq<Callback>, subs': seq<Sub>, callbacks': seq<Callback>, n: nat, m: nat, count: nat)
    requires Bookkeeping(subs, callbacks, n, m) && Compacted(subs, callbacks, subs', callbacks') && count == Rank(subs, |subs|)
    ensures count == n && Bookkeeping(subs', callbacks', count, m)
  {
    assert subs[..|subs|] == subs;
    CountPackedTable(subs, subs', SubUsed, count);
    SameUse(callbacks, callbacks');
    forall j | 0 <= j < |callbacks'| && callbacks'[j].sub.Some?
      ensures callbacks'[j].sub.value < |subs'|
    {
      assert callbacks'[j] == MovedCallback(subs, callbacks[j], |subs|);
      RankAtMost(subs, callbacks[j].sub.value);
    }
    assert forall j :: 0 <= j < |callbacks'| ==> callbacks'[j] == MovedCallback(subs, callbacks[j], |subs|);
  }

  lemma {:induction false} SameUse(a: seq<Callback>, b: seq<Callback>)
    requires |a| == |b| && forall j :: 0 <= j < |a| ==> CallbackUsed(a[j]) == CallbackUsed(b[j])
    ensures Count(a, CallbackUsed) == Count(b, CallbackUsed)
  {
    if a != [] {
      SameUse(a[..|a| - 1], b[..|b| - 1]);
    }
  }

  // ---------------------------------------------------------------------------
  // The lock regions as steps
  // ---------------------------------------------------------------------------

  /** A region with its arguments and what memory and broker answer. */
  datatype Step =
    | ResetStep
    | CompactStep
    | SubscribeStep(topic: string, requested: nat, func: nat, context: nat, task: nat, memory: bool)
    | FirstStep(topic: string)
    | SecondStep(topic: string, func: nat, context: nat, task: nat, before: Status, previous: nat)
    | AckStep(slot: nat, ack: Ack)
    | LostStep(width: nat)

  /** Arguments that get as far as the region. */
  predicate StepFits(step: Step, size: nat) {
    match step
    case SubscribeStep(topic, _, func, _, _, _) => 0 < |topic| < 0xffff && func != 0
    case FirstStep(topic) => 0 < |topic| < 0xffff
    case SecondStep(topic, func, _, _, _, _) => 0 < |topic| < 0xffff && func != 0
    case AckStep(slot, _) => slot < size
    case _ => true
  }

  datatype Tables = Tables(
    subs: seq<Sub>, callbacks: seq<Callback>, acks: seq<Ack>, refCounts: seq<nat>, subCount: nat, callbackCount: nat)

  /** The tables between the regions. */
  ghost predicate Kept(t: Tables, size: nat) {
    && |t.subs| == |t.callbacks| == |t.acks| == |t.refCounts| == size
    && Bookkeeping(t.subs, t.callbacks, t.subCount, t.callbackCount)
  }

  ghost predicate SameTables(t: Tables, u: Tables) {
    t.subs == u.subs && t.callbacks == u.callbacks
  }

  /** What one region does to the tables, and what it returns. */
  ghost predicate StepDoes(t: Tables, step: Step, u: Tables, status: Status)
    requires |t.subs| == |t.acks| == |t.refCounts|
  {
    match step
    case ResetStep =>
      && (forall s :: s in u.subs ==> s == NO_SUB) && (forall c :: c in u.callbacks ==> c == NO_CALLBACK)
      && (forall a :: a in u.acks ==> a == AckFailure) && forall r :: r in u.refCounts ==> r == 0
    case CompactStep =>
      Compacted(t.subs, t.callbacks, u.subs, u.callbacks) && u.acks == t.acks && u.refCounts == t.refCounts
    case SubscribeStep(topic, requested, func, context, task, memory) =>
      && (status == Success <==> Accepts(t.subs, t.acks, t.callbacks, topic, requested, func, context, task, memory))
      && (status == Success ==> Subscribed(t, topic, requested, func, context, task, u))
      && (status != Success ==> status == NoMemory && u.callbacks == t.callbacks && u.refCounts == t.refCounts)
      && (status != Success ==> Refused(t.subs, t.callbacks, topic, requested, func, context, task, u.subs))
      && u.acks == AcksAfter(t.subs, t.acks, topic, requested)
    case FirstStep(topic) =>
      && SameTables(t, u) && u.acks == t.acks
      && (status == Success <==> exists i :: 0 <= i < |t.subs| && ExactlyMatches(t.subs[i], topic))
      && (status == Success ==> exists i: nat :: FirstMatch(t.subs, topic, i) && Lowered(t.refCounts, i, u.refCounts))
      && (status != Success ==> u.refCounts == t.refCounts)
    case SecondStep(topic, func, context, task, before, previous) =>
      && (status == Success <==>
            exists i :: Target(t.subs, t.refCounts, topic, i) && Callback(func, context, task, Some(i)) in t.callbacks)
      && (status != Success ==> SameTables(t, u) && u.acks == t.acks)
      && (status == Success ==> Unsubscribed(t, topic, func, context, task, previous, u))
      && u.refCounts == t.refCounts
    case AckStep(slot, ack) =>
      SameTables(t, u) && u.refCounts == t.refCounts && (slot < |t.acks| ==> u.acks == t.acks[slot := ack])
    case LostStep(width) =>
      SameTables(t, u) && u.refCounts == t.refCounts && u.acks == seq(|t.acks|, _ => FilledAck(width))
  }

  predicate Lowered(before: seq<nat>, i: nat, after: seq<nat>) {
    i < |before| && after == before[i := if before[i] > 0 then before[i] - 1 else 0]
  }

  ghost predicate Subscribed(t: Tables, topic: string, requested: nat, func: nat, context: nat, task: nat, u: Tables)
    requires |t.subs| == |t.acks| == |t.refCounts|
  {
    exists slot: nat, entry: nat :: SubscribedAt(t, topic, requested, func, context, task, u, slot, entry)
  }

  ghost predicate SubscribedAt(
      t: Tables, topic: string, requested: nat, func: nat, context: nat, task: nat, u: Tables, slot: nat, entry: nat)
    requires |t.subs| == |t.acks| == |t.refCounts|
  {
    var wanted := Callback(func, context, task, Some(slot));
    && Chosen(t.subs, topic, slot) && entry < |t.callbacks|
    && u.subs == t.subs[slot := SlotAfter(t.subs, t.acks, topic, slot, requested)]
    && u.callbacks == t.callbacks[entry := wanted]
    && u.refCounts == if wanted in t.callbacks then t.refCounts else t.refCounts[slot := t.refCounts[slot] + 1]
  }

  ghost predicate Unsubscribed(t: Tables, topic: string, func: nat, context: nat, task: nat, previous: nat, u: Tables)
    requires |t.subs| == |t.acks| == |t.refCounts|
  {
    exists slot: nat, entry: nat :: UnsubscribedAt(t, topic, func, context, task, previous, u, slot, entry)
  }

  ghost predicate UnsubscribedAt(
      t: Tables, topic: string, func: nat, context: nat, task: nat, previous: nat, u: Tables, slot: nat, entry: nat)
    requires |t.subs| == |t.acks| == |t.refCounts|
  {
    && Target(t.subs, t.refCounts, topic, slot) && entry < |t.callbacks|
    && t.callbacks[entry] == Callback(func, context, task, Some(slot))
    && u.callbackCount <= |u.callbacks|
    && u.callbacks[..u.callbackCount] == Packed(t.callbacks[entry := NO_CALLBACK], CallbackUsed)
    && u.subs == (if previous == 1 then t.subs[slot := NO_SUB] else t.subs)
    && u.acks == (if previous == 1 then t.acks[slot := AckFailure] else t.acks)
  }

  class Manager {
    const subs: array<Sub>
    const callbacks: array<Callback>
    const acks: array<Ack>
    const refCounts: array<nat>
    var subCount: nat
    var callbackCount: nat

    ghost predicate Valid()
      reads this, subs, callbacks, acks, refCounts
    {
      && 0 < subs.Length == callbacks.Length == acks.Length == refCounts.Length
      && Bookkeeping(subs[..], callbacks[..], subCount, callbackCount)
    }

    /** prvSubscriptionManagerCtxInit */
    constructor (size: nat)
      requires size > 0
      ensures Valid() && subs.Length == size && fresh(subs) && fresh(callbacks) && fresh(acks) && fresh(refCounts)
    {
      subs := new Sub[size](_ => NO_SUB);
      callbacks := new Callback[size](_ => NO_CALLBACK);
      acks := new Ack[size](_ => AckFailure);
      refCounts := new nat[size](_ => 0);
      subCount, callbackCount := 0, 0;
      new;
      PackedNone(subs[..], SubUsed);
      PackedNone(callbacks[..], CallbackUsed);
    }

    /** prvSubscriptionManagerCtxReset */
    method Reset()
      requires Valid()
      modifies this, subs, callbacks, acks, refCounts
      ensures Valid() && subCount == 0 && callbackCount == 0
      ensures forall i :: 0 <= i < subs.Length ==> subs[i] == NO_SUB && acks[i] == AckFailure && refCounts[i] == 0
      ensures forall i :: 0 <= i < callbacks.Length ==> callbacks[i] == NO_CALLBACK
    {
      subCount, callbackCount := 0, 0;
      for i := 0 to subs.Length
        invariant subCount == callbackCount == 0
        invariant forall k :: 0 <= k < i ==> subs[k] == NO_SUB && acks[k] == AckFailure && refCounts[k] == 0
      {
        acks[i], refCounts[i], subs[i] := AckFailure, 0, NO_SUB;
      }
      for i := 0 to callbacks.Length
        invariant subCount == callbackCount == 0
        invariant forall k :: 0 <= k < subs.Length ==> subs[k] == NO_SUB && acks[k] == AckFailure && refCounts[k] == 0
        invariant forall k :: 0 <= k < i ==> callbacks[k] == NO_CALLBACK
      {
        callbacks[i] := NO_CALLBACK;
      }
      PackedNone(subs[..], SubUsed);
      PackedNone(callbacks[..], CallbackUsed);
    }

    /** The search of MqttAgent_SubscribeSync for a slot: the first empty one, or a later
        one whose stored filter is a prefix of the topic. A second empty slot counts as
        such a prefix. The check that an empty slot has length 0 never fails. */
    method FindSlot(topic: string, requested: nat) returns (found: bool, slot: nat, qos: nat)
      requires Valid()
      modifies acks
      ensures Valid()
      ensures found ==> Chosen(subs[..], topic, slot)
      ensures found ==> qos == SlotQoS(subs[..], topic, slot, requested)
      ensures found ==> acks[slot] == SlotAck(subs[..], old(acks[..]), topic, slot, requested)
      ensures !found ==> slot == subs.Length && forall i :: 0 <= i < subs.Length ==> SubUsed(subs[i]) && !PrefixMatches(subs[i], topic)
      ensures forall i :: 0 <= i < subs.Length ==> acks[i] == AckAfter(subs[..], old(acks[..]), topic, requested, i)
    {
      found, slot, qos := false, subs.Length, requested;
      for i := 0 to subs.Length
        invariant found <==> slot < subs.Length
        invariant found ==> slot < i && !SubUsed(subs[slot])
        invariant !found ==> slot == subs.Length
        invariant forall k :: 0 <= k < i && k != slot ==> SubUsed(subs[k]) && !PrefixMatches(subs[k], topic)
        invariant forall k :: 0 <= k < i && k != slot ==> !StopsAt(subs[..], topic, k)
        invariant found ==> !StopsAt(subs[..], topic, slot)
        invariant forall k :: 0 <= k < subs.Length && k != slot ==> acks[k] == old(acks[k])
        invariant qos == requested && (found ==> acks[slot] == AckFailure)
      {
        assert SubOk(subs[..][i]);
        if subs[i].filter.None? && slot == subs.Length {
          assert subs[i].length == 0;  // configASSERT, line 1437
          slot, found := i, true;
          acks[slot] := AckFailure;
        } else if PrefixMatches(subs[i], topic) {
          qos := NewQoS(subs[i].qos, requested);
          found, slot := true, i;
          if subs[i].qos != qos {
            acks[slot] := AckFailure;
          }
          return;
        }
      }
    }

    /** The search for a callback entry: one equal to `wanted`, or else the first free one. */
    method FindCallback(wanted: Callback) returns (found: bool, entry: nat)
      requires wanted.sub.Some?
      ensures found <==> entry < callbacks.Length
      ensures found ==> callbacks[entry] == wanted || !CallbackUsed(callbacks[entry])
      ensures !found ==> forall i :: 0 <= i < callbacks.Length ==> CallbackUsed(callbacks[i]) && callbacks[i] != wanted
      ensures found <==> HasEntry(callbacks[..], wanted)
      ensures found && !CallbackUsed(callbacks[entry]) ==> wanted !in callbacks[..]
      ensures found && !CallbackUsed(callbacks[entry]) ==> forall i :: 0 <= i < entry ==> CallbackUsed(callbacks[i])
    {
      found, entry := false, callbacks.Length;
      for i := 0 to callbacks.Length
        invariant found <==> entry < callbacks.Length
        invariant found ==> entry < i && !CallbackUsed(callbacks[entry])
        invariant found ==> forall k :: 0 <= k < entry ==> CallbackUsed(callbacks[k])
        invariant !found ==> entry == callbacks.Length && forall k :: 0 <= k < i ==> CallbackUsed(callbacks[k])
        invariant forall k :: 0 <= k < i ==> callbacks[k] != wanted
      {
        if entry == callbacks.Length && callbacks[i].sub.None? {
          entry, found := i, true;
        } else if callbacks[i] == wanted {
          entry, found := i, true;
          return;
        }
      }
    }

    /** Populating the chosen slot: an empty one gets a copy of the topic, if there is
        memory for it; the quality of service is set in any case. */
    method FillSlot(topic: string, slot: nat, qos: nat, memory: bool) returns (ok: bool)
      requires Valid() && slot < subs.Length && |topic| > 0
      modifies this`subCount, subs
      ensures Valid() && (ok <==> memory || old(SubUsed(subs[slot])))
      ensures var was := old(subs[slot]);
              subs[..] == old(subs[..])[slot := if ok && !SubUsed(was) then Sub(Some(topic), |topic|, qos) else was.(qos := qos)]
    {
      hide Bookkeeping;
      ok := true;
      ghost var before, count := subs[..], subCount;
      BookkeepingSub(before, callbacks[..], count, callbackCount, slot);
      if subs[slot].filter.None? {
        ok := memory;
        if ok {
          subs[slot] := Sub(Some(topic), |topic|, subs[slot].qos);
          subCount := subCount + 1;
        }
      }
      subs[slot] := subs[slot].(qos := qos);
      ChangeSub(before, callbacks[..], count, callbackCount, slot, subs[slot]);
      assert subs[..] == before[slot := subs[slot]];
    }

    /** The mutex region of MqttAgent_SubscribeSync. It is refused exactly if there is no slot,
        no callback entry or no memory for a copy that is needed. On success the callback is
        registered, on its own entry or on the first free one, and only the chosen slot may
        change. That slot stays empty exactly if it was empty and no copy was needed. */
    method SubscribeRegion(topic: string, requested: nat, func: nat, context: nat, task: nat, memory: bool)
      returns (status: Status, slot: nat, entry: nat)
      requires Valid() && 0 < |topic| < 0xffff && func != 0
      modifies this, subs, callbacks, acks, refCounts
      ensures Valid() && status in {Success, NoMemory}
      ensures status == Success <==>
              Accepts(old(subs[..]), old(acks[..]), old(callbacks[..]), topic, requested, func, context, task, memory)
      ensures status == Success ==> Chosen(old(subs[..]), topic, slot) && entry < callbacks.Length
      ensures status == Success ==> subs[..] == old(subs[..])[slot := SlotAfter(old(subs[..]), old(acks[..]), topic, slot, requested)]
      ensures status == Success ==> acks[slot] == SlotAck(old(subs[..]), old(acks[..]), topic, slot, requested)
      ensures status == Success ==> subs[slot].filter.None? || subs[slot].filter.value <= topic
      ensures status == Success && old(subs[slot]).filter.Some? ==>
                && subs[slot].filter == old(subs[slot]).filter
                && subs[slot].qos == if old(subs[slot]).qos == requested then requested else 1
      ensures status == Success ==>
                (SubUsed(subs[slot]) <==> old(SubUsed(subs[slot])) || NeedsCopy(old(subs[..]), old(acks[..]), topic, slot, requested))
      ensures forall i :: 0 <= i < subs.Length ==>
                acks[i] == AckAfter(old(subs[..]), old(acks[..]), topic, requested, i)
      ensures status == Success ==>
                var wanted := Callback(func, context, task, Some(slot));
                && callbacks[..] == old(callbacks[..])[entry := wanted]
                && (wanted in old(callbacks[..]) ==> old(callbacks[entry]) == wanted && refCounts[..] == old(refCounts[..]))
                && (wanted !in old(callbacks[..]) ==> FirstFree(old(callbacks[..]), entry))
                && (wanted !in old(callbacks[..]) ==> refCounts[..] == old(refCounts[..])[slot := old(refCounts[slot]) + 1])
      ensures status != Success ==> callbacks[..] == old(callbacks[..]) && refCounts[..] == old(refCounts[..])
      ensures status != Success ==>
                Refused(old(subs[..]), old(callbacks[..]), topic, requested, func, context, task, subs[..])
      ensures forall i :: 0 <= i < subs.Length && i != slot ==> subs[i] == old(subs[i])
    {
      hide Bookkeeping, Chosen, HasEntry, StopsAt, Refused;
      ghost var was, acked := subs[..], acks[..];
      status, entry := NoMemory, 0;
      var found, qos;
      found, slot, qos := FindSlot(topic, requested);
      if !found {
        NoneChosen(was, topic);
        RefusedWithoutPlace(was, callbacks[..], topic, requested, func, context, task);
        return;
      }
      ChosenIsUnique(was, topic, slot);
      var wanted := Callback(func, context, task, Some(slot));
      found, entry := FindCallback(wanted);
      if !found {
        RefusedWithoutPlace(was, callbacks[..], topic, requested, func, context, task);
        return;
      }
      status := Success;
      BookkeepingSub(was, callbacks[..], subCount, callbackCount, slot);
      SlotAfterIs(was, acked, topic, slot, requested);
      if acks[slot] == AckFailure {
        var stored := FillSlot(topic, slot, qos, memory);
        status := if stored then Success else NoMemory;
        RefusedWithoutMemory(was, callbacks[..], topic, requested, func, context, task, slot);
      }
      if status == Success {
        assert subs[..] == was[slot := SlotAfter(was, acked, topic, slot, requested)];
      }
      if status == Success && callbacks[entry].sub.None? {
        UseCallback(subs[..], callbacks[..], subCount, callbackCount, entry, wanted);
        callbacks[entry] := wanted;
        assert callbacks[..] == old(callbacks[..])[entry := wanted];
        refCounts[slot] := refCounts[slot] + 1;
        callbackCount := callbackCount + 1;
      }
    }

    /** First mutex region of MqttAgent_UnSubscribeSync: find the subscription and drop
        its reference count. */
    method UnsubscribeFirst(topic: string) returns (status: Status, previous: nat)
      requires Valid() && 0 < |topic| < 0xffff
      modifies refCounts
      ensures Valid()
      ensures status == Success <==> exists i :: 0 <= i < subs.Length && ExactlyMatches(subs[i], topic)
      ensures status == Success ==>
                exists i: nat ::
                  FirstMatch(subs[..], topic, i) && Lowered(old(refCounts[..]), i, refCounts[..]) && previous == old(refCounts[..])[i]
      ensures status == Success <==> exists i :: 0 <= i < subs.Length && subs[i].filter == Some(topic)
      ensures forall i :: 0 <= i < subs.Length && subs[i].filter != Some(topic) ==> refCounts[i] == old(refCounts[i])
      ensures status != Success ==> status == NoDataAvailable && previous == 0 && refCounts[..] == old(refCounts[..])
    {
      LookupsInTable(subs[..], topic);
      status, previous := NoDataAvailable, 0;
      for i := 0 to subs.Length
        invariant status == NoDataAvailable && previous == 0 && refCounts[..] == old(refCounts[..])
        invariant forall k :: 0 <= k < i ==> !ExactlyMatches(subs[k], topic)
      {
        if ExactlyMatches(subs[i], topic) {
          previous := refCounts[i];
          if previous > 0 {
            refCounts[i] := previous - 1;
          }
          status := Success;
          assert Lowered(old(refCounts[..]), i, refCounts[..]) && FirstMatch(subs[..], topic, i);
          return;
        }
      }
    }

    /** The loop of the second region that removes the caller's callback entry and compacts
        the table. The check on the callback count never fails. */
    method RemoveCallback(wanted: Callback) returns (removed: bool, entry: nat)
      requires Valid() && wanted.func != 0
      modifies this`callbackCount, callbacks
      ensures Valid() && (removed ==> wanted.sub.Some?)
      ensures removed <==> wanted in old(callbacks[..])
      ensures removed ==>
                && entry < callbacks.Length && old(callbacks[entry]) == wanted && wanted !in old(callbacks[..entry])
                && callbackCount <= callbacks.Length
                && callbacks[..callbackCount] == Packed(old(callbacks[..])[entry := NO_CALLBACK], CallbackUsed)
      ensures removed ==> callbackCount == old(callbackCount) - 1
      ensures !removed ==> callbacks[..] == old(callbacks[..]) && callbackCount == old(callbackCount)
    {
      removed, entry := false, 0;
      for j := 0 to callbacks.Length
        invariant !removed && callbacks[..] == old(callbacks[..]) && callbackCount == old(callbackCount)
        invariant wanted !in callbacks[..j]
      {
        if callbacks[j] == wanted {
          ghost var was := callbacks[..];
          assert was[j] == wanted && CallbackUsed(wanted) by { assert FreeAreClear(was); }
          FreeCallback(subs[..], was, subCount, callbackCount, j);
          removed, entry := true, j;
          callbacks[j] := NO_CALLBACK;
          ghost var cleared := callbacks[..];
          assert cleared == was[j := NO_CALLBACK];
          assert callbackCount > 0;  // configASSERT, line 1753
          callbackCount := callbackCount - 1;
          ghost var m := callbackCount;
          callbackCount := CompressCallbackList(callbacks);
          PackCallbacks(subs[..], cleared, callbacks[..], subCount, m, callbackCount);
          return;
        }
      }
    }

    /** Second mutex region of MqttAgent_UnSubscribeSync, for any status and reference
        count brought over from before. If no subscription is found the caller's entry is
        sought under a NULL subscription, where none can be, so the slot is only used when
        it is in range. */
    method UnsubscribeSecond(topic: string, func: nat, context: nat, task: nat, before: Status, previous: nat)
      returns (status: Status, slot: nat, entry: nat)
      requires Valid() && 0 < |topic| < 0xffff && func != 0
      modifies this, subs, callbacks, acks
      ensures Valid()
      ensures status == Success <==>
              exists i :: Target(old(subs[..]), refCounts[..], topic, i) && Callback(func, context, task, Some(i)) in old(callbacks[..])
      ensures status != Success ==>
                status == if before == Success || HasTarget(old(subs[..]), refCounts[..], topic) then NoDataAvailable else before
      ensures status == Success ==> Target(old(subs[..]), refCounts[..], topic, slot)
      ensures status == Success ==> old(subs[slot]).filter == Some(topic)
      ensures forall i :: 0 <= i < subs.Length && old(subs[i]).filter != Some(topic) ==> subs[i] == old(subs[i])
      ensures status == Success ==>
                && entry < callbacks.Length && old(callbacks[entry]) == Callback(func, context, task, Some(slot))
                && callbackCount == old(callbackCount) - 1 && callbackCount <= callbacks.Length
                && callbacks[..callbackCount] == Packed(old(callbacks[..])[entry := NO_CALLBACK], CallbackUsed)
      ensures status == Success && previous == 1 ==> subs[..] == old(subs[..])[slot := NO_SUB] && subCount == old(subCount) - 1
      ensures !(status == Success && previous == 1) ==> subs[..] == old(subs[..]) && subCount == old(subCount)
      ensures status != Success ==> callbacks[..] == old(callbacks[..]) && callbackCount == old(callbackCount)
      ensures acks[..] == if status == Success && previous == 1 then old(acks[..])[slot := AckFailure] else old(acks[..])
    {
      hide Bookkeeping, Target, HasTarget;
      ghost var table, counts := subs[..], refCounts[..];
      InTable(table, callbacks[..], subCount, callbackCount, topic);
      status, slot, entry := before, subs.Length, 0;
      for i := 0 to subs.Length
        invariant slot == subs.Length && status == before
        invariant forall k :: 0 <= k < i ==> !(refCounts[k] == 0 && ExactlyMatches(subs[k], topic))
      {
        if refCounts[i] == 0 && ExactlyMatches(subs[i], topic) {
          slot, status := i, Success;
          break;
        }
      }
      TargetOr(table, counts, topic, slot);
      assert refCounts[..] == counts;
      if status == Success {
        var wanted := Callback(func, context, task, if slot < subs.Length then Some(slot) else None);
        var removed;
        removed, entry := RemoveCallback(wanted);
        status := if removed then Success else NoDataAvailable;
        if status == Success && previous == 1 && refCounts[slot] == 0 {
          ghost var was := subs[..];
          ChangeSub(was, callbacks[..], subCount, callbackCount, slot, NO_SUB);
          subs[slot] := NO_SUB;
          assert subs[..] == was[slot := NO_SUB];
          acks[slot] := AckFailure;
          assert subCount > 0;  // configASSERT, line 1776
          subCount := subCount - 1;
        }
      }
    }

    /** The table part of prvHandleResubscribe. */
    method CompactSubscriptions()
      requires Valid()
      modifies this`subCount, subs, callbacks
      ensures Valid() && subCount == old(subCount) && callbackCount == old(callbackCount)
      ensures Compacted(old(subs[..]), old(callbacks[..]), subs[..], callbacks[..])
    {
      ghost var was, refs := subs[..], callbacks[..];
      subCount := CompressSubscriptionList(subs, callbacks);
      assert was[..|was|] == was;
      PackSubs(was, refs, subs[..], callbacks[..], old(subCount), callbackCount, subCount);
    }

    /** A subscribe that is accepted, followed by a publish: the new callback is among those
        invoked if the filter now in its slot matches the topic. That filter is the new topic
        when it was copied, and one that is a prefix of it when it was there before. */
    method SubscribeThenPublish(
        topic: string, requested: nat, func: nat, context: nat, task: nat, memory: bool, matches: string -> bool)
      returns (status: Status, slot: nat, invoked: seq<(nat, nat)>)
      requires Valid() && 0 < |topic| < 0xffff && func != 0
      modifies this, subs, callbacks, acks, refCounts
      ensures Valid() && (status == Success ==> slot < subs.Length)
      ensures status == Success <==>
              Accepts(old(subs[..]), old(acks[..]), old(callbacks[..]), topic, requested, func, context, task, memory)
      ensures status == Success ==>
                && (SubUsed(subs[slot]) <==> old(SubUsed(subs[slot])) || NeedsCopy(old(subs[..]), old(acks[..]), topic, slot, requested))
                && (SubUsed(subs[slot]) ==> PrefixMatches(subs[slot], topic))
                && (SubUsed(subs[slot]) && matches(subs[slot].filter.value) ==> (func, context) in invoked)
    {
      hide Accepts, Chosen;
      var entry;
      status, slot, entry := SubscribeRegion(topic, requested, func, context, task, memory);
      ghost var hits;
      invoked, hits := IncomingPublish(subs, callbacks, matches);
      if status == Success {
        ChosenPrefix(old(subs[..]), topic, slot);
        if SubUsed(subs[slot]) && matches(subs[slot].filter.value) {
          assert callbacks[..][entry] == Callback(func, context, task, Some(slot));
          assert SubOk(subs[..][slot]);
          DeliveredTo(subs[..], callbacks[..], entry, matches);
        }
      }
    }

    /** The acknowledgement array is also written outside the mutex. */
    method SetAck(i: nat, ack: Ack)
      requires Valid() && i < acks.Length
      modifies acks
      ensures Valid() && acks[..] == old(acks[..])[i := ack]
    {
      acks[i] := ack;
    }

    /** The reset of the acknowledgements after a lost connection: a memset with the failure
        code over entries of `width` bytes. */
    method ClearAcks(width: nat)
      requires Valid()
      modifies acks
      ensures Valid() && acks[..] == seq(acks.Length, _ => FilledAck(width))
    {
      forall i | 0 <= i < acks.Length {
        acks[i] := FilledAck(width);
      }
      assert subs[..] == old(subs[..]) && callbacks[..] == old(callbacks[..]);
    }

    ghost function Now(): Tables
      reads this, subs, callbacks, acks, refCounts
    {
      Tables(subs[..], callbacks[..], acks[..], refCounts[..], subCount, callbackCount)
    }

    /** One region. */
    method Do(step: Step) returns (status: Status)
      requires Valid() && StepFits(step, subs.Length)
      modifies this, subs, callbacks, acks, refCounts
      ensures Valid() && StepDoes(old(Now()), step, Now(), status)
    {
      hide Bookkeeping, Accepts, Target, Compacted, Refused;
      ghost var t := Now();
      status := Success;
      var slot, entry, previous;
      match step {
        case ResetStep => Reset();
        case CompactStep => CompactSubscriptions();
        case SubscribeStep(topic, requested, func, context, task, memory) =>
          status, slot, entry := SubscribeRegion(topic, requested, func, context, task, memory);
          if status == Success {
            assert SubscribedAt(t, topic, requested, func, context, task, Now(), slot, entry);
          }
        case FirstStep(topic) => status, previous := UnsubscribeFirst(topic);
        case SecondStep(topic, func, context, task, before, previous) =>
          status, slot, entry := UnsubscribeSecond(topic, func, context, task, before, previous);
          if status == Success {
            assert UnsubscribedAt(t, topic, func, context, task, previous, Now(), slot, entry);
          }
        case AckStep(i, ack) => SetAck(i, ack);
        case LostStep(width) => ClearAcks(width);
      }
    }

    /** Any interleaving of the regions, with any arguments: each does what it should on the
        tables that the ones before it left, and the bookkeeping holds at every point where
        the mutex is free, so no region ever fails one of its checks. */
    method AnyInterleaving(steps: seq<Step>) returns (results: seq<Status>, ghost history: seq<Tables>)
      requires Valid() && forall i :: 0 <= i < |steps| ==> StepFits(steps[i], subs.Length)
      modifies this, subs, callbacks, acks, refCounts
      ensures |results| == |steps| && |history| == |steps| + 1
      ensures history[0] == old(Now()) && history[|steps|] == Now()
      ensures forall i :: 0 <= i <= |steps| ==> Kept(history[i], subs.Length)
      ensures forall i :: 0 <= i < |steps| ==>
                Kept(history[i], subs.Length) && StepDoes(history[i], steps[i], history[i + 1], results[i])
    {
      hide Bookkeeping, StepDoes, StepFits;
      results, history := [], [Now()];
      for n := 0 to |steps|
        invariant Valid() && |results| == n && |history| == n + 1 && history[0] == old(Now()) && history[n] == Now()
        invariant forall i :: 0 <= i <= n ==> Kept(history[i], subs.Length)
        invariant forall i :: 0 <= i < n ==>
                    Kept(history[i], subs.Length) && StepDoes(history[i], steps[i], history[i + 1], results[i])
      {
        var status := Do(steps[n]);
        results, history := results + [status], history + [Now()];
      }
    }
  }

  // ---------------------------------------------------------------------------
  // A run that leaves callbacks on empty slots
  // ---------------------------------------------------------------------------

  /** While slot 0 is free, the search passes over it to the next free or matching slot. */
  lemma ChosenAt(subs: seq<Sub>, topic: string, i: nat)
    requires 0 < i < |subs| && !SubUsed(subs[0]) && PrefixMatches(subs[i], topic)
    requires forall k :: 0 < k < i ==> SubUsed(subs[k]) && !PrefixMatches(subs[k], topic)
    ensures Chosen(subs, topic, i) && StopsAt(subs, topic, i)
  {
  }

  /** The callback that task `task` registers in the run below. */
  function CallbackOf(task: nat, slot: nat): Callback {
    Callback(1, 0, task, Some(slot))
  }

  /** Slot 0 is free, no subscription is acknowledged, and the first `n` callback entries are
      the used ones. */
  ghost predicate Early(m: Manager, n: nat)
    reads m, m.subs, m.callbacks, m.acks, m.refCounts
  {
    && m.Valid() && m.subs.Length >= 4 && m.subs[0] == NO_SUB && n <= m.callbacks.Length
    && (forall i :: 0 <= i < m.acks.Length ==> m.acks[i] == AckFailure)
    && (forall i :: 0 <= i < n ==> CallbackUsed(m.callbacks[i]))
    && (forall i :: n <= i < m.callbacks.Length ==> !CallbackUsed(m.callbacks[i]))
  }

  /** One more task subscribes at quality of service 0. */
  method Join(m: Manager, n: nat, topic: string, task: nat, ghost slot: nat)
    requires Early(m, n) && n < m.callbacks.Length && 0 < |topic| < 0xffff && 0 < slot < m.subs.Length
    requires Chosen(m.subs[..], topic, slot) && StopsAt(m.subs[..], topic, slot) && m.subs[slot].qos == 0
    requires CallbackOf(task, slot) !in m.callbacks[..]
    modifies m, m.subs, m.callbacks, m.acks, m.refCounts
    ensures Early(m, n + 1)
    ensures m.callbacks[..] == old(m.callbacks[..])[n := CallbackOf(task, slot)]
    ensures m.subs[..] == old(m.subs[..])[slot := if old(SubUsed(m.subs[slot])) then old(m.subs[slot]) else Sub(Some(topic), |topic|, 0)]
    ensures m.refCounts[..] == old(m.refCounts[..])[slot := old(m.refCounts[slot]) + 1]
  {
    hide Chosen, StopsAt, Bookkeeping;
    ghost var was, cbs := m.subs[..], m.callbacks[..];
    assert forall i :: 0 <= i < |cbs| ==> (CallbackUsed(cbs[i]) <==> i < n);
    assert HasEntry(cbs, CallbackOf(task, slot)) by { assert !CallbackUsed(cbs[n]); }
    assert Accepts(was, m.acks[..], m.callbacks[..], topic, 0, 1, 0, task, true);
    var status, at, entry := m.SubscribeRegion(topic, 0, 1, 0, task, true);
    ChosenIsUnique(was, topic, slot);
    assert at == slot;
    assert FirstFree(cbs, entry) && !CallbackUsed(cbs[n]);
    assert entry == n;
    assert m.subs[..][0] == was[0];
    assert forall i :: 0 <= i < m.callbacks.Length ==> m.callbacks[i] == m.callbacks[..][i];
  }

  /** A subscription to a one-letter topic at quality of service 0. */
  function Letter(c: char): Sub {
    Sub(Some([c]), 1, 0)
  }

  lemma LettersDiffer(c: char, d: char)
    ensures SubUsed(Letter(c)) && (PrefixMatches(Letter(c), [d]) <==> c == d)
    ensures ExactlyMatches(Letter(c), [d]) <==> c == d
  {
    assert [c][..1] == [c] && [d][..1] == [d];
  }

  /** Tasks 1 and 2 subscribe to "b". */
  method TwoJoin(size: nat) returns (m: Manager)
    requires size >= 4
    ensures fresh(m) && fresh(m.subs) && fresh(m.callbacks) && fresh(m.acks) && fresh(m.refCounts)
    ensures Early(m, 2) && m.subs.Length == size && m.refCounts[1] == 2
    ensures m.subs[1] == Letter('b') && forall i :: 2 <= i < size ==> m.subs[i] == NO_SUB
    ensures m.callbacks[0] == CallbackOf(1, 1) && m.callbacks[1] == CallbackOf(2, 1)
  {
    hide Chosen, StopsAt, Bookkeeping, PrefixMatches;
    m := new Manager(size);
    m.Reset();
    EmptyMatches(NO_SUB, ['b']);
    ChosenAt(m.subs[..], ['b'], 1);
    Join(m, 0, ['b'], 1, 1);
    LettersDiffer('b', 'b');
    assert m.subs[..][1] == Letter('b');
    ChosenAt(m.subs[..], ['b'], 1);
    ghost var cbs := m.callbacks[..];
    Join(m, 1, ['b'], 2, 1);
    assert m.callbacks[..][0] == cbs[0];
  }

  lemma EmptyMatches(s: Sub, topic: string)
    requires !SubUsed(s)
    ensures PrefixMatches(s, topic)
  {
  }

  /** Then task 3 subscribes to "c" and task 4 to "d". */
  method FourJoin(size: nat) returns (m: Manager)
    requires size >= 4
    ensures fresh(m) && fresh(m.subs) && fresh(m.callbacks) && fresh(m.acks) && fresh(m.refCounts)
    ensures Early(m, 4) && m.subs.Length == size && m.refCounts[1] == 2
    ensures m.subs[1] == Letter('b') && m.subs[2] == Letter('c') && m.subs[3] == Letter('d')
    ensures forall i :: 4 <= i < size ==> m.subs[i] == NO_SUB
    ensures m.callbacks[0] == CallbackOf(1, 1) && m.callbacks[1] == CallbackOf(2, 1)
  {
    hide Chosen, StopsAt, Bookkeeping, PrefixMatches;
    m := TwoJoin(size);
    ghost var subs, cbs, refs := m.subs[..], m.callbacks[..], m.refCounts[..];
    LettersDiffer('b', 'c');
    LettersDiffer('b', 'd');
    LettersDiffer('c', 'd');
    EmptyMatches(NO_SUB, ['c']);
    EmptyMatches(NO_SUB, ['d']);
    ChosenAt(subs, ['c'], 2);
    Join(m, 2, ['c'], 3, 2);
    assert m.subs[..] == subs[2 := Letter('c')] && m.callbacks[..] == cbs[2 := CallbackOf(3, 2)];
    ChosenAt(m.subs[..], ['d'], 3);
    Join(m, 3, ['d'], 4, 3);
    assert m.subs[..] == subs[2 := Letter('c')][3 := Letter('d')];
    assert forall i :: 4 <= i < size ==> m.subs[..][i] == subs[i];
    assert m.callbacks[..] == cbs[2 := CallbackOf(3, 2)][3 := CallbackOf(4, 3)];
    assert m.refCounts[..][1] == refs[1] == 2;
  }

  lemma {:induction false} PackedKeeps<T>(s: seq<T>, used: T -> bool, x: T)
    requires x in s && used(x)
    ensures x in Packed(s, used)
  {
    var n := |s| - 1;
    if s[n] != x {
      assert x in s[..n];
      PackedKeeps(s[..n], used, x);
    }
  }

  /** Only slot 1 can be meant by "b". */
  ghost predicate OnlyB(subs: seq<Sub>) {
    && |subs| >= 4 && subs[0] == NO_SUB && subs[1] == Letter('b') && subs[2] == Letter('c') && subs[3] == Letter('d')
    && forall i :: 4 <= i < |subs| ==> subs[i] == NO_SUB
  }

  lemma OnlyBMatches(subs: seq<Sub>, i: nat)
    requires OnlyB(subs) && i < |subs|
    ensures ExactlyMatches(subs[i], ['b']) <==> i == 1
  {
    LettersDiffer('b', 'b');
    LettersDiffer('c', 'b');
    LettersDiffer('d', 'b');
  }

  lemma OnlyBTarget(subs: seq<Sub>, refCounts: seq<nat>)
    requires OnlyB(subs) && |refCounts| == |subs|
    ensures forall i :: Target(subs, refCounts, ['b'], i) <==> i == 1 && refCounts[1] == 0
    ensures forall i :: FirstMatch(subs, ['b'], i) <==> i == 1
  {
    hide ExactlyMatches;
    forall i: nat | i < |subs|
      ensures ExactlyMatches(subs[i], ['b']) <==> i == 1
    {
      OnlyBMatches(subs, i);
    }
  }

  /** A task unsubscribes from "b", through both regions. */
  method Leave(m: Manager, task: nat) returns (status: Status)
    requires m.Valid() && OnlyB(m.subs[..]) && m.refCounts[1] > 0 && CallbackOf(task, 1) in m.callbacks[..]
    modifies m, m.subs, m.callbacks, m.acks, m.refCounts
    ensures m.Valid() && m.refCounts[1] == old(m.refCounts[1]) - 1
    ensures old(m.refCounts[1]) > 1 ==>
              && status == NoDataAvailable && m.subs[..] == old(m.subs[..]) && m.callbacks[..] == old(m.callbacks[..])
              && m.callbackCount == old(m.callbackCount)
    ensures old(m.refCounts[1]) == 1 ==>
              && status == Success && m.subs[..] == old(m.subs[..])[1 := NO_SUB]
              && m.callbackCount == old(m.callbackCount) - 1
              && forall c :: c in old(m.callbacks[..]) && CallbackUsed(c) && c != CallbackOf(task, 1) ==> c in m.callbacks[..]
  {
    hide Bookkeeping, Target, FirstMatch, ExactlyMatches;
    ghost var subs, cbs := m.subs[..], m.callbacks[..];
    OnlyBTarget(subs, m.refCounts[..]);
    OnlyBMatches(subs, 1);
    var first, previous := m.UnsubscribeFirst(['b']);
    OnlyBTarget(subs, m.refCounts[..]);
    var slot, entry;
    status, slot, entry := m.UnsubscribeSecond(['b'], 1, 0, task, first, previous);
    if status == Success {
      forall c | c in cbs && CallbackUsed(c) && c != CallbackOf(task, 1)
        ensures c in m.callbacks[..]
      {
        var j :| 0 <= j < |cbs| && cbs[j] == c;
        assert cbs[entry := NO_CALLBACK][j] == c;
        PackedKeeps(cbs[entry := NO_CALLBACK], CallbackUsed, c);
        assert m.callbacks[..m.callbackCount] <= m.callbacks[..];
      }
    }
  }

  /** Two tasks subscribe to one filter and unsubscribe again. The first to leave is told that
      there was nothing to remove and its entry stays; the second clears the slot. So a
      callback dangles, and the next compaction delivers to it what it never asked for. */
  method DanglingRun(size: nat) returns (m: Manager, first: Status, second: Status)
    requires size >= 4
    ensures fresh(m) && fresh(m.subs) && fresh(m.callbacks) && fresh(m.acks) && fresh(m.refCounts)
    ensures m.Valid() && m.subs.Length == size && first == NoDataAvailable && second == Success
    ensures m.subs[0] == m.subs[1] == NO_SUB && m.callbackCount < size
    ensures CallbackOf(1, 1) in m.callbacks[..] && Dangles(m.subs[..], CallbackOf(1, 1))
  {
    hide Bookkeeping, Rank, Dangles;
    m := FourJoin(size);
    ghost var subs := m.subs[..];
    assert m.callbacks[..][0] == CallbackOf(1, 1) && m.callbacks[..][1] == CallbackOf(2, 1);
    CountWithin(m);
    first := Leave(m, 1);
    second := Leave(m, 2);
    assert m.subs[..][0] == NO_SUB && m.subs[..][1] == NO_SUB;
    DanglesAtOne(m.subs[..]);
  }

  lemma CountWithin(m: Manager)
    requires m.Valid()
    ensures m.callbackCount <= m.callbacks.Length
  {
    PackedLength(m.callbacks[..], CallbackUsed);
  }

  lemma DanglesAtOne(subs: seq<Sub>)
    requires |subs| >= 4 && !SubUsed(subs[1]) && SubUsed(subs[2]) && SubUsed(subs[3])
    ensures Dangles(subs, CallbackOf(1, 1))
  {
    PackedAt(subs, |subs|, 3);
    PackedAt(subs, 3, 2);
  }

  /** The compaction after that run changes what a publish invokes, for some topic. */
  method MisdeliveringRun(size: nat) returns (m: Manager, ghost subs: seq<Sub>, ghost callbacks: seq<Callback>)
    requires size >= 4
    ensures fresh(m) && m.Valid() && Compacted(subs, callbacks, m.subs[..], m.callbacks[..])
    ensures !DeliveryKept(subs, callbacks, m.subs[..], m.callbacks[..])
  {
    hide Bookkeeping, Dangles, DeliveryKept, Compacted;
    var first, second;
    m, first, second := DanglingRun(size);
    subs, callbacks := m.subs[..], m.callbacks[..];
    m.CompactSubscriptions();
    SubCompactionKeepsDelivery(subs, callbacks, m.subs[..], m.callbacks[..]);
  }

  /** Four tasks subscribe, and task 2 gets its acknowledgement while task 1 still waits for
      its own. Task 2 unsubscribes twice: the first time it is told that there was nothing to
      remove, the second time it clears the slot. Then the acknowledgement for task 1 arrives,
      and a fifth task subscribes, without any memory: it is told that it succeeded, though its
      slot is empty and holds no filter. */
  method EmptySlotRun(size: nat, topic: string) returns (first: Status, second: Status, status: Status, used: bool)
    requires size >= 4 && 0 < |topic| < 0xffff
    ensures first == NoDataAvailable && second == Success && status == Success && !used
  {
    hide Bookkeeping, Chosen, StopsAt, HasEntry;
    var m := FourJoin(size);
    assert m.callbacks[..][1] == CallbackOf(2, 1);
    CountWithin(m);
    m.SetAck(1, AckQoS(0));
    first := Leave(m, 2);
    second := Leave(m, 2);
    m.SetAck(1, AckQoS(0));
    ghost var subs := m.subs[..];
    assert subs[0] == NO_SUB && subs[1] == NO_SUB;
    EmptyMatches(subs[1], topic);
    ChosenAt(subs, topic, 1);
    FreeEntry(m, Callback(1, 0, 5, Some(1)));
    assert Accepts(subs, m.acks[..], m.callbacks[..], topic, 0, 1, 0, 5, false);
    var slot, entry;
    status, slot, entry := m.SubscribeRegion(topic, 0, 1, 0, 5, false);
    ChosenIsUnique(subs, topic, 1);
    used := m.subs[slot].length != 0;
  }

  lemma FreeEntry(m: Manager, wanted: Callback)
    requires m.Valid() && m.callbackCount < m.callbacks.Length
    ensures HasEntry(m.callbacks[..], wanted)
  {
    if forall i :: 0 <= i < m.callbacks.Length ==> CallbackUsed(m.callbacks[i]) {
      PackedAll(m.callbacks[..], CallbackUsed);
    } else {
      var i :| 0 <= i < m.callbacks.Length && !CallbackUsed(m.callbacks[i]);
      assert !CallbackUsed(m.callbacks[..][i]);
    }
  }

  /** After any lost connection, with no special schedule: a subscribe that stops at an empty
      slot and does not change its quality of service gets a filter there if and only if an
      acknowledgement is one byte wide. Otherwise it succeeds, even without memory, and leaves
      the slot empty. */
  method ReconnectThenSubscribe(
      m: Manager, width: nat, topic: string, requested: nat, func: nat, context: nat, task: nat, memory: bool, ghost slot: nat)
    returns (status: Status)
    requires m.Valid() && 0 < |topic| < 0xffff && func != 0
    requires Chosen(m.subs[..], topic, slot) && StopsAt(m.subs[..], topic, slot) && !SubUsed(m.subs[slot])
    requires NewQoS(m.subs[slot].qos, requested) == m.subs[slot].qos
    requires HasEntry(m.callbacks[..], Callback(func, context, task, Some(slot)))
    modifies m, m.subs, m.callbacks, m.acks, m.refCounts
    ensures m.Valid() && (status == Success <==> width != 1 || memory)
    ensures status == Success ==> Callback(func, context, task, Some(slot)) in m.callbacks[..]
    ensures status == Success ==> (SubUsed(m.subs[slot]) <==> width == 1)
  {
    hide Bookkeeping, Chosen, StopsAt, HasEntry;
    ghost var subs := m.subs[..];
    FilledIsFailure(width);
    ChosenIsUnique(subs, topic, slot);
    m.ClearAcks(width);
    assert m.acks[..][slot] == FilledAck(width);
    assert NeedsCopy(subs, m.acks[..], topic, slot, requested) <==> width == 1;
    assert Accepts(subs, m.acks[..], m.callbacks[..], topic, requested, func, context, task, memory) <==> width != 1 || memory;
    var at, entry;
    status, at, entry := m.SubscribeRegion(topic, requested, func, context, task, memory);
    if status == Success {
      assert m.callbacks[..][entry] == Callback(func, context, task, Some(slot));
    }
  }
}
