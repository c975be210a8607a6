/** The subscription and callback tables of the MQTT agent: the two in-place compactions
    and the fan-out of an incoming publish. */
module MqttTables {
  import opened Basics

  /** MQTTSubscribeInfo_t: `filter` is the string behind pTopicFilter, None for NULL. */
  datatype Sub = Sub(filter: Option<string>, length: nat, qos: nat)

  /** SubCallbackElement_t: `sub` is the slot that pxSubInfo points to, None for NULL;
      function, context and task are handles, 0 for NULL. */
  datatype Callback = Callback(func: nat, context: nat, task: nat, sub: Option<nat>)

  const NO_SUB := Sub(None, 0, 0)
  const NO_CALLBACK := Callback(0, 0, 0, None)

  /** The filter is NULL exactly when its length is 0, and else as long as its length says. */
  predicate SubOk(s: Sub) {
    (s.filter.None? <==> s.length == 0) && (s.filter.Some? ==> |s.filter.value| == s.length)
  }

  predicate SubUsed(s: Sub) {
    s.length != 0
  }

  /** A free callback entry has a NULL function pointer. */
  predicate FreeAreClear(callbacks: seq<Callback>) {
    forall i :: 0 <= i < |callbacks| && !CallbackUsed(callbacks[i]) ==> callbacks[i].func == 0
  }

  predicate CallbackUsed(c: Callback) {
    c.sub.Some?
  }

  // ---------------------------------------------------------------------------
  // Stable filtering
  // ---------------------------------------------------------------------------

  /** The used entries of a table, in order. */
  function Packed<T>(s: seq<T>, used: T -> bool): seq<T> {
    if s == [] then []
    else
      var last := s[|s| - 1];
      Packed(s[..|s| - 1], used) + if used(last) then [last] else []
  }

  lemma {:induction false} PackedAppend<T>(s: seq<T>, t: seq<T>, used: T -> bool)
    ensures Packed(s + t, used) == Packed(s, used) + Packed(t, used)
  {
    if t == [] {
      assert s + t == s;
    } else {
      assert (s + t)[..|s + t| - 1] == s + t[..|t| - 1];
      PackedAppend(s, t[..|t| - 1], used);
    }
  }

  lemma {:induction false} PackedLength<T>(s: seq<T>, used: T -> bool)
    ensures |Packed(s, used)| <= |s|
    ensures forall x :: x in Packed(s, used) ==> used(x)
  {
    if s != [] {
      PackedLength(s[..|s| - 1], used);
    }
  }

  lemma {:induction false} PackedNone<T>(s: seq<T>, used: T -> bool)
    requires forall i :: 0 <= i < |s| ==> !used(s[i])
    ensures Packed(s, used) == []
  {
    if s != [] {
      PackedNone(s[..|s| - 1], used);
    }
  }

  lemma {:induction false} PackedAll<T>(s: seq<T>, used: T -> bool)
    requires forall i :: 0 <= i < |s| ==> used(s[i])
    ensures Packed(s, used) == s
  {
    if s != [] {
      PackedAll(s[..|s| - 1], used);
      assert s == s[..|s| - 1] + [s[|s| - 1]];
    }
  }

  /** The prefix up to `g` is packed into the first `count` slots; the rest is as before. */
  ghost predicate PackedUpTo<T>(now: seq<T>, was: seq<T>, used: T -> bool, g: nat, count: nat) {
    && |now| == |was| && count <= g <= |was|
    && now[..count] == Packed(was[..g], used)
    && (forall i :: count <= i < g ==> !used(now[i]))
    && now[g..] == was[g..]
  }

  lemma PackedStep<T>(was: seq<T>, used: T -> bool, g: nat)
    requires g < |was|
    ensures Packed(was[..g + 1], used) == Packed(was[..g], used) + if used(was[g]) then [was[g]] else []
  {
    assert was[..g + 1][..g] == was[..g];
  }

  /** The next entry is unused: nothing moves. */
  lemma SkipStep<T>(now: seq<T>, was: seq<T>, used: T -> bool, g: nat, count: nat)
    requires PackedUpTo(now, was, used, g, count) && g < |was| && !used(now[g])
    ensures PackedUpTo(now, was, used, g + 1, count)
  {
    PackedStep(was, used, g);
    assert now[g] == now[g..][0] == was[g];
    assert now[g + 1..] == now[g..][1..] == was[g + 1..];
  }

  /** The next entry is used and already in place. */
  lemma StayStep<T>(now: seq<T>, was: seq<T>, used: T -> bool, g: nat)
    requires PackedUpTo(now, was, used, g, g) && g < |was| && used(now[g])
    ensures PackedUpTo(now, was, used, g + 1, g + 1)
  {
    PackedStep(was, used, g);
    assert now[g] == now[g..][0] == was[g];
    assert now[g + 1..] == now[g..][1..] == was[g + 1..];
    assert now[..g + 1] == now[..g] + [now[g]];
  }

  /** The next entry is used and moves down to the first free slot. */
  lemma MoveStep<T>(now: seq<T>, was: seq<T>, used: T -> bool, g: nat, count: nat, blank: T)
    requires PackedUpTo(now, was, used, g, count) && count < g < |was| && used(now[g]) && !used(blank)
    ensures PackedUpTo(now[count := now[g]][g := blank], was, used, g + 1, count + 1)
  {
    var next := now[count := now[g]][g := blank];
    PackedStep(was, used, g);
    assert now[g] == now[g..][0] == was[g];
    assert next[g + 1..] == now[g..][1..] == was[g + 1..];
    assert next[..count + 1] == now[..count] + [now[g]];
  }

  lemma PackedStart<T>(was: seq<T>, used: T -> bool)
    ensures PackedUpTo(was, was, used, 0, 0)
  {
  }

  lemma PackedDone<T>(now: seq<T>, was: seq<T>, used: T -> bool, count: nat)
    requires PackedUpTo(now, was, used, |was|, count)
    ensures |now| == |was| && count == |Packed(was, used)| <= |now| && now[..count] == Packed(was, used)
    ensures forall i :: count <= i < |now| ==> !used(now[i])
  {
    assert was[..|was|] == was;
  }

  lemma InGap<T>(now: seq<T>, was: seq<T>, used: T -> bool, g: nat, count: nat, x: nat)
    requires PackedUpTo(now, was, used, g, count) && count <= x < g
    ensures x < |now| && !used(now[x])
  {
  }

  lemma MoveKeepsClear(now: seq<Callback>, g: nat, x: nat)
    requires x < |now| && g < |now| && CallbackUsed(now[g]) && x != g
    ensures FreeAreClear(now) ==> FreeAreClear(now[x := now[g]][g := NO_CALLBACK])
  {
  }

  /** prvCompressCallbackList: the used entries in order, then free ones, and their count. */
  method CompressCallbackList(callbacks: array<Callback>) returns (count: nat)
    modifies callbacks
    ensures count == |Packed(old(callbacks[..]), CallbackUsed)| <= callbacks.Length
    ensures callbacks[..count] == Packed(old(callbacks[..]), CallbackUsed)
    ensures forall i :: count <= i < callbacks.Length ==> !CallbackUsed(callbacks[i])
    ensures old(FreeAreClear(callbacks[..])) ==> FreeAreClear(callbacks[..])
  {
    hide PackedUpTo, Packed, FreeAreClear;
    ghost var was := callbacks[..];
    var last := 0;
    count := 0;
    PackedStart(was, CallbackUsed);
    for x := 0 to callbacks.Length
      invariant last <= callbacks.Length && count <= x
      invariant last == 0 ==> count == x && PackedUpTo(callbacks[..], was, CallbackUsed, x, x)
      invariant last != 0 ==> x <= last && PackedUpTo(callbacks[..], was, CallbackUsed, last, count)
      invariant 0 != last < callbacks.Length ==> x < last && count == x
      invariant FreeAreClear(was) ==> FreeAreClear(callbacks[..])
    {
      if callbacks[x].sub.None? && last < callbacks.Length {
        if last <= x {
          SkipStep(callbacks[..], was, CallbackUsed, x, count);
          last := x + 1;
        }
        while last < callbacks.Length
          invariant x < last <= callbacks.Length && count == x
          invariant PackedUpTo(callbacks[..], was, CallbackUsed, last, count)
          invariant FreeAreClear(was) ==> FreeAreClear(callbacks[..])
        {
          ghost var now := callbacks[..];
          if callbacks[last].sub.Some? {
            MoveStep(now, was, CallbackUsed, last, count, NO_CALLBACK);
            MoveKeepsClear(now, last, x);
            callbacks[x] := callbacks[last];
            callbacks[last] := NO_CALLBACK;
            assert callbacks[..] == now[x := now[last]][last := NO_CALLBACK];
            count := count + 1;
            last := last + 1;
            break;
          }
          SkipStep(now, was, CallbackUsed, last, count);
          last := last + 1;
        }
      } else if callbacks[x].sub.Some? {
        if last != 0 {
          InGap(callbacks[..], was, CallbackUsed, last, count, x);
        }
        StayStep(callbacks[..], was, CallbackUsed, x);
        count := count + 1;
      }
    }
    PackedDone(callbacks[..], was, CallbackUsed, count);
  }

  // ---------------------------------------------------------------------------
  // Moving the subscriptions that callbacks point to
  // ---------------------------------------------------------------------------

  /** The number of used slots before slot `i`: where compaction puts a used slot. */
  function Rank(subs: seq<Sub>, i: nat): nat
    requires i <= |subs|
  {
    |Packed(subs[..i], SubUsed)|
  }

  /** Where a reference points once the slots before `g` have been packed. A reference to
      a used slot follows it; one to an empty slot stays. */
  function MovedRef(subs: seq<Sub>, ref: Option<nat>, g: nat): Option<nat> {
    if ref.Some? && ref.value < g && ref.value < |subs| && SubUsed(subs[ref.value])
    then Some(Rank(subs, ref.value)) else ref
  }

  function MovedCallback(subs: seq<Sub>, c: Callback, g: nat): Callback {
    c.(sub := MovedRef(subs, c.sub, g))
  }

  ghost predicate RefsUpTo(now: seq<Callback>, was: seq<Callback>, subs: seq<Sub>, g: nat) {
    |now| == |was| && forall j :: 0 <= j < |now| ==> now[j] == MovedCallback(subs, was[j], g)
  }

  function Redirect(c: Callback, from: nat, to: nat): Callback {
    if c.sub == Some(from) then c.(sub := Some(to)) else c
  }

  /** prvUpdateCallbackRefs */
  method UpdateCallbackRefs(callbacks: array<Callback>, from: nat, to: nat)
    modifies callbacks
    ensures forall j :: 0 <= j < callbacks.Length ==> callbacks[j] == Redirect(old(callbacks[j]), from, to)
  {
    for j := 0 to callbacks.Length
      invariant forall i :: 0 <= i < j ==> callbacks[i] == Redirect(old(callbacks[i]), from, to)
      invariant forall i :: j <= i < callbacks.Length ==> callbacks[i] == old(callbacks[i])
    {
      if callbacks[j].sub == Some(from) {
        callbacks[j] := callbacks[j].(sub := Some(to));
      }
    }
  }

  lemma RankAtMost(subs: seq<Sub>, i: nat)
    requires i <= |subs|
    ensures Rank(subs, i) <= i
  {
    PackedLength(subs[..i], SubUsed);
  }

  lemma RefsSkip(now: seq<Callback>, was: seq<Callback>, subs: seq<Sub>, g: nat)
    requires RefsUpTo(now, was, subs, g) && g < |subs|
    requires !SubUsed(subs[g]) || Rank(subs, g) == g
    ensures RefsUpTo(now, was, subs, g + 1)
  {
    hide Rank;
  }

  lemma RefsMove(now: seq<Callback>, next: seq<Callback>, was: seq<Callback>, subs: seq<Sub>, g: nat, x: nat)
    requires RefsUpTo(now, was, subs, g) && g < |subs| && SubUsed(subs[g]) && x == Rank(subs, g)
    requires |next| == |now| && forall j :: 0 <= j < |now| ==> next[j] == Redirect(now[j], g, x)
    ensures RefsUpTo(next, was, subs, g + 1)
  {
    hide Rank;
    forall j | 0 <= j < |next|
      ensures next[j] == MovedCallback(subs, was[j], g + 1)
    {
      var ref := was[j].sub;
      if ref.Some? && ref.value < |subs| {
        RankAtMost(subs, ref.value);
      }
    }
  }

  lemma PackedCount(now: seq<Sub>, was: seq<Sub>, g: nat, count: nat)
    requires PackedUpTo(now, was, SubUsed, g, count)
    ensures |now| == |was| && g <= |was| && count == Rank(was, g)
    ensures g < |was| ==> now[g] == was[g]
  {
    assert g < |was| ==> now[g] == now[g..][0] == was[g..][0];
  }

  predicate SubsOk(subs: seq<Sub>) {
    forall i :: 0 <= i < |subs| ==> SubOk(subs[i])
  }

  /** prvCompressSubscriptionList: the used slots in order, then empty ones, and their
      count; every callback keeps pointing at the subscription it pointed at. The inner
      loop is bounded by the size of the callback table, so the sizes must agree. */
  method CompressSubscriptionList(subs: array<Sub>, callbacks: array<Callback>) returns (count: nat)
    requires subs.Length == callbacks.Length
    requires SubsOk(subs[..])
    modifies subs, callbacks
    ensures count == |Packed(old(subs[..]), SubUsed)| <= subs.Length
    ensures subs[..count] == Packed(old(subs[..]), SubUsed)
    ensures forall i :: count <= i < subs.Length ==> !SubUsed(subs[i])
    ensures SubsOk(subs[..])
    ensures RefsUpTo(callbacks[..], old(callbacks[..]), old(subs[..]), subs.Length)
    ensures old(RefsInTable(subs[..], callbacks[..])) ==>
              Compacted(old(subs[..]), old(callbacks[..]), subs[..], callbacks[..])
  {
    hide PackedUpTo, Packed, SubsOk, RefsUpTo, Rank, Compacted, RefsInTable;
    ghost var was, refs := subs[..], callbacks[..];
    var last := 0;
    count := 0;
    PackedStart(was, SubUsed);
    RefsStart(refs, was);
    for x := 0 to subs.Length
      invariant last <= subs.Length && count <= x && SubsOk(subs[..])
      invariant last == 0 ==> count == x
      invariant last == 0 ==> PackedUpTo(subs[..], was, SubUsed, x, x) && RefsUpTo(callbacks[..], refs, was, x)
      invariant last != 0 ==> x <= last
      invariant last != 0 ==> PackedUpTo(subs[..], was, SubUsed, last, count) && RefsUpTo(callbacks[..], refs, was, last)
      invariant 0 != last < subs.Length ==> x < last && count == x
    {
      SubsOkAt(subs[..], x);
      if subs[x].filter.None? && subs[x].length == 0 && last < subs.Length {
        if last <= x {
          PackedCount(subs[..], was, x, count);
          SkipStep(subs[..], was, SubUsed, x, count);
          RefsSkip(callbacks[..], refs, was, x);
          last := x + 1;
        }
        while last < callbacks.Length
          invariant x < last <= subs.Length && count == x && SubsOk(subs[..])
          invariant PackedUpTo(subs[..], was, SubUsed, last, count) && RefsUpTo(callbacks[..], refs, was, last)
        {
          ghost var now, before := subs[..], callbacks[..];
          PackedCount(now, was, last, count);
          if subs[last].length != 0 {
            MoveStep(now, was, SubUsed, last, count, NO_SUB);
            MoveKeepsSubsOk(now, last, x);
            subs[x] := subs[last];
            subs[last] := NO_SUB;
            assert subs[..] == now[x := now[last]][last := NO_SUB];
            UpdateCallbackRefs(callbacks, last, x);
            RefsMove(before, callbacks[..], refs, was, last, x);
            count := count + 1;
            last := last + 1;
            break;
          }
          SkipStep(now, was, SubUsed, last, count);
          RefsSkip(before, refs, was, last);
          last := last + 1;
        }
      } else if subs[x].filter.Some? && subs[x].length != 0 {
        if last != 0 {
          InGap(subs[..], was, SubUsed, last, count, x);
        }
        PackedCount(subs[..], was, x, x);
        StayStep(subs[..], was, SubUsed, x);
        RefsSkip(callbacks[..], refs, was, x);
        count := count + 1;
      }
    }
    PackedDone(subs[..], was, SubUsed, count);
    IsCompacted(was, refs, subs[..], callbacks[..], count);
  }

  lemma IsCompacted(was: seq<Sub>, refs: seq<Callback>, now: seq<Sub>, refs': seq<Callback>, count: nat)
    requires |now| == |was| && count == |Packed(was, SubUsed)| <= |now| && now[..count] == Packed(was, SubUsed)
    requires forall i :: count <= i < |now| ==> !SubUsed(now[i])
    requires SubsOk(was) && SubsOk(now) && RefsUpTo(refs', refs, was, |was|)
    ensures RefsInTable(was, refs) ==> Compacted(was, refs, now, refs')
  {
    assert was[..|was|] == was;
  }

  lemma RefsStart(refs: seq<Callback>, subs: seq<Sub>)
    ensures RefsUpTo(refs, refs, subs, 0)
  {
  }

  lemma SubsOkAt(subs: seq<Sub>, x: nat)
    requires SubsOk(subs) && x < |subs|
    ensures SubOk(subs[x])
  {
  }

  lemma MoveKeepsSubsOk(now: seq<Sub>, g: nat, x: nat)
    requires SubsOk(now) && g < |now| && x < |now|
    ensures SubsOk(now[x := now[g]][g := NO_SUB])
  {
  }

  // ---------------------------------------------------------------------------
  // Delivery of incoming publishes
  // ---------------------------------------------------------------------------

  /** A callback is invoked if it points at a subscription whose filter matches the topic;
      `matches` says which filters do, and an empty slot never matches. */
  predicate Delivers(subs: seq<Sub>, c: Callback, matches: string -> bool) {
    && c.sub.Some? && c.sub.value < |subs|
    && subs[c.sub.value].filter.Some? && matches(subs[c.sub.value].filter.value)
  }

  /** The callbacks invoked for one publish, in order, each with its context. */
  function Deliveries(subs: seq<Sub>, callbacks: seq<Callback>, matches: string -> bool): seq<(nat, nat)> {
    if callbacks == [] then []
    else
      var last := callbacks[|callbacks| - 1];
      Deliveries(subs, callbacks[..|callbacks| - 1], matches) +
      if Delivers(subs, last, matches) then [(last.func, last.context)] else []
  }

  predicate RefsInTable(subs: seq<Sub>, callbacks: seq<Callback>) {
    forall j :: 0 <= j < |callbacks| && callbacks[j].sub.Some? ==> callbacks[j].sub.value < |subs|
  }

  /** The loop of prvIncomingPublishCallback. `hits` lists, in order, exactly the entries that
      point at a subscription whose filter matches; each of them is invoked once. */
  method IncomingPublish(subs: array<Sub>, callbacks: array<Callback>, matches: string -> bool)
    returns (invoked: seq<(nat, nat)>, ghost hits: seq<nat>)
    requires RefsInTable(subs[..], callbacks[..])
    ensures forall m, n :: 0 <= m < n < |hits| ==> hits[m] < hits[n]
    ensures forall j: nat :: j in hits <==>
              j < callbacks.Length &&
              exists i, f :: callbacks[j].sub == Some(i) && i < subs.Length && subs[i].filter == Some(f) && matches(f)
    ensures |invoked| == |hits|
    ensures forall n :: 0 <= n < |hits| ==>
              hits[n] < callbacks.Length && invoked[n] == (callbacks[hits[n]].func, callbacks[hits[n]].context)
    ensures invoked == Deliveries(subs[..], callbacks[..], matches)
  {
    invoked, hits := [], [];
    for j := 0 to callbacks.Length
      invariant invoked == Deliveries(subs[..], callbacks[..j], matches)
      invariant forall m, n :: 0 <= m < n < |hits| ==> hits[m] < hits[n]
      invariant forall k: nat :: k in hits <==> k < j && Delivers(subs[..], callbacks[k], matches)
      invariant |invoked| == |hits|
      invariant forall n :: 0 <= n < |hits| ==>
                  hits[n] < j && invoked[n] == (callbacks[hits[n]].func, callbacks[hits[n]].context)
    {
      var c := callbacks[j];
      assert callbacks[..j + 1][..j] == callbacks[..j];
      if c.sub.Some? && subs[c.sub.value].filter.Some? && matches(subs[c.sub.value].filter.value) {
        invoked, hits := invoked + [(c.func, c.context)], hits + [j];
      }
    }
    assert callbacks[..callbacks.Length] == callbacks[..];
  }

  lemma {:induction false} DeliveriesAppend(subs: seq<Sub>, a: seq<Callback>, b: seq<Callback>, matches: string -> bool)
    ensures Deliveries(subs, a + b, matches) == Deliveries(subs, a, matches) + Deliveries(subs, b, matches)
  {
    if b == [] {
      assert a + b == a;
    } else {
      assert (a + b)[..|a + b| - 1] == a + b[..|b| - 1];
      DeliveriesAppend(subs, a, b[..|b| - 1], matches);
    }
  }

  lemma DeliveredTo(subs: seq<Sub>, callbacks: seq<Callback>, j: nat, matches: string -> bool)
    requires j < |callbacks| && Delivers(subs, callbacks[j], matches)
    ensures (callbacks[j].func, callbacks[j].context) in Deliveries(subs, callbacks, matches)
  {
    var c := callbacks[j];
    assert callbacks == callbacks[..j] + [c] + callbacks[j + 1..];
    DeliveriesAppend(subs, callbacks[..j] + [c], callbacks[j + 1..], matches);
    DeliveriesAppend(subs, callbacks[..j], [c], matches);
    assert [c][..0] == [];
    assert Deliveries(subs, [c], matches) == [(c.func, c.context)];
  }

  lemma {:induction false} DeliveriesOfPacked(subs: seq<Sub>, a: seq<Callback>, matches: string -> bool)
    ensures Deliveries(subs, Packed(a, CallbackUsed), matches) == Deliveries(subs, a, matches)
  {
    if a != [] {
      var last := a[|a| - 1];
      DeliveriesOfPacked(subs, a[..|a| - 1], matches);
      if CallbackUsed(last) {
        DeliveriesAppend(subs, Packed(a[..|a| - 1], CallbackUsed), [last], matches);
        assert [last][..0] == [];
      } else {
        assert Packed(a, CallbackUsed) == Packed(a[..|a| - 1], CallbackUsed);
      }
    }
  }

  lemma {:induction false} DeliveriesOfFree(subs: seq<Sub>, a: seq<Callback>, matches: string -> bool)
    requires forall i :: 0 <= i < |a| ==> !CallbackUsed(a[i])
    ensures Deliveries(subs, a, matches) == []
  {
    if a != [] {
      DeliveriesOfFree(subs, a[..|a| - 1], matches);
    }
  }

  /** Compacting the callback table changes no delivery. */
  lemma CallbackCompactionKeepsDelivery(
      subs: seq<Sub>, was: seq<Callback>, now: seq<Callback>, count: nat, matches: string -> bool)
    requires count <= |now| && now[..count] == Packed(was, CallbackUsed)
    requires forall i :: count <= i < |now| ==> !CallbackUsed(now[i])
    ensures Deliveries(subs, now, matches) == Deliveries(subs, was, matches)
  {
    assert now == now[..count] + now[count..];
    DeliveriesAppend(subs, now[..count], now[count..], matches);
    DeliveriesOfFree(subs, now[count..], matches);
    DeliveriesOfPacked(subs, was, matches);
  }

  /** The relation that compaction of the subscription table establishes. */
  ghost predicate Compacted(subs: seq<Sub>, callbacks: seq<Callback>, subs': seq<Sub>, callbacks': seq<Callback>) {
    && |subs'| == |subs| && Rank(subs, |subs|) <= |subs|
    && subs'[..Rank(subs, |subs|)] == Packed(subs, SubUsed)
    && (forall i :: Rank(subs, |subs|) <= i < |subs'| ==> !SubUsed(subs'[i]))
    && SubsOk(subs) && SubsOk(subs') && RefsInTable(subs, callbacks)
    && RefsUpTo(callbacks', callbacks, subs, |subs|)
  }

  lemma {:induction false} PackedAt(s: seq<Sub>, n: nat, i: nat)
    requires i < n <= |s| && SubUsed(s[i])
    ensures Rank(s, i) < Rank(s, n) && Packed(s[..n], SubUsed)[Rank(s, i)] == s[i]
  {
    PackedStep(s, SubUsed, n - 1);
    if i < n - 1 {
      PackedAt(s, n - 1, i);
    }
  }

  /** A callback that refers to an empty slot inside the packed part: compaction may put
      another subscription into that slot. */
  predicate Dangles(subs: seq<Sub>, c: Callback) {
    c.sub.Some? && c.sub.value < |subs| && c.sub.value < Rank(subs, |subs|) && !SubUsed(subs[c.sub.value])
  }

  /** One callback before and after: unchanged unless it dangles, and then it is invoked
      afterwards whenever the filter now in its slot matches. */
  lemma CompactedDelivers(
      subs: seq<Sub>, callbacks: seq<Callback>, subs': seq<Sub>, callbacks': seq<Callback>, j: nat, matches: string -> bool)
    requires Compacted(subs, callbacks, subs', callbacks') && j < |callbacks|
    ensures |callbacks'| == |callbacks|
    ensures callbacks'[j].func == callbacks[j].func && callbacks'[j].context == callbacks[j].context
    ensures !Dangles(subs, callbacks[j]) ==>
              Delivers(subs', callbacks'[j], matches) == Delivers(subs, callbacks[j], matches)
    ensures Dangles(subs, callbacks[j]) ==>
              && !Delivers(subs, callbacks[j], matches)
              && SubUsed(subs'[callbacks[j].sub.value])
              && Delivers(subs', callbacks'[j], matches) == matches(subs'[callbacks[j].sub.value].filter.value)
  {
    var c, n := callbacks[j], Rank(subs, |subs|);
    assert subs[..|subs|] == subs;
    assert callbacks'[j] == MovedCallback(subs, c, |subs|);
    if c.sub.Some? {
      var i := c.sub.value;
      assert SubOk(subs[i]) && SubOk(subs'[i]);
      if SubUsed(subs[i]) {
        PackedAt(subs, |subs|, i);
        assert subs'[Rank(subs, i)] == subs'[..n][Rank(subs, i)] == subs[i];
      } else if i < n {
        PackedLength(subs, SubUsed);
        assert subs'[i] == Packed(subs, SubUsed)[i];
      }
    }
  }

  lemma {:induction false} SameDeliveries(
      subs: seq<Sub>, callbacks: seq<Callback>, subs': seq<Sub>, callbacks': seq<Callback>, matches: string -> bool)
    requires |callbacks'| == |callbacks|
    requires forall j :: 0 <= j < |callbacks| ==>
               && callbacks'[j].func == callbacks[j].func && callbacks'[j].context == callbacks[j].context
               && Delivers(subs', callbacks'[j], matches) == Delivers(subs, callbacks[j], matches)
    ensures Deliveries(subs', callbacks', matches) == Deliveries(subs, callbacks, matches)
  {
    if callbacks != [] {
      var n := |callbacks| - 1;
      SameDeliveries(subs, callbacks[..n], subs', callbacks'[..n], matches);
    }
  }

  lemma {:induction false} MoreDeliveries(
      subs: seq<Sub>, callbacks: seq<Callback>, subs': seq<Sub>, callbacks': seq<Callback>, matches: string -> bool)
    requires |callbacks'| == |callbacks|
    requires forall j :: 0 <= j < |callbacks| && Delivers(subs, callbacks[j], matches) ==> Delivers(subs', callbacks'[j], matches)
    ensures |Deliveries(subs', callbacks', matches)| >= |Deliveries(subs, callbacks, matches)|
    ensures (exists j :: 0 <= j < |callbacks| && !Delivers(subs, callbacks[j], matches) && Delivers(subs', callbacks'[j], matches)) ==>
              |Deliveries(subs', callbacks', matches)| > |Deliveries(subs, callbacks, matches)|
  {
    if callbacks != [] {
      var n := |callbacks| - 1;
      assert forall j :: 0 <= j < n ==> callbacks[..n][j] == callbacks[j] && callbacks'[..n][j] == callbacks'[j];
      MoreDeliveries(subs, callbacks[..n], subs', callbacks'[..n], matches);
    }
  }

  ghost predicate DeliveryKept(subs: seq<Sub>, callbacks: seq<Callback>, subs': seq<Sub>, callbacks': seq<Callback>) {
    forall matches: string -> bool :: Deliveries(subs', callbacks', matches) == Deliveries(subs, callbacks, matches)
  }

  /** Compacting the subscription table changes no delivery, whatever the topic, if and
      only if no callback refers to an empty slot inside the packed part; in particular
      when every used callback refers to a used slot. */
  lemma SubCompactionKeepsDelivery(subs: seq<Sub>, callbacks: seq<Callback>, subs': seq<Sub>, callbacks': seq<Callback>)
    requires Compacted(subs, callbacks, subs', callbacks')
    ensures DeliveryKept(subs, callbacks, subs', callbacks') <==>
            forall j :: 0 <= j < |callbacks| ==> !Dangles(subs, callbacks[j])
  {
    if forall j :: 0 <= j < |callbacks| ==> !Dangles(subs, callbacks[j]) {
      forall matches: string -> bool
        ensures Deliveries(subs', callbacks', matches) == Deliveries(subs, callbacks, matches)
      {
        forall j | 0 <= j < |callbacks|
          ensures callbacks'[j].func == callbacks[j].func && callbacks'[j].context == callbacks[j].context
          ensures Delivers(subs', callbacks'[j], matches) == Delivers(subs, callbacks[j], matches)
        {
          CompactedDelivers(subs, callbacks, subs', callbacks', j, matches);
        }
        SameDeliveries(subs, callbacks, subs', callbacks', matches);
      }
    } else {
      var any := (f: string) => true;
      forall j | 0 <= j < |callbacks|
        ensures Delivers(subs, callbacks[j], any) ==> Delivers(subs', callbacks'[j], any)
        ensures Dangles(subs, callbacks[j]) ==> !Delivers(subs, callbacks[j], any) && Delivers(subs', callbacks'[j], any)
      {
        CompactedDelivers(subs, callbacks, subs', callbacks', j, any);
      }
      MoreDeliveries(subs, callbacks, subs', callbacks', any);
    }
  }
}
