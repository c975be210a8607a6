/** The key-value store as two maps, one live and one persistent, and what holds over
    every run of sets, commits and reboots. */
module KvSpec {
  import opened Basics
  import opened KvFormat

  /** `pending` holds the keys whose change-pending flag is set. */
  datatype State = State(live: seq<Option<Value>>, disk: seq<Option<Value>>, pending: set<nat>)

  /** What one file write leaves behind: the new value, the old file, or no value. */
  datatype Effect = Stored | OldKept | Gone

  /** One file write: what it reported and what it did. The two need not agree, except that
      a stored value was reported as such. */
  datatype Write = Write(reported: bool, effect: Effect)

  predicate Legal(w: Write) {
    w.effect.Stored? ==> w.reported
  }

  datatype Event =
    | Set(key: nat, value: Value)
    | Commit(writes: seq<Write>)  // the outcome for each key, should it be written
    | Reboot(unread: set<nat>)    // keys whose file could not be read at start-up

  ghost predicate WellFormed(s: State) {
    && |s.live| == |s.disk|
    && forall k :: k in s.pending ==> k < |s.live| && s.live[k].Some?
  }

  /** An event of a store with `n` keys. */
  predicate Fits(e: Event, n: nat) {
    match e
    case Set(k, _) => k < n
    case Commit(writes) => |writes| == n && forall k :: 0 <= k < n ==> Legal(writes[k])
    case Reboot(_) => true
  }

  /** The effect of a setter: an equal value leaves the pending flag alone. */
  function SetState(s: State, k: nat, v: Value): State
    requires k < |s.live|
  {
    State(s.live[k := Some(v)], s.disk, if s.live[k] == Some(v) then s.pending else s.pending + {k})
  }

  function DiskAfter(live: Option<Value>, disk: Option<Value>, effect: Effect): Option<Value> {
    match effect
    case Stored => live
    case OldKept => disk
    case Gone => None
  }

  /** Every pending key is written, whatever happens to the others, and stays pending. */
  function CommitState(s: State, writes: seq<Write>): State
    requires |writes| == |s.live| == |s.disk|
  {
    s.(disk := seq(|s.disk|, k requires 0 <= k < |s.disk| =>
      if k in s.pending then DiskAfter(s.live[k], s.disk[k], writes[k].effect) else s.disk[k]))
  }

  /** What the commit returns. */
  predicate Reported(s: State, writes: seq<Write>)
    requires |writes| == |s.live|
  {
    forall k :: 0 <= k < |writes| && k in s.pending ==> writes[k].reported
  }

  function RebootState(s: State, unread: set<nat>): State
    requires |s.live| == |s.disk|
  {
    State(seq(|s.disk|, k requires 0 <= k < |s.disk| => if k in unread then None else s.disk[k]), s.disk, {})
  }

  ghost function Next(s: State, e: Event): (t: State)
    requires WellFormed(s) && Fits(e, |s.live|)
    ensures WellFormed(t) && |t.live| == |s.live|
  {
    match e
    case Set(k, v) => SetState(s, k, v)
    case Commit(writes) => CommitState(s, writes)
    case Reboot(unread) => RebootState(s, unread)
  }

  ghost predicate AllFit(es: seq<Event>, n: nat) {
    forall i :: 0 <= i < |es| ==> Fits(es[i], n)
  }

  /** The state after a run. */
  ghost function After(s: State, es: seq<Event>): (t: State)
    requires WellFormed(s) && AllFit(es, |s.live|)
    ensures WellFormed(t) && |t.live| == |s.live|
  {
    if es == [] then s else Next(After(s, es[..|es| - 1]), es[|es| - 1])
  }

  lemma AfterStep(s: State, es: seq<Event>, e: Event)
    requires WellFormed(s) && AllFit(es, |s.live|) && Fits(e, |s.live|)
    ensures AllFit(es + [e], |s.live|) && After(s, es + [e]) == Next(After(s, es), e)
  {
    assert (es + [e])[..|es|] == es;
  }

  // ---------------------------------------------------------------------------
  // Cache and files stay in step
  // ---------------------------------------------------------------------------

  /** A key without a pending change has the same value in the cache and in its file. */
  ghost predicate Synced(s: State) {
    WellFormed(s) && forall k :: 0 <= k < |s.live| && k !in s.pending ==> s.live[k] == s.disk[k]
  }

  /** Every start-up of the run could read every file. */
  ghost predicate AllRead(es: seq<Event>) {
    forall i :: 0 <= i < |es| && es[i].Reboot? ==> es[i].unread == {}
  }

  lemma {:induction false} SyncedThroughout(s: State, es: seq<Event>)
    requires Synced(s) && AllFit(es, |s.live|) && AllRead(es)
    ensures Synced(After(s, es))
  {
    if es != [] {
      SyncedThroughout(s, es[..|es| - 1]);
    }
  }

  /** A key whose value is in its file after the commit. */
  predicate Secured(s: State, writes: seq<Write>, k: nat)
    requires |writes| == |s.live| == |s.disk| && k < |s.live|
  {
    k in s.pending ==> writes[k].effect.Stored? || (writes[k].effect.OldKept? && s.disk[k] == s.live[k])
  }

  /** Whatever happened before, including any number of failed commits, a commit and a reboot
      leave every answer as it was if and only if each pending value was stored, or its old
      file stayed and held that value already. What the commit returned plays no part. */
  lemma CommittedSurvivesReboot(s: State, es: seq<Event>, writes: seq<Write>)
    requires Synced(s) && AllFit(es, |s.live|) && AllRead(es) && Fits(Commit(writes), |s.live|)
    ensures var t := After(s, es);
            RebootState(CommitState(t, writes), {}).live == t.live <==>
            forall k :: 0 <= k < |s.live| ==> Secured(t, writes, k)
  {
    var t := After(s, es);
    SyncedThroughout(s, es);
    var u := RebootState(CommitState(t, writes), {});
    forall k | 0 <= k < |s.live|
      ensures u.live[k] == t.live[k] <==> Secured(t, writes, k)
    {
    }
  }

  // ---------------------------------------------------------------------------
  // How long a committed value lasts
  // ---------------------------------------------------------------------------

  predicate NeverSet(es: seq<Event>, k: nat) {
    forall i :: 0 <= i < |es| && es[i].Set? ==> es[i].key != k
  }

  predicate NoReboot(es: seq<Event>) {
    forall i :: 0 <= i < |es| ==> !es[i].Reboot?
  }

  /** The flag of a key that is not set again lasts until the next reboot. */
  lemma {:induction false} PendingUntilReboot(s: State, es: seq<Event>, k: nat)
    requires WellFormed(s) && AllFit(es, |s.live|) && NeverSet(es, k)
    ensures k in After(s, es).pending <==> k in s.pending && NoReboot(es)
    ensures NoReboot(es) && k < |s.live| ==> After(s, es).live[k] == s.live[k]
  {
    if es != [] {
      var n := |es| - 1;
      PendingUntilReboot(s, es[..n], k);
      assert NoReboot(es) <==> NoReboot(es[..n]) && !es[n].Reboot?;
    }
  }

  /** Before any reboot, some commit destroys the file of `k`. */
  ghost predicate Destroyed(es: seq<Event>, k: nat) {
    exists i :: 0 <= i < |es| && NoReboot(es[..i]) && es[i].Commit? && k < |es[i].writes| && es[i].writes[k].effect.Gone?
  }

  /** The file of `k` holds its value at every point of the run. */
  ghost predicate KeptThroughout(s: State, es: seq<Event>, k: nat)
    requires WellFormed(s) && AllFit(es, |s.live|) && k < |s.live|
  {
    forall i :: 0 <= i <= |es| ==> After(s, es[..i]).disk[k] == s.disk[k]
  }

  /** The exact life of a value that is in its file and is not set again: it stays there
      through the whole run, ready for any reboot, if and only if its key is not pending or
      no commit before the next reboot destroys its file. */
  lemma DurableIff(s: State, es: seq<Event>, k: nat)
    requires WellFormed(s) && AllFit(es, |s.live|) && NeverSet(es, k) && k < |s.live|
    requires s.live[k].Some? && s.disk[k] == s.live[k]
    ensures KeptThroughout(s, es, k) <==> !(k in s.pending && Destroyed(es, k))
  {
    if k in s.pending && Destroyed(es, k) {
      var i :| 0 <= i < |es| && NoReboot(es[..i]) && es[i].Commit? && k < |es[i].writes| && es[i].writes[k].effect.Gone?;
      PendingUntilReboot(s, es[..i], k);
      assert es[..i + 1][..i] == es[..i];
      assert After(s, es[..i + 1]).disk[k] == None;
    } else {
      forall i | 0 <= i <= |es|
        ensures After(s, es[..i]).disk[k] == s.disk[k]
      {
        KeptUpTo(s, es, k, i);
      }
    }
  }

  lemma {:induction false} KeptUpTo(s: State, es: seq<Event>, k: nat, i: nat)
    requires WellFormed(s) && AllFit(es, |s.live|) && NeverSet(es, k) && k < |s.live| && i <= |es|
    requires s.disk[k] == s.live[k] && !(k in s.pending && Destroyed(es, k))
    ensures After(s, es[..i]).disk[k] == s.disk[k]
  {
    if i > 0 {
      KeptUpTo(s, es, k, i - 1);
      PendingUntilReboot(s, es[..i - 1], k);
      assert es[..i][..i - 1] == es[..i - 1];
    }
  }

  // ---------------------------------------------------------------------------
  // Reads
  // ---------------------------------------------------------------------------

  /** The last value set to `k` since the last reboot of the run, if any. */
  function LastSet(es: seq<Event>, k: nat): Option<Value> {
    if es == [] || es[|es| - 1].Reboot? then None
    else
      var e := es[|es| - 1];
      if e.Set? && e.key == k then Some(e.value) else LastSet(es[..|es| - 1], k)
  }

  /** Reads return the last value written since the last reboot, whatever the commits in
      between did; without one, and without a reboot, what was there at first. */
  lemma {:induction false} LiveIsLastSet(s: State, es: seq<Event>, k: nat)
    requires WellFormed(s) && AllFit(es, |s.live|) && k < |s.live|
    ensures LastSet(es, k).Some? ==> After(s, es).live[k] == LastSet(es, k)
    ensures LastSet(es, k).None? && NoReboot(es) ==> After(s, es).live[k] == s.live[k]
  {
    if es != [] {
      LiveIsLastSet(s, es[..|es| - 1], k);
    }
  }
}
