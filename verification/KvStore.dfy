/** The typed front end of the key-value store: setters and getters that check the
    declared type of a key and fall back to its default. */
module KvStore {
  import opened Basics
  import opened KvFormat
  import opened KvSpec
  import opened KvCache

  /** KVStoreDefaultEntry_t: `word` is the union itself, `target` what it points to when
      the default is a string or blob. */
  datatype Default = Default(kind: Kind, length: nat, word: seq<Byte>, target: seq<Byte>)

  predicate DefaultOk(d: Default) {
    |d.word| == POINTER_SIZE && 0 < d.length < SIZE_LIMIT && (d.length > POINTER_SIZE ==> |d.target| >= d.length)
  }

  function Min(a: nat, b: nat): nat {
    if a < b then a else b
  }

  /** The bytes a read into a buffer of `cap` bytes delivers. */
  function Delivered(live: Option<Value>, d: Default, cap: nat): seq<Byte>
    requires DefaultOk(d)
  {
    match live
    case Some(v) => v.bytes[..Min(cap, |v.bytes|)]
    case None =>
      var n := Min(cap, d.length);
      if n > POINTER_SIZE then d.target[..n] else d.word[..n]
  }

  /** The length a read reports: that of the whole value, whatever fits. */
  function FullLength(live: Option<Value>, d: Default): nat {
    match live case Some(v) => |v.bytes| case None => d.length
  }

  // ---------------------------------------------------------------------------
  // Scalars
  // ---------------------------------------------------------------------------

  /** The declared type that the getter for `api` tests: KVStore_getUBase tests the
      signed type. */
  function TestedKind(api: Kind): Kind {
    if api == UBaseT then BaseT else api
  }

  predicate IsScalar(api: Kind) {
    api in {BaseT, UBaseT, Int32, UInt32}
  }

  /** The result of the getter for `api`: a four-byte word and a success flag. */
  function ScalarRead(api: Kind, live: Option<Value>, d: Default): (seq<Byte>, bool)
    requires DefaultOk(d)
  {
    if d.kind != TestedKind(api) then ([0, 0, 0, 0], false)
    else
      var got := Delivered(live, d, 4);
      (got + [0, 0, 0, 0][|got|..], FullLength(live, d) == 4)
  }

  /** A setter for `api` accepts a key exactly when the key is declared so; reading back
      through the matching getter returns the word unless the type is UBaseType_t, whose
      getter then reports failure for every key its setter accepts. */
  lemma ScalarRoundTrip(api: Kind, d: Default, s: State, k: nat, w: seq<Byte>)
    requires IsScalar(api) && DefaultOk(d) && d.kind == api && |w| == 4 && k < |s.live|
    ensures var r := ScalarRead(api, SetState(s, k, Value(api, w)).live[k], d);
            if api == UBaseT then r == ([0, 0, 0, 0], false) else r == (w, true)
  {
    assert w[..4] + [0, 0, 0, 0][4..] == w;
  }

  /** Which keys a getter reads at all: those of its own type, except that the one for
      UBaseType_t reads those of BaseType_t, and as these. */
  lemma ScalarTypes(api: Kind, live: Option<Value>, d: Default)
    requires IsScalar(api) && DefaultOk(d)
    ensures d.kind == BaseT ==> ScalarRead(UBaseT, live, d) == ScalarRead(BaseT, live, d)
    ensures d.kind != api && !(api == UBaseT && d.kind == BaseT) ==> ScalarRead(api, live, d) == ([0, 0, 0, 0], false)
    ensures d.kind == api != UBaseT && live.Some? && |live.value.bytes| == 4 ==> ScalarRead(api, live, d) == (live.value.bytes, true)
  {
    if live.Some? && |live.value.bytes| == 4 {
      assert live.value.bytes[..4] + [0, 0, 0, 0][4..] == live.value.bytes;
    }
  }

  /** What a read of a default delivers: up to four bytes always come from the union itself, so
      a short read of a longer default delivers bytes of the pointer; more than four come from
      what it points to. */
  lemma DefaultBytes(d: Default, cap: nat)
    requires DefaultOk(d)
    ensures cap <= 4 || d.length <= 4 ==> Delivered(None, d, cap) == d.word[..Min(cap, d.length)]
    ensures cap > 4 && d.length > 4 ==> Delivered(None, d, cap) == d.target[..Min(cap, d.length)]
  {
  }

  /** A scalar that was never set reads as its default. */
  lemma ScalarDefault(api: Kind, d: Default)
    requires IsScalar(api) && DefaultOk(d) && d.kind == api != UBaseT && d.length == 4
    ensures ScalarRead(api, None, d) == (d.word, true)
  {
    assert d.word[..4] + [0, 0, 0, 0][4..] == d.word;
  }

  // ---------------------------------------------------------------------------
  // Strings
  // ---------------------------------------------------------------------------

  predicate NoNul(s: seq<Byte>) {
    0 !in s
  }

  /** What KVStore_getString leaves in a buffer that held `before`. */
  function StringBuffer(live: Option<Value>, d: Default, before: seq<Byte>): seq<Byte>
    requires DefaultOk(d) && |before| > 0
  {
    var got := Delivered(live, d, |before|);
    (got + before[|got|..])[|before| - 1 := 0]
  }

  /** The C string at the start of a buffer. */
  function CString(b: seq<Byte>): seq<Byte> {
    if b == [] || b[0] == 0 then [] else [b[0]] + CString(b[1..])
  }

  lemma {:induction false} CStringOf(s: seq<Byte>, rest: seq<Byte>)
    requires NoNul(s)
    ensures CString(s + [0] + rest) == s
  {
    var b := s + [0] + rest;
    if s != [] {
      assert s[0] in s;
      assert b[1..] == s[1..] + [0] + rest;
      CStringOf(s[1..], rest);
    }
  }

  /** Reading a string just set: the buffer holds it, or its longest prefix that leaves
      room for the terminator; the count is always that of the whole string. */
  lemma StringRoundTrip(d: Default, t: seq<Byte>, before: seq<Byte>)
    requires DefaultOk(d) && NoNul(t) && |before| > 0
    ensures var live := Some(Value(String, t + [0]));
            && CString(StringBuffer(live, d, before)) == t[..Min(|t|, |before| - 1)]
            && FullLength(live, d) - 1 == |t|
  {
    var live := Some(Value(String, t + [0]));
    var got := Delivered(live, d, |before|);
    var b := StringBuffer(live, d, before);
    var n := Min(|t|, |before| - 1);
    if |t| < |before| {
      assert got == t + [0];
      assert b == t + [0] + b[|t| + 1..];
      CStringOf(t, b[|t| + 1..]);
      assert t[..n] == t;
    } else {
      assert got == t[..|before|];
      assert b == t[..n] + [0] + [];
      CStringOf(t[..n], []);
    }
  }

  // ---------------------------------------------------------------------------
  // The interface
  // ---------------------------------------------------------------------------

  class Front {
    const store: Store
    const defaults: seq<Default>

    ghost predicate Valid()
      reads this, store
    {
      && store.Valid() && |defaults| == |store.cache|
      && forall k :: 0 <= k < |defaults| ==> DefaultOk(defaults[k])
    }

    constructor (store: Store, defaults: seq<Default>)
      requires store.Valid() && |defaults| == |store.cache|
      requires forall k :: 0 <= k < |defaults| ==> DefaultOk(defaults[k])
      ensures Valid() && this.store == store && this.defaults == defaults
    {
      this.store, this.defaults := store, defaults;
    }

    ghost function Live(k: nat): Option<Value>
      requires Valid() && k < |defaults|
      reads this, store
    {
      store.State().live[k]
    }

    /** Storing `n` bytes takes a new block that cannot be had. */
    ghost predicate NeedsMissingBlock(k: nat, n: nat, granted: bool)
      reads this, store
    {
      k < |store.cache| && NewBuffer(store.cache[k], n) && NoBlock(n, granted, store.capacity)
    }

    /** xReadEntryOrDefault */
    method ReadEntryOrDefault(k: nat, buffer: array<Byte>) returns (length: nat)
      requires Valid() && k < |defaults|
      modifies buffer
      ensures Valid() && store.State() == old(store.State())
      ensures length == FullLength(Live(k), defaults[k])
      ensures var got := Delivered(Live(k), defaults[k], buffer.Length);
              |got| <= buffer.Length && buffer[..] == got + old(buffer[..])[|got|..]
    {
      var found, kind, len := store.CopyValue(k, buffer);
      length := if len.Some? then len.value else 0;
      if length == 0 {
        var d := defaults[k];
        var n := d.length;
        if buffer.Length < n {
          n := buffer.Length;
        }
        var data := if n > POINTER_SIZE then d.target else d.word;
        forall i | 0 <= i < n {
          buffer[i] := data[i];
        }
        length := d.length;
      }
    }

    /** KVStore_setUInt32, _setInt32, _setBase and _setUBase: `word` is the argument's
        object representation. */
    method SetScalar(k: nat, api: Kind, word: seq<Byte>, granted: bool) returns (ok: bool, halted: bool)
      requires Valid() && IsScalar(api) && |word| == 4
      modifies store`heap, store`cache
      ensures !halted && Valid()
      ensures ok <==> k < |defaults| && defaults[k].kind == api
      ensures store.State() == if ok then SetState(old(store.State()), k, Value(api, word)) else old(store.State())
    {
      ok, halted := false, false;
      if k < |defaults| && defaults[k].kind == api {
        halted := store.WriteEntry(k, api, word, granted);
        ok := true;
      }
    }

    /** KVStore_getUInt32, _getInt32, _getBase and _getUBase. */
    method GetScalar(k: nat, api: Kind) returns (word: seq<Byte>, success: bool)
      requires Valid() && IsScalar(api)
      ensures k >= |defaults| ==> word == [0, 0, 0, 0] && !success
      ensures k < |defaults| ==> (word, success) == ScalarRead(api, Live(k), defaults[k])
    {
      var buffer := new Byte[4](_ => 0);
      var size := 0;
      assert buffer[..] == [0, 0, 0, 0];
      if k < |defaults| && defaults[k].kind == TestedKind(api) {
        size := ReadEntryOrDefault(k, buffer);
      }
      word, success := buffer[..], size == 4;
    }

    /** KVStore_setString: the terminator is stored too. */
    method SetString(k: nat, text: seq<Byte>, granted: bool) returns (ok: bool, halted: bool)
      requires Valid() && NoNul(text) && |text| + 1 < SIZE_LIMIT
      modifies store`heap, store`cache
      ensures halted <==> ok && old(NeedsMissingBlock(k, |text| + 1, granted))
      ensures ok <==> k < |defaults| && defaults[k].kind == String
      ensures !halted ==> Valid()
      ensures !halted ==>
                store.State() == if ok then SetState(old(store.State()), k, Value(String, text + [0])) else old(store.State())
    {
      ok, halted := false, false;
      if k < |defaults| && defaults[k].kind == String {
        halted := store.WriteEntry(k, String, text + [0], granted);
        ok := true;
      }
    }

    /** KVStore_setBlob */
    method SetBlob(k: nat, data: seq<Byte>, granted: bool) returns (ok: bool, halted: bool)
      requires Valid() && |data| < SIZE_LIMIT
      modifies store`heap, store`cache
      ensures halted <==> ok && old(NeedsMissingBlock(k, |data|, granted))
      ensures ok <==> k < |defaults| && |data| > 0 && defaults[k].kind == Blob
      ensures !halted ==> Valid()
      ensures !halted ==>
                store.State() == if ok then SetState(old(store.State()), k, Value(Blob, data)) else old(store.State())
    {
      ok, halted := false, false;
      if k < |defaults| && |data| > 0 && defaults[k].kind == Blob {
        halted := store.WriteEntry(k, Blob, data, granted);
        ok := true;
      }
    }

    /** KVStore_getBlob */
    method GetBlob(k: nat, buffer: array<Byte>) returns (length: nat)
      requires Valid()
      modifies buffer
      ensures Valid() && store.State() == old(store.State())
      ensures k >= |defaults| || defaults[k].kind != Blob ==> length == 0 && buffer[..] == old(buffer[..])
      ensures k < |defaults| && defaults[k].kind == Blob ==>
                var got := Delivered(Live(k), defaults[k], buffer.Length);
                length == FullLength(Live(k), defaults[k]) && buffer[..] == got + old(buffer[..])[|got|..]
    {
      length := 0;
      if k < |defaults| && defaults[k].kind == Blob {
        length := ReadEntryOrDefault(k, buffer);
      }
    }

    /** KVStore_getString. A buffer of no bytes is overrun: the terminator goes in front of it. */
    method GetString(k: nat, buffer: array<Byte>) returns (length: nat, overrun: bool)
      requires Valid()
      modifies buffer
      ensures Valid() && store.State() == old(store.State())
      ensures overrun <==> k < |defaults| && defaults[k].kind == String && buffer.Length == 0
      ensures k >= |defaults| || defaults[k].kind != String ==> length == 0 && buffer[..] == old(buffer[..])
      ensures k < |defaults| && defaults[k].kind == String ==>
                && length == FullLength(Live(k), defaults[k]) - 1
                && (buffer.Length > 0 ==> buffer[..] == StringBuffer(Live(k), defaults[k], old(buffer[..])))
    {
      length, overrun := 0, false;
      if k < |defaults| && defaults[k].kind == String {
        length := ReadEntryOrDefault(k, buffer);
        if buffer.Length == 0 {
          overrun := true;
        } else {
          buffer[buffer.Length - 1] := 0;
        }
      }
      if length > 0 {
        length := length - 1;
      }
    }

    /** What KVStore_getSize gives: the cached length, even of an entry whose value was not
        read, before the default's. */
    ghost function Size(k: nat): (n: nat)
      requires Valid() && k < |defaults|
      reads this, store
      ensures Live(k).Some? ==> n == |Live(k).value.bytes|
      ensures n > 0
    {
      assert EntryOk(store.cache[k], store.heap);
      if store.cache[k].length > 0 then store.cache[k].length else defaults[k].length
    }

    /** KVStore_getSize */
    method GetSize(k: nat) returns (size: nat)
      requires Valid()
      ensures size == if k < |defaults| then Size(k) else 0
    {
      size := 0;
      if k < |defaults| {
        size := store.cache[k].length;
        if size == 0 {
          size := defaults[k].length;
        }
      }
    }

    /** KVStore_getStringHeap. A string comes back whole when it is stored or is the default
        of a key with nothing cached. The empty string and keys of other types are failures
        whose length wraps around; without memory the length is reported all the same. */
    method GetStringHeap(k: nat, granted: bool) returns (text: Option<seq<Byte>>, length: nat)
      requires Valid()
      ensures text.Some? <==>
              k < |defaults| && defaults[k].kind == String && granted && FullLength(Live(k), defaults[k]) > 1
      ensures length == if text.Some? || (k < |defaults| && !granted) then Size(k) - 1 else SIZE_LIMIT - 1
      ensures text.Some? ==>
                var got := Delivered(Live(k), defaults[k], Size(k));
                && |text.value| == Size(k) && text.value[Size(k) - 1] == 0
                && forall i :: 0 <= i < |got| && i < Size(k) - 1 ==> text.value[i] == got[i]
    {
      var size := GetSize(k);
      text := None;
      if size > 0 && granted {
        var buffer := new Byte[size];
        var n, _ := GetString(k, buffer);
        if n == 0 {
          size := 0;
        } else {
          text := Some(buffer[..]);
        }
      }
      length := (size - 1) % SIZE_LIMIT;
      assert k < |defaults| ==> Size(k) < SIZE_LIMIT by {
        if k < |defaults| { assert EntryOk(store.cache[k], store.heap) && DefaultOk(defaults[k]); }
      }
    }

    /** A commit, whatever it returns, and a reboot: start-up halts exactly if some file that
        the commit leaves makes it; otherwise a key whose file can be read answers as before
        if and only if its value was stored, or needed no writing, or its old file was left
        and held it already. */
    method CommitAndReboot(answers: seq<FileAnswer>, loads: seq<ReadAnswer>, grants: seq<bool>)
      returns (ok: bool, halted: bool)
      requires Valid() && Synced(store.State()) && |answers| == |loads| == |grants| == |defaults|
      modifies store
      ensures ok <==> Reported(old(store.State()), Writes(answers))
      ensures halted <==>
              BootHalts(Recommitted(old(store.State()), old(store.Files()), answers), loads, grants, store.valueLimit, store.capacity)
      ensures !halted ==> Valid()
      ensures !halted ==> forall k :: 0 <= k < |defaults| && loads[k].Readable? ==>
                (Live(k) == old(Live(k)) <==> Secured(old(store.State()), Writes(answers), k))
    {
      hide BootHalts, Recommitted;
      ghost var s := store.State();
      ok := store.Commit(answers);
      halted := store.Boot(loads, grants);
      if !halted {
        assert store.State() == RebootState(CommitState(s, Writes(answers)), Unread(loads));
      }
    }

    /** After a reboot the size of a key without a file is that of its default. */
    method RebootThenSize(loads: seq<ReadAnswer>, grants: seq<bool>, k: nat) returns (halted: bool, size: nat)
      requires Valid() && |loads| == |grants| == |defaults| && k < |defaults| && k !in store.files
      modifies store
      ensures !halted ==> Valid() && size == defaults[k].length
    {
      size := 0;
      halted := store.Boot(loads, grants);
      if !halted {
        size := GetSize(k);
      }
    }

    /** If every write and read goes well and memory is at hand, a commit returns true, and
        after the reboot every key answers as before; the reboot halts exactly if some value
        is too big or a key without value has a file that halts it. */
    method WellCommitAndReboot() returns (ok: bool, halted: bool)
      requires Valid() && Synced(store.State())
      modifies store
      ensures ok
      ensures halted <==> !AllLoad(old(store.State()), old(store.Files()), store.valueLimit, store.capacity)
      ensures !halted ==> Valid() && forall k :: 0 <= k < |defaults| ==> Live(k) == old(Live(k))
    {
      hide BootHalts, Recommitted, AllLoad, MediumOk;
      ghost var s, m := store.State(), store.Files();
      var n := |defaults|;
      var answers, loads, grants := seq(n, _ => ALL_WELL), seq(n, _ => Readable), seq(n, _ => true);
      store.MediumIs();
      WellBootHalts(s, m, answers, loads, grants, store.valueLimit, store.capacity);
      ok, halted := CommitAndReboot(answers, loads, grants);
      assert forall k :: 0 <= k < n ==> Writes(answers)[k] == WriteOf(ALL_WELL);
    }

    /** From the front end through cache, file and start-up back to the front end, with any
        failures: it halts exactly if there is no block for the text or some file that the
        commit leaves halts start-up; otherwise the text reads back if its own file was
        written and read well. */
    method StringSurvivesReboot(
        k: nat, text: seq<Byte>, buffer: array<Byte>,
        granted: bool, answers: seq<FileAnswer>, loads: seq<ReadAnswer>, grants: seq<bool>)
      returns (halted: bool, length: nat)
      requires Valid() && Synced(store.State()) && |answers| == |loads| == |grants| == |defaults|
      requires k < |defaults| && defaults[k].kind == String
      requires NoNul(text) && |text| + 1 < SIZE_LIMIT && buffer.Length > 0
      modifies store, buffer
      ensures halted <==>
              || old(NeedsMissingBlock(k, |text| + 1, granted))
              || BootHalts(Recommitted(SetState(old(store.State()), k, Value(String, text + [0])), old(store.Files()), answers),
                           loads, grants, store.valueLimit, store.capacity)
      ensures !halted ==> Valid()
      ensures !halted && WriteOf(answers[k]).effect.Stored? && loads[k].Readable? ==>
                length == |text| && CString(buffer[..]) == text[..Min(|text|, buffer.Length - 1)]
    {
      hide BootHalts, Recommitted;
      length := 0;
      var ok;
      ok, halted := SetString(k, text, granted);
      if !halted {
        ok, halted := CommitAndReboot(answers, loads, grants);
      }
      if !halted {
        ghost var before := buffer[..];
        var overrun;
        length, overrun := GetString(k, buffer);
        StringRoundTrip(defaults[k], text, before);
      }
    }

    /** If all goes well, a text below the limits reads back after set, commit and reboot,
        provided that no other key makes start-up halt. */
    method StringSurvives(k: nat, text: seq<Byte>, buffer: array<Byte>) returns (length: nat)
      requires Valid() && Synced(store.State()) && k < |defaults| && defaults[k].kind == String
      requires NoNul(text) && buffer.Length > 0 && !TooBig(Value(String, text + [0]), store.valueLimit, store.capacity)
      requires OthersLoad(store.State(), store.Files(), k, store.valueLimit, store.capacity)
      modifies store, buffer
      ensures Valid() && length == |text| && CString(buffer[..]) == text[..Min(|text|, buffer.Length - 1)]
    {
      hide AllLoad, OthersLoad;
      ghost var s, m := store.State(), store.Files();
      SetLoads(s, m, k, Value(String, text + [0]), store.valueLimit, store.capacity);
      var _, noBlock := SetString(k, text, true);
      var ok, halted := WellCommitAndReboot();
      ghost var before := buffer[..];
      var overrun;
      length, overrun := GetString(k, buffer);
      StringRoundTrip(defaults[k], text, before);
    }

    /** The same as StringSurvivesReboot for the scalar types whose getter works, which never
        need a block. */
    method ScalarSurvivesReboot(
        k: nat, api: Kind, word: seq<Byte>, answers: seq<FileAnswer>, loads: seq<ReadAnswer>, grants: seq<bool>)
      returns (halted: bool, got: seq<Byte>, success: bool)
      requires Valid() && Synced(store.State()) && |answers| == |loads| == |grants| == |defaults|
      requires k < |defaults| && defaults[k].kind == api
      requires IsScalar(api) && api != UBaseT && |word| == 4
      modifies store
      ensures halted <==>
              BootHalts(Recommitted(SetState(old(store.State()), k, Value(api, word)), old(store.Files()), answers),
                        loads, grants, store.valueLimit, store.capacity)
      ensures !halted ==> Valid()
      ensures !halted && WriteOf(answers[k]).effect.Stored? && loads[k].Readable? ==> success && got == word
    {
      hide BootHalts, Recommitted;
      got, success := [], false;
      ghost var s := store.State();
      var _, _ := SetScalar(k, api, word, false);
      ScalarRoundTrip(api, defaults[k], s, k, word);
      var ok;
      ok, halted := CommitAndReboot(answers, loads, grants);
      if !halted {
        got, success := GetScalar(k, api);
      }
    }

    /** The same as StringSurvives for these types. */
    method ScalarSurvives(k: nat, api: Kind, word: seq<Byte>) returns (got: seq<Byte>, success: bool)
      requires Valid() && Synced(store.State()) && k < |defaults| && defaults[k].kind == api
      requires IsScalar(api) && api != UBaseT && |word| == 4 < store.valueLimit
      requires OthersLoad(store.State(), store.Files(), k, store.valueLimit, store.capacity)
      modifies store
      ensures Valid() && success && got == word
    {
      hide AllLoad, OthersLoad;
      ghost var s, m := store.State(), store.Files();
      SetLoads(s, m, k, Value(api, word), store.valueLimit, store.capacity);
      var _, _ := SetScalar(k, api, word, false);
      ScalarRoundTrip(api, defaults[k], s, k, word);
      var ok, halted := WellCommitAndReboot();
      got, success := GetScalar(k, api);
    }
  }
}
