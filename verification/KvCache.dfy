/** The RAM cache in front of the key-value files: entries whose data lives inside the
    entry or in a heap block, rewritten in place. */
module KvCache {
  import opened Basics
  import opened KvFormat
  import opened KvSpec

  /** sizeof( void * ) on the target. */
  const POINTER_SIZE := 4

  /** The union of an entry: four bytes of data, or a pointer to a heap block. */
  datatype Word = Raw(bytes: seq<Byte>) | Ptr(addr: nat)

  const NULL: nat := 0
  const ZERO := Raw([0, 0, 0, 0])

  /** KVStoreCacheEntry_t; `kind` is None for KV_TYPE_NONE. */
  datatype Entry = Entry(kind: Option<Kind>, length: nat, word: Word, pending: bool)

  const BLANK := Entry(None, 0, ZERO, false)

  type Heap = map<nat, seq<Byte>>

  /** Short data is inline; longer data has a block at least as long. */
  predicate EntryOk(e: Entry, heap: Heap) {
    && (e.kind.Some? ==> e.length > 0)
    && (e.pending ==> e.kind.Some?)
    && e.length < SIZE_LIMIT
    && match e.word
       case Raw(b) => |b| == POINTER_SIZE && e.length <= POINTER_SIZE
       case Ptr(a) => a in heap && e.length > POINTER_SIZE && |heap[a]| >= e.length
  }

  /** The bytes a reader of the entry sees. */
  function Data(e: Entry, heap: Heap): seq<Byte>
    requires EntryOk(e, heap)
  {
    if e.word.Raw? then e.word.bytes[..e.length] else heap[e.word.addr][..e.length]
  }

  function LiveOf(e: Entry, heap: Heap): Option<Value>
    requires EntryOk(e, heap)
  {
    if e.kind.None? then None else Some(Value(e.kind.value, Data(e, heap)))
  }

  /** All entries are sound and no two share a block. */
  predicate CacheOk(cache: seq<Entry>, heap: Heap) {
    && NULL !in heap
    && (forall i :: 0 <= i < |cache| ==> EntryOk(cache[i], heap))
    && forall i, j :: 0 <= i < j < |cache| && cache[i].word.Ptr? && cache[j].word.Ptr? ==>
         cache[i].word.addr != cache[j].word.addr
  }

  ghost predicate FilesOk(files: map<nat, seq<Byte>>, n: nat) {
    forall k :: k in files ==> k < n && Written(files[k])
  }

  function DiskOf(files: map<nat, seq<Byte>>, k: nat): Option<Value> {
    ValueOf(FileOf(files, k))
  }

  ghost function Abstract(cache: seq<Entry>, heap: Heap, files: map<nat, seq<Byte>>): State
    requires CacheOk(cache, heap)
  {
    State(seq(|cache|, i requires 0 <= i < |cache| => LiveOf(cache[i], heap)),
          seq(|cache|, i requires 0 <= i < |cache| => DiskOf(files, i)),
          set i | 0 <= i < |cache| && cache[i].pending)
  }

  /** Blocks that some entry points to. */
  ghost function Owned(cache: seq<Entry>): set<nat> {
    set i | 0 <= i < |cache| && cache[i].word.Ptr? :: cache[i].word.addr
  }

  /** `p` came from a request for `n` bytes. */
  predicate Allocated(before: Heap, after: Heap, p: nat, n: nat) {
    if p == NULL then after == before
    else
      && p !in before && after.Keys == before.Keys + {p} && |after[p]| == n
      && forall a :: a in before ==> after[a] == before[a]
  }

  /** The heap changed at most at the block of the old entry and at new addresses. */
  ghost predicate OthersKept(e: Entry, before: Heap, after: Heap) {
    forall a :: a in before && !(e.word.Ptr? && e.word.addr == a) ==> a in after && after[a] == before[a]
  }

  /** The new entry uses the old entry's block or one nobody had. */
  ghost predicate BlockIsOwn(e: Entry, e': Entry, before: Heap) {
    e'.word.Ptr? ==> (e.word.Ptr? && e'.word.addr == e.word.addr) || e'.word.addr !in before
  }

  /** The entry is ready to receive `data`, or already holds it. */
  ghost predicate Prepared(was: Entry, before: Heap, e: Entry, after: Heap, kind: Kind, data: seq<Byte>)
    requires EntryOk(was, before)
  {
    && e.kind == Some(kind) && e.length == |data|
    && OthersKept(was, before, after) && BlockIsOwn(was, e, before)
    && e.pending == (was.pending || LiveOf(was, before) != Some(Value(kind, data)))
    && (!e.pending ==> e == was && after == before)
    && (e.word.Raw? ==> |e.word.bytes| == POINTER_SIZE)
    && (|data| > POINTER_SIZE ==>
          e.word.Ptr? && (e.word.addr != NULL ==> e.word.addr in after && |after[e.word.addr]| >= |data|))
  }

  /** What is left of the heap once the entry is prepared, unless memory ran out. */
  predicate Accounted(was: Entry, before: Heap, e: Entry, after: Heap, n: nat) {
    && (n <= POINTER_SIZE ==> after.Keys == before.Keys)
    && (n > POINTER_SIZE && e.word != Ptr(NULL) ==>
          && after.Keys == before.Keys - Freed(was, n) + Held(e)
          && (was.kind.Some? && n <= was.length ==> e.word == was.word)
          && (was.kind.None? ==> e.word.Ptr? && e.word.addr !in before))
  }

  /** The outcome of fitting the entry's buffer to `n` bytes. */
  ghost predicate Resized(was: Entry, before: Heap, e: Entry, after: Heap, n: nat) {
    && e == was.(length := n, word := e.word) && NULL !in after
    && (n <= was.length ==> e.word == was.word && after == before)
    && (n > was.length && n <= POINTER_SIZE ==> e.word == ZERO && after == before)
    && (n > was.length && n > POINTER_SIZE ==> ResizedBlock(was, before, e, after, n))
  }

  ghost predicate ResizedBlock(was: Entry, before: Heap, e: Entry, after: Heap, n: nat) {
    && e.word.Ptr? && OthersKept(was, before, after) && BlockIsOwn(was, e, before)
    && (e.word.addr != NULL ==>
          && e.word.addr in after && |after[e.word.addr]| == n
          && after.Keys == before.Keys - (if was.length > POINTER_SIZE then Held(was) else {}) + Held(e))
  }

  /** The outcome of giving an untyped entry a buffer of `n` bytes. */
  ghost predicate Buffered(was: Entry, before: Heap, e: Entry, after: Heap, n: nat) {
    && e == was.(length := n, word := e.word) && NULL !in after
    && (n <= POINTER_SIZE ==> after == before && e.word == ZERO)
    && (n > POINTER_SIZE ==> e.word.Ptr? && Allocated(before, after, e.word.addr, n))
  }

  lemma PreparedNew(was: Entry, before: Heap, e: Entry, after: Heap, kind: Kind, data: seq<Byte>)
    requires EntryOk(was, before) && was.kind.None? && NULL !in before && |data| > 0
    requires Buffered(was, before, e, after, |data|)
    ensures Prepared(was, before, e.(kind := Some(kind), pending := true), after, kind, data)
    ensures Accounted(was, before, e.(kind := Some(kind), pending := true), after, |data|)
  {
  }

  lemma PreparedResized(was: Entry, before: Heap, e: Entry, after: Heap, kind: Kind, data: seq<Byte>)
    requires EntryOk(was, before) && was.kind.Some? && NULL !in before && |data| != was.length
    requires Resized(was, before, e, after, |data|)
    ensures Prepared(was, before, e.(kind := Some(kind), pending := true), after, kind, data)
    ensures Accounted(was, before, e.(kind := Some(kind), pending := true), after, |data|)
  {
    EntryParts(was, before);
  }

  lemma PreparedInPlace(was: Entry, heap: Heap, kind: Kind, data: seq<Byte>, same: bool)
    requires EntryOk(was, heap) && was.kind.Some? && NULL !in heap && |data| == was.length
    requires same <==> LiveOf(was, heap) == Some(Value(kind, data))
    ensures Prepared(was, heap, was.(kind := Some(kind), pending := was.pending || !same), heap, kind, data)
    ensures Accounted(was, heap, was.(kind := Some(kind), pending := was.pending || !same), heap, |data|)
  {
    EntryParts(was, heap);
  }

  lemma CacheParts(cache: seq<Entry>, heap: Heap, k: nat)
    requires CacheOk(cache, heap) && k < |cache|
    ensures NULL !in heap && EntryOk(cache[k], heap)
  {
  }

  lemma EntryParts(e: Entry, heap: Heap)
    requires EntryOk(e, heap)
    ensures |Data(e, heap)| == e.length
    ensures e.word.Raw? ==> |e.word.bytes| == POINTER_SIZE && e.length <= POINTER_SIZE
    ensures e.word.Ptr? ==> e.word.addr in heap && e.length > POINTER_SIZE && |heap[e.word.addr]| >= e.length
  {
  }

  lemma EntryReplaced(cache: seq<Entry>, heap: Heap, k: nat, e: Entry, heap': Heap)
    requires CacheOk(cache, heap) && k < |cache|
    requires NULL !in heap' && EntryOk(e, heap')
    requires OthersKept(cache[k], heap, heap') && BlockIsOwn(cache[k], e, heap)
    ensures CacheOk(cache[k := e], heap')
    ensures forall j :: 0 <= j < |cache| && j != k ==> LiveOf(cache[k := e][j], heap') == LiveOf(cache[j], heap)
  {
    var cache' := cache[k := e];
    forall j | 0 <= j < |cache| && j != k
      ensures EntryOk(cache'[j], heap') && LiveOf(cache'[j], heap') == LiveOf(cache[j], heap)
    {
      assert cache'[j] == cache[j] && EntryOk(cache[j], heap);
    }
  }

  lemma SetRefines(cache: seq<Entry>, heap: Heap, files: map<nat, seq<Byte>>, k: nat, e: Entry, heap': Heap, v: Value)
    requires CacheOk(cache, heap) && k < |cache|
    requires NULL !in heap' && EntryOk(e, heap')
    requires OthersKept(cache[k], heap, heap') && BlockIsOwn(cache[k], e, heap)
    requires LiveOf(e, heap') == Some(v)
    requires e.pending == (cache[k].pending || LiveOf(cache[k], heap) != Some(v))
    ensures CacheOk(cache[k := e], heap')
    ensures Abstract(cache[k := e], heap', files) == SetState(Abstract(cache, heap, files), k, v)
  {
    EntryReplaced(cache, heap, k, e, heap');
    var s, t := Abstract(cache, heap, files), Abstract(cache[k := e], heap', files);
    assert t.live == s.live[k := Some(v)];
    assert t.disk == s.disk;
    assert t.pending == if e.pending then s.pending + {k} else s.pending;
  }

  function Held(e: Entry): set<nat> {
    if e.word.Ptr? then {e.word.addr} else {}
  }

  /** The block a write of `n` bytes over entry `e` gives back to the heap. */
  function Freed(e: Entry, n: nat): set<nat> {
    if e.kind.Some? && n > e.length then Held(e) else {}
  }

  /** The block a write of `n` bytes over entry `e` loses: a heap value shrunk to inline
      size, or a block left by a failed read at start-up. */
  function LostBy(e: Entry, n: nat): set<nat> {
    if e.kind.None? || n <= POINTER_SIZE then Held(e) else {}
  }

  /** A write of `n` bytes over entry `e` cannot reuse the entry's buffer. */
  predicate NewBuffer(e: Entry, n: nat) {
    e.kind.None? || n > e.length
  }

  lemma LeakAccount(cache: seq<Entry>, heap: Heap, k: nat, e: Entry, heap': Heap)
    requires CacheOk(cache, heap) && k < |cache|
    requires CacheOk(cache[k := e], heap') && BlockIsOwn(cache[k], e, heap)
    requires heap'.Keys == heap.Keys - Freed(cache[k], e.length) + Held(e)
    requires e.word.Ptr? && cache[k].kind.None? ==> e.word.addr !in heap
    requires e.word.Ptr? && cache[k].kind.Some? && e.length <= cache[k].length ==> e.word == cache[k].word
    ensures heap'.Keys - Owned(cache[k := e]) == heap.Keys - Owned(cache) + LostBy(cache[k], e.length)
  {
    var cache' := cache[k := e];
    assert forall i :: 0 <= i < |cache| && i != k ==> cache'[i] == cache[i];
    forall a
      ensures a in Owned(cache') <==> (a in Owned(cache) && a !in Held(cache[k])) || a in Held(e)
    {
      if a in Owned(cache') {
        var i :| 0 <= i < |cache'| && cache'[i].word.Ptr? && cache'[i].word.addr == a;
        assert i == k || cache[i] == cache'[i];
      }
      if a in Owned(cache) && a !in Held(cache[k]) {
        var i :| 0 <= i < |cache| && cache[i].word.Ptr? && cache[i].word.addr == a;
        assert cache'[i] == cache[i];
      }
      if a in Held(e) {
        assert cache'[k] == e;
      }
    }
    assert Held(cache[k]) <= Owned(cache) by {
      if cache[k].word.Ptr? { assert cache[k].word.addr in Owned(cache); }
    }
    assert EntryOk(cache[k], heap) && EntryOk(cache'[k], heap') && Held(cache[k]) <= heap.Keys;
    assert Owned(cache') == Owned(cache) - Held(cache[k]) + Held(e);
    assert e.word.Ptr? && e.word.addr !in heap ==> e.word.addr !in Owned(cache) by { OwnedInHeap(cache, heap); }
  }

  lemma OwnedInHeap(cache: seq<Entry>, heap: Heap)
    requires CacheOk(cache, heap)
    ensures Owned(cache) <= heap.Keys
  {
    forall a | a in Owned(cache)
      ensures a in heap
    {
      var i :| 0 <= i < |cache| && cache[i].word.Ptr? && cache[i].word.addr == a;
      assert EntryOk(cache[i], heap);
    }
  }

  // ---------------------------------------------------------------------------
  // One file write
  // ---------------------------------------------------------------------------

  /** lfs_file_open to write; a refused open may still have created the file. */
  datatype Open = Opened | Refused | RefusedCreated

  /** What the medium holds after lfs_file_sync and lfs_file_close: all that was written, or,
      if they failed, what it held when the file was opened or a part of what was written. */
  datatype Flush = Flushed | Stale | Cut(n: nat)

  /** The file system's answers during one call of xprvWriteValueToImpl. `header` and `data`
      are None for a complete lfs_file_write, else the bytes taken before it failed;
      `removed` says whether lfs_remove works. */
  datatype FileAnswer = FileAnswer(open: Open, header: Option<nat>, data: Option<nat>, flush: Flush, removed: bool)

  /** What xprvWriteValueToImpl returns: the results of sync and close are ignored. */
  predicate Succeeds(a: FileAnswer) {
    a.open.Opened? && a.header.None? && a.data.None?
  }

  function ProperPrefix(s: seq<Byte>, n: nat): seq<Byte> {
    if s == [] then [] else if n < |s| then s[..n] else s[..|s| - 1]
  }

  /** The part of `data` that a write takes. */
  function Part(data: seq<Byte>, fault: Option<nat>): seq<Byte> {
    if fault.None? then data else ProperPrefix(data, fault.value)
  }

  /** What the write calls hand over. */
  function HandedOver(v: Value, a: FileAnswer): seq<Byte>
    requires Storable(v)
  {
    var header := Header(v.kind, |v.bytes|);
    if a.header.Some? then Part(header, a.header) else header + Part(v.bytes, a.data)
  }

  function OnMedium(was: Option<seq<Byte>>, handed: seq<Byte>, flush: Flush): seq<Byte> {
    match flush
    case Flushed => handed
    case Stale => if was.Some? then was.value else []
    case Cut(n) => ProperPrefix(handed, n)
  }

  /** The file of a key after one write; None for no file. */
  function FileAfter(was: Option<seq<Byte>>, v: Value, a: FileAnswer): Option<seq<Byte>>
    requires Storable(v)
  {
    match a.open
    case Refused => was
    case RefusedCreated => if was.Some? then was else Some([])
    case Opened =>
      if Succeeds(a) || !a.removed then Some(OnMedium(was, HandedOver(v, a), a.flush)) else None
  }

  function FileOf(files: map<nat, seq<Byte>>, k: nat): Option<seq<Byte>> {
    if k in files then Some(files[k]) else None
  }

  /** The write neither changes nor removes a file that is there. */
  predicate LeavesOld(a: FileAnswer) {
    !a.open.Opened? || (a.flush.Stale? && (Succeeds(a) || !a.removed))
  }

  /** One write as the two-map store sees it. */
  function WriteOf(a: FileAnswer): (w: Write)
    ensures Legal(w) && (w.reported <==> Succeeds(a))
  {
    Write(Succeeds(a), if Succeeds(a) && a.flush.Flushed? then Stored else if LeavesOld(a) then OldKept else Gone)
  }

  /** All that can come of a write does: each outcome of the two-map store has its answers. */
  lemma AnswerFor(w: Write) returns (a: FileAnswer)
    requires Legal(w)
    ensures WriteOf(a) == w
  {
    var flush := match w.effect case Stored => Flushed case OldKept => Stale case Gone => Cut(HEADER_SIZE);
    a := FileAnswer(Opened, None, if w.reported then None else Some(0), flush, false);
  }

  lemma HandedOverIs(v: Value, a: FileAnswer)
    requires Storable(v)
    ensures if a.header.None? && a.data.None? then HandedOver(v, a) == Encode(v) else HandedOver(v, a) < Encode(v)
  {
  }

  lemma CutDecodesToNone(v: Value, f: seq<Byte>, n: nat)
    requires Storable(v) && f <= Encode(v)
    ensures ProperPrefix(f, n) < Encode(v) && Decode(ProperPrefix(f, n)) == None
  {
    assert |Encode(v)| > 0;
    CutShortDecodesToNone(v, ProperPrefix(f, n));
  }

  /** One file write, exactly: what can be read back afterwards, whatever the answers were.
      In particular, after a reported success it is the new value if and only if sync and
      close worked, or they left an old file that held this value already. */
  lemma FileEffect(was: Option<seq<Byte>>, v: Value, a: FileAnswer)
    requires Storable(v) && (was.Some? ==> Written(was.value))
    ensures var now := FileAfter(was, v, a);
            && (now.Some? ==> Written(now.value))
            && ValueOf(now) == DiskAfter(Some(v), ValueOf(was), WriteOf(a).effect)
  {
    hide Decode, Encode, HandedOver, ProperPrefix, Written;
    WrittenPrefix(v, []);
    EmptyDecodesToNone();
    HandedOverIs(v, a);
    var handed := HandedOver(v, a);
    WrittenPrefix(v, handed);
    if handed == Encode(v) {
      DecodeEncode(v);
    } else {
      CutShortDecodesToNone(v, handed);
    }
    if a.flush.Cut? {
      CutDecodesToNone(v, handed, a.flush.n);
      WrittenPrefix(v, ProperPrefix(handed, a.flush.n));
    }
  }

  lemma WrittenPrefix(v: Value, f: seq<Byte>)
    requires Storable(v) && f <= Encode(v)
    ensures Written(f)
  {
  }

  lemma EmptyDecodesToNone()
    ensures Decode([]) == None
  {
  }

  function ValueOf(f: Option<seq<Byte>>): Option<Value> {
    if f.Some? then Decode(f.value) else None
  }

  // ---------------------------------------------------------------------------
  // Start-up
  // ---------------------------------------------------------------------------

  /** How reading one file goes: as it should, or it fails at lfs_stat, before the header is
      read, or after that. */
  datatype ReadAnswer = Readable | NoStat | NoHeader | NoData

  /** The buffer size that start-up computes from the file size, with wrap-around. */
  function BufferSize(f: seq<Byte>): nat {
    (|f| - HEADER_SIZE) % SIZE_LIMIT
  }

  /** No block of `n` bytes, where one is needed. */
  predicate NoBlock(n: nat, granted: bool, capacity: nat) {
    n > POINTER_SIZE && (!granted || n > capacity)
  }

  /** Start-up fails an assertion at this file. */
  predicate HaltsOn(f: seq<Byte>, r: ReadAnswer, granted: bool, limit: nat, capacity: nat) {
    && !r.NoStat? && |f| != HEADER_SIZE
    && (NoBlock(BufferSize(f), granted, capacity) || (|f| > HEADER_SIZE && !r.NoHeader? && HeaderLength(f) >= limit))
  }

  /** A file whose header claims a length that start-up asserts against. */
  predicate TooLong(f: seq<Byte>, limit: nat) {
    |f| > HEADER_SIZE && HeaderLength(f) >= limit
  }

  /** With a readable file, memory at hand and a heap that can hold every permitted value,
      start-up halts if and only if the file claims too long a value or is shorter than a
      header. */
  lemma HaltsIff(f: seq<Byte>, limit: nat, capacity: nat)
    requires Written(f) && limit <= capacity + 1 && capacity < SIZE_LIMIT - HEADER_SIZE
    ensures HaltsOn(f, Readable, true, limit, capacity) <==> TooLong(f, limit) || |f| < HEADER_SIZE
  {
    WrittenSize(f);
    if |f| > HEADER_SIZE {
      WrittenHeader(f);
      hide Written, HeaderLength;
      assert BufferSize(f) == |f| - HEADER_SIZE;
    } else if |f| < HEADER_SIZE {
      hide Written, HeaderLength;
      assert BufferSize(f) == |f| - HEADER_SIZE + SIZE_LIMIT;
    }
  }

  /** A file shorter than a header halts start-up whenever it can be seen: the wrapped-around
      length is more than the heap can have. */
  lemma StubHalts(f: seq<Byte>, r: ReadAnswer, granted: bool, limit: nat, capacity: nat)
    requires |f| < HEADER_SIZE && capacity < SIZE_LIMIT - HEADER_SIZE
    ensures HaltsOn(f, r, granted, limit, capacity) <==> !r.NoStat?
  {
  }

  /** A write that fails inside the header leaves such a file, if it is flushed and cannot be
      removed; so does a reported success on a new key whose sync and close fail. */
  lemma StubLeft(was: Option<seq<Byte>>, v: Value, a: FileAnswer)
    requires Storable(v) && a.open.Opened?
    requires || (a.header.Some? && a.flush.Flushed? && !a.removed)
             || (Succeeds(a) && a.flush.Stale? && was.None?)
    ensures FileAfter(was, v, a).Some? && |FileAfter(was, v, a).value| < HEADER_SIZE
  {
  }

  lemma WrittenSize(f: seq<Byte>)
    requires Written(f)
    ensures |f| < HEADER_SIZE + SIZE_LIMIT
  {
  }

  /** Only entry `k` was filled, without a pending change. */
  ghost predicate Loaded(cache: seq<Entry>, heap: Heap, cache': seq<Entry>, heap': Heap, k: nat)
    requires k < |cache|
  {
    && |cache'| == |cache| && cache' == cache[k := cache'[k]] && !cache'[k].pending
    && OthersKept(cache[k], heap, heap') && BlockIsOwn(cache[k], cache'[k], heap)
  }

  lemma LoadedKeeps(cache: seq<Entry>, heap: Heap, cache': seq<Entry>, heap': Heap, k: nat)
    requires CacheOk(cache, heap) && CacheOk(cache', heap') && k < |cache|
    requires Loaded(cache, heap, cache', heap', k)
    ensures |cache'| == |cache| && !cache'[k].pending
    ensures forall j :: 0 <= j < |cache| && j != k ==>
              cache'[j] == cache[j] && LiveOf(cache'[j], heap') == LiveOf(cache[j], heap)
  {
    EntryReplaced(cache, heap, k, cache'[k], heap');
  }

  lemma FreshAddress(used: set<nat>)
    ensures exists p: nat :: p != NULL && p !in used
  {
    var bound := Above(used);
    assert bound != NULL && bound !in used;
  }

  lemma {:induction false} Above(used: set<nat>) returns (bound: nat)
    ensures bound > 0 && forall p :: p in used ==> p < bound
  {
    if used == {} {
      bound := 1;
    } else {
      var p :| p in used;
      var b := Above(used - {p});
      bound := if p < b then b else p + 1;
      assert forall q :: q in used ==> q == p || q in used - {p};
    }
  }

  // ---------------------------------------------------------------------------
  // Operations and the events of the two-map store
  // ---------------------------------------------------------------------------

  function Writes(answers: seq<FileAnswer>): (w: seq<Write>)
    ensures |w| == |answers|
  {
    seq(|answers|, k requires 0 <= k < |answers| => WriteOf(answers[k]))
  }

  function Unread(loads: seq<ReadAnswer>): set<nat> {
    set k: nat | k < |loads| && !loads[k].Readable?
  }

  /** One call with everything that memory and file system answer during it. */
  datatype Operation =
    | WriteOp(key: nat, value: Value, granted: bool)
    | CommitOp(answers: seq<FileAnswer>)
    | BootOp(loads: seq<ReadAnswer>, grants: seq<bool>)

  predicate OperationFits(op: Operation, n: nat) {
    match op
    case WriteOp(k, v, _) => k < n && Storable(v)
    case CommitOp(answers) => |answers| == n
    case BootOp(loads, grants) => |loads| == |grants| == n
  }

  function EventOf(op: Operation): Event {
    match op
    case WriteOp(k, v, _) => Set(k, v)
    case CommitOp(answers) => KvSpec.Event.Commit(Writes(answers))
    case BootOp(loads, _) => Reboot(Unread(loads))
  }

  function Events(ops: seq<Operation>): (es: seq<Event>)
    ensures |es| == |ops|
  {
    seq(|ops|, i requires 0 <= i < |ops| => EventOf(ops[i]))
  }

  lemma EventsFit(ops: seq<Operation>, n: nat)
    requires forall i :: 0 <= i < |ops| ==> OperationFits(ops[i], n)
    ensures AllFit(Events(ops), n)
  {
    hide WriteOf;
  }

  /** After a commit that returned true, a reboot answers every key as before if and only if
      sync and close worked for every file written, except where their failure left an old
      file that already held the value. */
  lemma ReportedDurableIff(s: State, answers: seq<FileAnswer>)
    requires Synced(s) && |answers| == |s.live| && Reported(s, Writes(answers))
    ensures RebootState(CommitState(s, Writes(answers)), {}).live == s.live <==>
            forall k :: 0 <= k < |answers| && k in s.pending ==>
              answers[k].flush.Flushed? || (answers[k].flush.Stale? && s.disk[k] == s.live[k])
  {
    var writes := Writes(answers);
    CommittedSurvivesReboot(s, [], writes);
    forall k | 0 <= k < |answers| && k in s.pending
      ensures Secured(s, writes, k) <==> answers[k].flush.Flushed? || (answers[k].flush.Stale? && s.disk[k] == s.live[k])
    {
      assert writes[k].reported && Succeeds(answers[k]);
    }
  }

  /** Every event of the two-map store is one that some operation has. */
  lemma OperationFor(e: Event, n: nat) returns (op: Operation)
    requires Fits(e, n) && (e.Set? ==> Storable(e.value)) && (e.Reboot? ==> forall k :: k in e.unread ==> k < n)
    ensures OperationFits(op, n) && EventOf(op) == e
  {
    match e
    case Set(k, v) => op := WriteOp(k, v, true);
    case Commit(writes) =>
      var answers := AnswersFor(writes);
      assert Writes(answers) == writes;
      op := CommitOp(answers);
    case Reboot(unread) =>
      var loads := seq(n, k => if k in unread then NoData else Readable);
      assert Unread(loads) == unread;
      op := BootOp(loads, seq(n, _ => true));
  }

  lemma {:induction false} AnswersFor(writes: seq<Write>) returns (answers: seq<FileAnswer>)
    requires forall k :: 0 <= k < |writes| ==> Legal(writes[k])
    ensures |answers| == |writes| && forall k :: 0 <= k < |writes| ==> WriteOf(answers[k]) == writes[k]
  {
    if writes == [] {
      answers := [];
    } else {
      var n := |writes| - 1;
      var first := AnswersFor(writes[..n]);
      var last := AnswerFor(writes[n]);
      answers := first + [last];
      assert forall k :: 0 <= k < n ==> writes[..n][k] == writes[k];
    }
  }

  // ---------------------------------------------------------------------------
  // Files and halts along a run
  // ---------------------------------------------------------------------------

  /** The file of each key, None for no file. */
  type Medium = seq<Option<seq<Byte>>>

  function MediumOf(files: map<nat, seq<Byte>>, n: nat): (m: Medium)
    ensures |m| == n
    ensures forall k :: 0 <= k < n ==> m[k] == FileOf(files, k)
  {
    seq(n, k requires 0 <= k < n => FileOf(files, k))
  }

  /** The files after a commit. */
  function Recommitted(s: State, files: Medium, answers: seq<FileAnswer>): (m: Medium)
    requires |s.live| == |files| == |answers|
    ensures |m| == |files|
  {
    seq(|files|, k requires 0 <= k < |files| =>
      if k in s.pending && s.live[k].Some? && Storable(s.live[k].value)
      then FileAfter(files[k], s.live[k].value, answers[k]) else files[k])
  }

  /** Some file makes start-up halt. */
  predicate BootHalts(files: Medium, loads: seq<ReadAnswer>, grants: seq<bool>, limit: nat, capacity: nat)
    requires |files| == |loads| == |grants|
  {
    exists k :: 0 <= k < |files| && files[k].Some? && HaltsOn(files[k].value, loads[k], grants[k], limit, capacity)
  }

  /** Setting `n` bytes over a live value takes a block that cannot be had. */
  predicate SetHalts(live: Option<Value>, n: nat, granted: bool, capacity: nat) {
    (live.None? || n > |live.value.bytes|) && NoBlock(n, granted, capacity)
  }

  predicate OperationHalts(s: State, files: Medium, op: Operation, limit: nat, capacity: nat)
    requires |s.live| == |files| && OperationFits(op, |files|)
  {
    match op
    case WriteOp(k, v, granted) => SetHalts(s.live[k], |v.bytes|, granted, capacity)
    case CommitOp(_) => false
    case BootOp(loads, grants) => BootHalts(files, loads, grants, limit, capacity)
  }

  predicate AllOpsFit(ops: seq<Operation>, n: nat) {
    forall i :: 0 <= i < |ops| ==> OperationFits(ops[i], n)
  }

  ghost function StateAfter(s: State, ops: seq<Operation>): (t: State)
    requires WellFormed(s) && AllOpsFit(ops, |s.live|)
    ensures WellFormed(t) && |t.live| == |s.live|
  {
    EventsFit(ops, |s.live|);
    After(s, Events(ops))
  }

  ghost function FilesAfter(s: State, files: Medium, ops: seq<Operation>): (m: Medium)
    requires WellFormed(s) && AllOpsFit(ops, |s.live|) && |files| == |s.live|
    ensures |m| == |files|
  {
    if ops == [] then files
    else
      var n := |ops| - 1;
      var m := FilesAfter(s, files, ops[..n]);
      if ops[n].CommitOp? then Recommitted(StateAfter(s, ops[..n]), m, ops[n].answers) else m
  }

  /** Operation `i` of the run, on the state and the files that the ones before it leave,
      halts. */
  ghost predicate HaltsAt(s: State, files: Medium, ops: seq<Operation>, i: nat, limit: nat, capacity: nat)
    requires WellFormed(s) && AllOpsFit(ops, |s.live|) && |files| == |s.live| && i < |ops|
  {
    OperationHalts(StateAfter(s, ops[..i]), FilesAfter(s, files, ops[..i]), ops[i], limit, capacity)
  }

  lemma RunStep(s: State, files: Medium, ops: seq<Operation>, i: nat)
    requires WellFormed(s) && AllOpsFit(ops, |s.live|) && |files| == |s.live| && i < |ops|
    ensures Fits(EventOf(ops[i]), |s.live|)
    ensures StateAfter(s, ops[..i + 1]) == Next(StateAfter(s, ops[..i]), EventOf(ops[i]))
    ensures FilesAfter(s, files, ops[..i + 1]) ==
            if ops[i].CommitOp? then Recommitted(StateAfter(s, ops[..i]), FilesAfter(s, files, ops[..i]), ops[i].answers)
            else FilesAfter(s, files, ops[..i])
  {
    hide WriteOf, Recommitted, Next;
    var front := ops[..i];
    EventsFit(ops, |s.live|);
    assert Fits(Events(ops)[i], |s.live|);
    assert ops[..i + 1][..i] == front && ops[..i + 1][i] == ops[i];
    assert Events(ops[..i + 1]) == Events(front) + [EventOf(ops[i])];
    EventsFit(front, |s.live|);
    AfterStep(s, Events(front), EventOf(ops[i]));
  }

  // ---------------------------------------------------------------------------
  // When all goes well
  // ---------------------------------------------------------------------------

  const ALL_WELL := FileAnswer(Opened, None, None, Flushed, true)

  /** The files hold what the persistent map says. */
  ghost predicate MediumOk(s: State, files: Medium) {
    && |files| == |s.live| == |s.disk|
    && forall k :: 0 <= k < |files| ==>
         && s.disk[k] == ValueOf(files[k]) && (files[k].Some? ==> Written(files[k].value))
         && (s.live[k].Some? ==> Storable(s.live[k].value))
  }

  /** A value too long to be loaded. */
  predicate TooBig(v: Value, limit: nat, capacity: nat) {
    |v.bytes| >= limit || (|v.bytes| > POINTER_SIZE && |v.bytes| > capacity)
  }

  /** A key that makes start-up halt even if all goes well: its value is too big, or it has no
      value but a file that halts. */
  predicate Unloadable(live: Option<Value>, file: Option<seq<Byte>>, limit: nat, capacity: nat) {
    if live.Some? then TooBig(live.value, limit, capacity)
    else file.Some? && HaltsOn(file.value, Readable, true, limit, capacity)
  }

  predicate AllLoad(s: State, files: Medium, limit: nat, capacity: nat)
    requires |s.live| == |files|
  {
    forall k :: 0 <= k < |files| ==> !Unloadable(s.live[k], files[k], limit, capacity)
  }

  /** All keys load, once `k` is set to a value that does. */
  predicate OthersLoad(s: State, files: Medium, k: nat, limit: nat, capacity: nat)
    requires |s.live| == |files|
  {
    forall j :: 0 <= j < |files| && j != k ==> !Unloadable(s.live[j], files[j], limit, capacity)
  }

  lemma SetLoads(s: State, files: Medium, k: nat, v: Value, limit: nat, capacity: nat)
    requires |s.live| == |files| && k < |files|
    requires OthersLoad(s, files, k, limit, capacity) && !TooBig(v, limit, capacity)
    ensures AllLoad(SetState(s, k, v), files, limit, capacity)
  {
    hide HaltsOn, TooBig;
  }

  /** A whole file halts start-up exactly if its value is too big. */
  lemma WholeFileHalts(v: Value, limit: nat, capacity: nat)
    requires Storable(v)
    ensures HaltsOn(Encode(v), Readable, true, limit, capacity) <==> TooBig(v, limit, capacity)
  {
    HeaderFields(v.kind, |v.bytes|, v.bytes);
  }

  /** The file of a key after a commit in which all went well. */
  lemma WellCommitted(s: State, files: Medium, answers: seq<FileAnswer>, k: nat)
    requires Synced(s) && MediumOk(s, files) && |answers| == |files| && k < |files| && answers[k] == ALL_WELL
    ensures Recommitted(s, files, answers)[k] == if s.live[k].Some? then Some(Encode(s.live[k].value)) else files[k]
  {
    hide Encode, Decode, Written;
    if s.live[k].Some? {
      HandedOverIs(s.live[k].value, ALL_WELL);
      if k !in s.pending {
        EncodeDecode(files[k].value);
      }
    }
  }

  /** If every write and every read goes well and memory is at hand, start-up halts if and only
      if some key is unloadable. */
  lemma WellBootHalts(
      s: State, files: Medium, answers: seq<FileAnswer>, loads: seq<ReadAnswer>, grants: seq<bool>, limit: nat, capacity: nat)
    requires Synced(s) && MediumOk(s, files) && |answers| == |loads| == |grants| == |files|
    requires forall k :: 0 <= k < |files| ==> answers[k] == ALL_WELL && loads[k] == Readable && grants[k]
    ensures BootHalts(Recommitted(s, files, answers), loads, grants, limit, capacity) <==> !AllLoad(s, files, limit, capacity)
  {
    hide HaltsOn, Encode, Decode, Written, Recommitted, TooBig;
    var now := Recommitted(s, files, answers);
    forall k | 0 <= k < |files|
      ensures (now[k].Some? && HaltsOn(now[k].value, loads[k], grants[k], limit, capacity)) <==>
              Unloadable(s.live[k], files[k], limit, capacity)
    {
      WellCommitted(s, files, answers, k);
      if s.live[k].Some? {
        WholeFileHalts(s.live[k].value, limit, capacity);
      }
    }
  }

  /** The file of an entry after a commit. */
  function Rewritten(e: Entry, heap: Heap, was: Option<seq<Byte>>, a: FileAnswer): Option<seq<Byte>>
    requires EntryOk(e, heap)
  {
    if e.pending then FileAfter(was, Value(e.kind.value, Data(e, heap)), a) else was
  }

  /** The other files stay. */
  lemma OthersStay(before: map<nat, seq<Byte>>, after: map<nat, seq<Byte>>, k: nat)
    requires after - {k} == before - {k}
    ensures forall j :: j != k ==> FileOf(after, j) == FileOf(before, j)
    ensures forall j :: j in after ==> j == k || j in before
  {
    forall j | j != k
      ensures (j in after <==> j in before) && (j in after ==> after[j] == before[j])
    {
      assert j in after <==> j in after - {k};
      assert j in before <==> j in before - {k};
      assert j in after ==> (after - {k})[j] == after[j];
    }
  }

  /** What can be read back after a commit is what the two-map store says. */
  lemma RecommittedEffect(s: State, files: Medium, answers: seq<FileAnswer>)
    requires WellFormed(s) && MediumOk(s, files) && |answers| == |files|
    ensures MediumOk(CommitState(s, Writes(answers)), Recommitted(s, files, answers))
  {
    hide FileAfter, Decode, Written, WriteOf;
    forall k | 0 <= k < |files| && k in s.pending
      ensures var now := Recommitted(s, files, answers)[k];
              && (now.Some? ==> Written(now.value))
              && ValueOf(now) == DiskAfter(s.live[k], s.disk[k], WriteOf(answers[k]).effect)
    {
      FileEffect(files[k], s.live[k].value, answers[k]);
    }
  }

  class Store {
    const valueLimit: nat  // KVSTORE_VAL_MAX_LEN
    const capacity: nat    // the largest block the heap can ever have
    var cache: seq<Entry>
    var heap: Heap
    var files: map<nat, seq<Byte>>

    ghost predicate Valid()
      reads this
    {
      && valueLimit > 0 && capacity < SIZE_LIMIT - HEADER_SIZE
      && CacheOk(cache, heap) && FilesOk(files, |cache|)
    }

    /** The zeroed cache of `n` keys over files that this module wrote. */
    constructor (n: nat, valueLimit: nat, capacity: nat, files: map<nat, seq<Byte>>)
      requires valueLimit > 0 && capacity < SIZE_LIMIT - HEADER_SIZE && FilesOk(files, n)
      ensures Valid() && |cache| == n && this.files == files && this.valueLimit == valueLimit && this.capacity == capacity
      ensures Leaked() == {} && forall k :: 0 <= k < n ==> State().live[k] == None && k !in State().pending
    {
      this.valueLimit, this.capacity, this.files, heap := valueLimit, capacity, files, map[];
      cache := seq(n, _ => BLANK);
    }

    ghost function State(): (s: KvSpec.State)
      requires Valid()
      reads this
      ensures WellFormed(s)
    {
      Abstract(cache, heap, files)
    }

    ghost function Files(): (m: Medium)
      reads this
      ensures |m| == |cache|
    {
      MediumOf(files, |cache|)
    }

    /** Heap blocks that nothing can free any more. */
    ghost function Leaked(): set<nat>
      reads this
    {
      heap.Keys - Owned(cache)
    }

    /** pvPortMalloc: a new block with arbitrary contents, or NULL if memory is short or no
        heap could have that much. */
    method Malloc(n: nat, granted: bool) returns (p: nat)
      requires NULL !in heap
      modifies this`heap
      ensures Allocated(old(heap), heap, p, n)
      ensures p == NULL <==> !granted || n > capacity
      ensures NULL !in heap
    {
      if !granted || n > capacity {
        p := NULL;
      } else {
        FreshAddress(heap.Keys);
        p :| p != NULL && p !in heap;
        var block := new Byte[n];
        heap := heap[p := block[..]];
      }
    }

    /** vAllocateDataBuffer */
    method AllocateDataBuffer(k: nat, n: nat, granted: bool)
      requires k < |cache| && NULL !in heap
      modifies this`heap, this`cache
      ensures |cache| == |old(cache)| && cache == old(cache)[k := cache[k]]
      ensures Buffered(old(cache)[k], old(heap), cache[k], heap, n)
      ensures cache[k].word == Ptr(NULL) <==> NoBlock(n, granted, capacity)
    {
      if n > POINTER_SIZE {
        var p := Malloc(n, granted);
        cache := cache[k := cache[k].(word := Ptr(p), length := n)];
      } else {
        cache := cache[k := cache[k].(word := ZERO, length := n)];
      }
    }

    /** vClearDataBuffer */
    method ClearDataBuffer(k: nat)
      requires k < |cache|
      requires cache[k].length > POINTER_SIZE ==> cache[k].word.Ptr?
      modifies this`heap, this`cache
      ensures cache == old(cache)[k := old(cache)[k].(length := 0, word := ZERO)]
      ensures heap == if old(cache)[k].length > POINTER_SIZE then old(heap) - {old(cache)[k].word.addr} else old(heap)
    {
      if cache[k].length > POINTER_SIZE {
        heap := heap - {cache[k].word.addr};
        cache := cache[k := cache[k].(word := ZERO, length := 0)];
      } else {
        cache := cache[k := cache[k].(length := 0, word := ZERO)];
      }
    }

    /** vReallocDataBuffer: a longer value gets a new buffer, a shorter one keeps the old. */
    method ReallocDataBuffer(k: nat, n: nat, granted: bool)
      requires k < |cache| && NULL !in heap
      requires cache[k].length > POINTER_SIZE ==> cache[k].word.Ptr?
      modifies this`heap, this`cache
      ensures |cache| == |old(cache)| && cache == old(cache)[k := cache[k]]
      ensures Resized(old(cache)[k], old(heap), cache[k], heap, n)
      ensures n > old(cache)[k].length ==> (cache[k].word == Ptr(NULL) <==> NoBlock(n, granted, capacity))
    {
      if n > cache[k].length {
        ClearDataBuffer(k);
        AllocateDataBuffer(k, n, granted);
      } else {
        cache := cache[k := cache[k].(length := n)];
      }
    }

    /** memcpy to pvGetDataWritePtr: into the block if the length says so, else over the
        first bytes of the union, whatever it held. */
    method CopyIn(k: nat, data: seq<Byte>)
      requires k < |cache| && |data| == cache[k].length
      requires cache[k].length > POINTER_SIZE ==>
                 cache[k].word.Ptr? && cache[k].word.addr in heap && |heap[cache[k].word.addr]| >= |data|
      requires cache[k].word.Raw? ==> |cache[k].word.bytes| == POINTER_SIZE
      modifies this`heap, this`cache
      ensures |cache| == |old(cache)|
      ensures cache == old(cache)[k := old(cache)[k].(word := cache[k].word)]
      ensures |data| > POINTER_SIZE ==> cache == old(cache)
      ensures |data| > POINTER_SIZE ==>
                var a := cache[k].word.addr; heap == old(heap)[a := data + old(heap)[a][|data|..]]
      ensures |data| <= POINTER_SIZE ==> heap == old(heap)
      ensures |data| <= POINTER_SIZE ==>
                cache[k].word.Raw? && |cache[k].word.bytes| == POINTER_SIZE && cache[k].word.bytes[..|data|] == data
    {
      if cache[k].length > POINTER_SIZE {
        var a := cache[k].word.addr;
        heap := heap[a := data + heap[a][|data|..]];
      } else {
        var bytes;
        if cache[k].word.Raw? {
          bytes := cache[k].word.bytes;
        } else {
          var pointer := new Byte[POINTER_SIZE];  // the bytes of the address
          bytes := pointer[..];
        }
        cache := cache[k := cache[k].(word := Raw(data + bytes[|data|..]))];
      }
    }

    /** The first half of xprvWriteCacheEntry: find a buffer and decide whether to write. */
    method PrepareEntry(k: nat, kind: Kind, data: seq<Byte>, granted: bool)
      requires Valid() && k < |cache| && 0 < |data| < SIZE_LIMIT
      modifies this`heap, this`cache
      ensures |cache| == |old(cache)| && cache == old(cache)[k := cache[k]] && NULL !in heap
      ensures Prepared(old(cache)[k], old(heap), cache[k], heap, kind, data)
      ensures Accounted(old(cache)[k], old(heap), cache[k], heap, |data|)
      ensures |data| > POINTER_SIZE ==>
                (cache[k].word == Ptr(NULL) <==> NewBuffer(old(cache)[k], |data|) && NoBlock(|data|, granted, capacity))
    {
      hide CacheOk, FilesOk, EntryOk, Resized, Buffered, Prepared, Accounted;
      CacheParts(cache, heap, k);
      EntryParts(cache[k], heap);
      if cache[k].kind.None? {
        AllocateDataBuffer(k, |data|, granted);
        PreparedNew(old(cache)[k], old(heap), cache[k], heap, kind, data);
        cache := cache[k := cache[k].(kind := Some(kind), pending := true)];
      } else if cache[k].length != |data| {
        ReallocDataBuffer(k, |data|, granted);
        PreparedResized(old(cache)[k], old(heap), cache[k], heap, kind, data);
        cache := cache[k := cache[k].(kind := Some(kind), pending := true)];
      } else {
        PreparedInPlace(cache[k], heap, kind, data, cache[k].kind == Some(kind) && Data(cache[k], heap) == data);
        if cache[k].kind != Some(kind) {
          cache := cache[k := cache[k].(kind := Some(kind), pending := true)];
        } else if Data(cache[k], heap) != data {
          cache := cache[k := cache[k].(pending := true)];
        }
        assert cache == old(cache)[k := cache[k]];
      }
    }

    /** xprvWriteCacheEntry. It halts on an assertion if and only if it needs a block that it
        cannot have; otherwise every reader sees the new value, and the flag is raised unless
        nothing changed. */
    method WriteEntry(k: nat, kind: Kind, data: seq<Byte>, granted: bool) returns (halted: bool)
      requires Valid() && k < |cache|
      requires 0 < |data| < SIZE_LIMIT
      modifies this`heap, this`cache
      ensures halted <==> NewBuffer(old(cache)[k], |data|) && NoBlock(|data|, granted, capacity)
      ensures !halted ==> Valid() && |cache| == |old(cache)|
      ensures !halted ==> State() == SetState(old(State()), k, Value(kind, data))
      ensures !halted ==> Leaked() == old(Leaked()) + LostBy(old(cache)[k], |data|)
    {
      PrepareEntry(k, kind, data, granted);
      if cache[k].pending {
        if cache[k].length > POINTER_SIZE && cache[k].word == Ptr(NULL) {
          return true;
        }
        CopyIn(k, data);
      }
      SetRefines(old(cache), old(heap), files, k, cache[k], heap, Value(kind, data));
      assert cache == old(cache)[k := cache[k]];
      LeakAccount(old(cache), old(heap), k, cache[k], heap);
      halted := false;
    }

    /** xprvCopyValueFromCache: the value's bytes, cut to the buffer, and its full length;
        the buffer's other bytes and the reported type and length stay as they were if
        there is no value. */
    method CopyValue(k: nat, buffer: array<Byte>) returns (found: bool, kind: Option<Kind>, length: Option<nat>)
      requires Valid() && k < |cache|
      modifies buffer
      ensures Valid() && State() == old(State())
      ensures found <==> State().live[k].Some? && buffer.Length > 0
      ensures State().live[k].None? ==> kind == None && length == None && buffer[..] == old(buffer[..])
      ensures State().live[k].Some? ==>
                var v := State().live[k].value;
                var n := if buffer.Length < |v.bytes| then buffer.Length else |v.bytes|;
                && kind == Some(v.kind) && length == Some(|v.bytes|)
                && buffer[..n] == v.bytes[..n] && buffer[n..] == old(buffer[n..])
    {
      kind, length, found := None, None, false;
      if cache[k].kind.Some? {
        assert EntryOk(cache[k], heap);
        var data := if cache[k].length > POINTER_SIZE then heap[cache[k].word.addr] else cache[k].word.bytes;
        var n := cache[k].length;
        if buffer.Length < n {
          n := buffer.Length;
        }
        forall i | 0 <= i < n {
          buffer[i] := data[i];
        }
        kind, length := cache[k].kind, Some(cache[k].length);
        found := n > 0;
      }
    }

    // -------------------------------------------------------------------------
    // Files
    // -------------------------------------------------------------------------

    /** lfs_file_open with create and truncate: a new file is on the medium at once, an old one
        stays there until the new contents are flushed. */
    method FileOpen(k: nat, answer: Open) returns (isOpen: bool)
      modifies this`files
      ensures isOpen <==> answer.Opened?
      ensures files == if answer.Refused? || k in old(files) then old(files) else old(files)[k := []]
    {
      isOpen := answer.Opened?;
      if !answer.Refused? && k !in files {
        files := files[k := []];
      }
    }

    /** lfs_file_write into the open file: all of `data`, or an error after a part of it. */
    method FileWrite(open: seq<Byte>, data: seq<Byte>, fault: Option<nat>) returns (ok: bool, now: seq<Byte>)
      ensures ok <==> fault.None?
      ensures now == open + Part(data, fault)
    {
      ok, now := fault.None?, open + Part(data, fault);
    }

    /** lfs_file_sync and lfs_file_close. */
    method FileClose(k: nat, open: seq<Byte>, flush: Flush)
      requires k in files
      modifies this`files
      ensures files == old(files)[k := OnMedium(Some(old(files)[k]), open, flush)]
      ensures old(files)[k] == [] ==> files[k] == OnMedium(None, open, flush)
    {
      match flush
      case Flushed => files := files[k := open];
      case Stale =>
      case Cut(n) => files := files[k := ProperPrefix(open, n)];
    }

    /** xprvWriteValueToImpl for a value that is present. */
    method WriteValue(k: nat, kind: Kind, data: seq<Byte>, a: FileAnswer) returns (ok: bool)
      requires 0 < |data| < SIZE_LIMIT
      modifies this`files
      ensures ok <==> Succeeds(a)
      ensures files - {k} == old(files) - {k}
      ensures FileOf(files, k) == FileAfter(FileOf(old(files), k), Value(kind, data), a)
    {
      hide Header, ProperPrefix, OnMedium;
      var isOpen := FileOpen(k, a.open);
      var buffer := [];
      ok := isOpen;
      if ok {
        ok, buffer := FileWrite(buffer, Header(kind, |data|), a.header);
      }
      if ok {
        ok, buffer := FileWrite(buffer, data, a.data);
      }
      if isOpen {
        assert buffer == HandedOver(Value(kind, data), a);
        FileClose(k, buffer, a.flush);
        if !ok && a.removed {
          files := files - {k};
        }
      }
    }

    /** The loop of KVStore_xCommitChanges: every pending key is written, and failures do not
        stop it. */
    method WritePending(answers: seq<FileAnswer>) returns (ok: bool)
      requires CacheOk(cache, heap) && |answers| == |cache| && forall k :: k in files ==> k < |cache|
      modifies this`files
      ensures forall k :: k in files ==> k < |cache|
      ensures forall k :: 0 <= k < |cache| ==> FileOf(files, k) == Rewritten(cache[k], heap, FileOf(old(files), k), answers[k])
      ensures ok <==> forall k :: 0 <= k < |cache| && cache[k].pending ==> Succeeds(answers[k])
    {
      hide FileAfter, Succeeds;
      ok := true;
      for i := 0 to |cache|
        invariant forall k :: k in files ==> k < |cache|
        invariant forall k :: i <= k < |cache| ==> FileOf(files, k) == FileOf(old(files), k)
        invariant forall k :: 0 <= k < i ==> FileOf(files, k) == Rewritten(cache[k], heap, FileOf(old(files), k), answers[k])
        invariant ok <==> forall k :: 0 <= k < i && cache[k].pending ==> Succeeds(answers[k])
      {
        if cache[i].pending {
          assert EntryOk(cache[i], heap);
          var v := Value(cache[i].kind.value, Data(cache[i], heap));
          ghost var before := files;
          var stored := WriteValue(i, v.kind, v.bytes, answers[i]);
          OthersStay(before, files, i);
          ok := ok && stored;
        }
      }
    }

    /** KVStore_xCommitChanges; no flag is cleared. */
    method Commit(answers: seq<FileAnswer>) returns (ok: bool)
      requires Valid() && |answers| == |cache|
      modifies this`files
      ensures Valid() && cache == old(cache)
      ensures State() == CommitState(old(State()), Writes(answers))
      ensures Files() == Recommitted(old(State()), old(Files()), answers)
      ensures ok <==> Reported(old(State()), Writes(answers))
    {
      hide Written, Decode, WriteOf, CommitState, Recommitted, Rewritten, Succeeds, MediumOk, EntryOk;
      ghost var s, was := State(), Files();
      MediumIs();
      RewrittenIs(answers);
      RecommittedEffect(s, was, answers);
      ok := WritePending(answers);
      assert Files() == Recommitted(s, was, answers);
      CommittedIs(s, answers, ok);
    }

    /** xprvReadValueFromImpl into the buffer of an untyped entry that has the length of the
        file's value part. */
    method ReadValue(k: nat, r: ReadAnswer) returns (halted: bool)
      requires k < |cache| && k in files && Written(files[k]) && NULL !in heap && !r.NoStat?
      requires cache[k].kind.None? && !cache[k].pending && EntryOk(cache[k], heap)
      requires cache[k].length == |files[k]| - HEADER_SIZE > 0
      modifies this`heap, this`cache
      ensures |cache| == |old(cache)| && cache == old(cache)[k := cache[k]] && heap.Keys == old(heap).Keys
      ensures OthersKept(old(cache)[k], old(heap), heap)
      ensures !cache[k].pending && EntryOk(cache[k], heap)
      ensures cache[k].word.Ptr? || old(cache)[k].word.Ptr? ==> cache[k].word == old(cache)[k].word
      ensures !halted ==> LiveOf(cache[k], heap) == if r.Readable? then Decode(files[k]) else None
      ensures halted <==> TooLong(files[k], valueLimit) && !r.NoHeader?
    {
      halted := false;
      var f := files[k];
      WrittenHeader(f);
      if !r.NoHeader? {
        if HeaderLength(f) >= valueLimit {
          halted := true;
        } else if !r.NoData? {
          CopyIn(k, f[HEADER_SIZE..]);
          if |f| - HEADER_SIZE == HeaderLength(f) {
            cache := cache[k := cache[k].(kind := KindOf(HeaderKind(f)), length := HeaderLength(f))];
          }
        }
      }
    }

    /** One pass of the loop of vprvCacheInit, on an entry that is still blank: the length
        comes from the file size, then a buffer is allocated and the value read into it. */
    method LoadEntry(k: nat, r: ReadAnswer, granted: bool) returns (halted: bool)
      requires Valid() && k < |cache| && cache[k] == BLANK
      modifies this`heap, this`cache
      ensures halted <==> k in files && HaltsOn(files[k], r, granted, valueLimit, capacity)
      ensures !halted ==> Valid() && |cache| == |old(cache)| && Loaded(old(cache), old(heap), cache, heap, k)
      ensures !halted ==> LiveOf(cache[k], heap) == if r.Readable? then DiskOf(files, k) else None
      ensures !halted ==> Leaked() == old(Leaked())
      ensures !halted && k !in files ==> cache[k] == old(cache)[k]
    {
      hide CacheOk, Written;
      CacheParts(cache, heap, k);
      halted := false;
      cache := cache[k := cache[k].(pending := false, kind := None)];
      var n := 0;
      if k in files && !r.NoStat? {
        WrittenSize(files[k]);
        n := BufferSize(files[k]);
      }
      if n > 0 {
        AllocateDataBuffer(k, n, granted);
        if cache[k].length > POINTER_SIZE && cache[k].word == Ptr(NULL) {
          return true;
        }
        halted := ReadValue(k, r);
        if !halted {
          EntryReplaced(old(cache), old(heap), k, cache[k], heap);
          assert cache == old(cache)[k := cache[k]];
          LeakAccount(old(cache), old(heap), k, cache[k], heap);
        }
      } else {
        assert cache == old(cache);
      }
    }

    /** The loop of vprvCacheInit over blank entries. */
    method LoadAll(loads: seq<ReadAnswer>, grants: seq<bool>) returns (halted: bool)
      requires Valid() && |loads| == |grants| == |cache| && Leaked() == {}
      requires forall j :: 0 <= j < |cache| ==> cache[j] == BLANK
      modifies this`heap, this`cache
      ensures halted <==> BootHalts(old(Files()), loads, grants, valueLimit, capacity)
      ensures !halted ==> Valid() && |cache| == |old(cache)| && Leaked() == {}
      ensures !halted ==> forall j :: 0 <= j < |cache| ==>
                !cache[j].pending && LiveOf(cache[j], heap) == if loads[j].Readable? then DiskOf(files, j) else None
      ensures !halted ==> forall j :: 0 <= j < |cache| && j !in files ==> cache[j] == BLANK
    {
      hide HaltsOn, Decode, Leaked, Loaded;
      ghost var n, all := |cache|, Files();
      halted := false;
      for i := 0 to |cache|
        invariant |cache| == n && Valid() && Leaked() == {}
        invariant forall j :: i <= j < n ==> cache[j] == BLANK
        invariant forall j :: 0 <= j < i && j !in files ==> cache[j] == BLANK
        invariant forall j :: 0 <= j < i ==>
                    !cache[j].pending && LiveOf(cache[j], heap) == if loads[j].Readable? then DiskOf(files, j) else None
        invariant forall j :: 0 <= j < i ==> !(j in files && HaltsOn(files[j], loads[j], grants[j], valueLimit, capacity))
      {
        ghost var cache0, heap0 := cache, heap;
        halted := LoadEntry(i, loads[i], grants[i]);
        if halted {
          assert all[i] == Some(files[i]);
          return;
        }
        LoadedKeeps(cache0, heap0, cache, heap, i);
      }
    }

    /** A reboot: RAM is zeroed and vprvCacheInit fills the cache from the files. It halts if
        and only if some file makes it. */
    method Boot(loads: seq<ReadAnswer>, grants: seq<bool>) returns (halted: bool)
      requires Valid() && |loads| == |grants| == |cache|
      modifies this`heap, this`cache
      ensures halted <==> BootHalts(old(Files()), loads, grants, valueLimit, capacity)
      ensures !halted ==> Valid() && |cache| == |old(cache)| && Leaked() == {}
      ensures !halted ==> State() == RebootState(old(State()), Unread(loads))
      ensures !halted ==> forall k :: 0 <= k < |cache| && k !in files ==> cache[k] == Entry(None, 0, Raw([0, 0, 0, 0]), false)
    {
      hide BootHalts, Decode;
      ghost var s := State();
      heap := map[];
      cache := seq(|cache|, _ => BLANK);
      halted := LoadAll(loads, grants);
      if !halted {
        assert State().live == RebootState(s, Unread(loads)).live;
      }
    }

    lemma RewrittenIs(answers: seq<FileAnswer>)
      requires Valid() && |answers| == |cache|
      ensures forall k :: 0 <= k < |cache| ==>
                Recommitted(State(), Files(), answers)[k] == Rewritten(cache[k], heap, FileOf(files, k), answers[k])
    {
      hide FileAfter;
    }

    /** The store is where the two-map store is once its files are as they should be. */
    lemma CommittedIs(s: KvSpec.State, answers: seq<FileAnswer>, ok: bool)
      requires CacheOk(cache, heap) && valueLimit > 0 && capacity < SIZE_LIMIT - HEADER_SIZE && WellFormed(s)
      requires |s.live| == |cache| == |answers| && MediumOk(CommitState(s, Writes(answers)), Files())
      requires s.live == Abstract(cache, heap, files).live && s.pending == Abstract(cache, heap, files).pending
      requires forall k :: k in files ==> k < |cache|
      requires ok <==> forall k :: 0 <= k < |cache| && cache[k].pending ==> Succeeds(answers[k])
      ensures Valid() && State() == CommitState(s, Writes(answers))
      ensures ok <==> Reported(s, Writes(answers))
    {
      hide Decode, Written, DiskAfter, EntryOk, Succeeds;
      forall k | k in files
        ensures Written(files[k])
      {
        assert Files()[k] == Some(files[k]);
      }
      assert State().disk == CommitState(s, Writes(answers)).disk;
      assert forall k :: 0 <= k < |cache| ==> (k in s.pending <==> cache[k].pending);
      assert forall k :: 0 <= k < |cache| ==> (Writes(answers)[k].reported <==> Succeeds(answers[k]));
    }

    lemma MediumIs()
      requires Valid()
      ensures MediumOk(State(), Files())
    {
      forall k | 0 <= k < |cache|
        ensures State().live[k].Some? ==> Storable(State().live[k].value)
      {
        EntryParts(cache[k], heap);
      }
    }

    /** One operation: when it halts, and what it does. */
    method Do(op: Operation) returns (halted: bool)
      requires Valid() && OperationFits(op, |cache|)
      modifies this
      ensures halted <==> OperationHalts(old(State()), old(Files()), op, valueLimit, capacity)
      ensures !halted ==> Valid() && |cache| == |old(cache)| && Fits(EventOf(op), |cache|)
      ensures !halted ==> State() == Next(old(State()), EventOf(op))
      ensures !halted ==>
                Files() == if op.CommitOp? then Recommitted(old(State()), old(Files()), op.answers) else old(Files())
    {
      hide BootHalts, Recommitted, WriteOf;
      halted := false;
      match op {
        case WriteOp(k, v, granted) =>
          EntryParts(cache[k], heap);
          halted := WriteEntry(k, v.kind, v.bytes, granted);
        case CommitOp(answers) =>
          var _ := Commit(answers);
        case BootOp(loads, grants) =>
          halted := Boot(loads, grants);
      }
    }

    /** Any caller, calling any operations with any arguments and failures, sees exactly the
        run of the two-map store, until an operation halts; whether one does follows from the
        first state, the first files and the operations. Cache and files agree on every key
        without a pending change, as long as the start-ups of the run could read the files. */
    method AnyRun(ops: seq<Operation>) returns (halted: bool)
      requires Valid() && AllOpsFit(ops, |cache|)
      modifies this
      ensures halted <==>
              exists i :: 0 <= i < |ops| && HaltsAt(old(State()), old(Files()), ops, i, valueLimit, capacity)
      ensures !halted ==> Valid() && State() == StateAfter(old(State()), ops)
      ensures !halted ==> Files() == FilesAfter(old(State()), old(Files()), ops)
      ensures !halted && AllRead(Events(ops)) && old(Synced(State())) ==> Synced(State())
    {
      hide OperationHalts, StateAfter, FilesAfter, Next, EventOf, WriteOf, Recommitted;
      ghost var s, m := State(), Files();
      halted := false;
      RunStart(s, m, ops);
      for i := 0 to |ops|
        invariant Valid() && |cache| == |s.live|
        invariant State() == StateAfter(s, ops[..i]) && Files() == FilesAfter(s, m, ops[..i])
        invariant forall j :: 0 <= j < i ==> !HaltsAt(s, m, ops, j, valueLimit, capacity)
      {
        RunStep(s, m, ops, i);
        halted := Do(ops[i]);
        if halted {
          assert HaltsAt(s, m, ops, i, valueLimit, capacity);
          return;
        }
      }
      assert ops[..|ops|] == ops;
      if AllRead(Events(ops)) && Synced(s) {
        SyncedAfterOps(s, ops);
      }
    }

    /** A commit that returns true although sync and close left only `n` bytes of the file of
        one pending key, and a reboot: the key's value is gone, or start-up halts, as it does
        whenever the header is cut and the file can be seen. */
    method ReportedLoss(k: nat, n: nat, loads: seq<ReadAnswer>, grants: seq<bool>) returns (ok: bool, halted: bool)
      requires Valid() && k < |cache| && cache[k].pending && |loads| == |grants| == |cache|
      modifies this
      ensures ok && old(State()).live[k].Some?
      ensures n < HEADER_SIZE && !loads[k].NoStat? ==> halted
      ensures !halted ==> Valid() && |cache| == |old(cache)| && State().live[k] == None
    {
      hide HaltsOn, Decode, Written, FilesOk, CacheOk;
      var answers := seq(|cache|, j => if j == k then ALL_WELL.(flush := Cut(n)) else ALL_WELL);
      ghost var s, m := State(), Files();
      MediumIs();
      assert Storable(s.live[k].value) by { assert MediumOk(s, m); }
      ok := Commit(answers);
      ghost var f := Files()[k];
      assert f == FileAfter(m[k], s.live[k].value, answers[k]);
      if n < HEADER_SIZE && !loads[k].NoStat? {
        CutShort(s.live[k].value, n);
        StubHalts(f.value, loads[k], grants[k], valueLimit, capacity);
      }
      halted := Boot(loads, grants);
    }
  }

  lemma CutShort(v: Value, n: nat)
    requires Storable(v) && n < HEADER_SIZE
    ensures |ProperPrefix(Encode(v), n)| < HEADER_SIZE
    ensures HandedOver(v, ALL_WELL.(flush := Cut(n))) == Encode(v)
  {
    HandedOverIs(v, ALL_WELL.(flush := Cut(n)));
  }

  lemma RunStart(s: State, files: Medium, ops: seq<Operation>)
    requires WellFormed(s) && |files| == |s.live|
    ensures ops[..0] == [] && StateAfter(s, []) == s && FilesAfter(s, files, []) == files
  {
    assert Events([]) == [];
  }

  lemma SyncedAfterOps(s: State, ops: seq<Operation>)
    requires Synced(s) && AllOpsFit(ops, |s.live|) && AllRead(Events(ops))
    ensures Synced(StateAfter(s, ops))
  {
    EventsFit(ops, |s.live|);
    SyncedThroughout(s, Events(ops));
  }

  // ---------------------------------------------------------------------------
  // Runs that lose a value
  // ---------------------------------------------------------------------------

  /** A new store of one key, which is set to `data`. */
  method OneKey(data: seq<Byte>) returns (store: Store)
    requires 0 < |data| <= POINTER_SIZE
    ensures fresh(store) && store.Valid() && |store.cache| == 1 && store.valueLimit == 256 && store.capacity == 4096
    ensures store.files == map[] && store.cache[0].pending
    ensures LiveOf(store.cache[0], store.heap) == Some(Value(UInt32, data))
  {
    hide CacheOk;
    store := new Store(1, 256, 4096, map[]);
    ghost var s := store.State();
    assert s.live[0] == None;
    var _ := store.WriteEntry(0, UInt32, data, true);
    assert store.State().live[0] == Some(Value(UInt32, data));
    assert 0 in store.State().pending;
  }

  /** A value is set and committed; a later commit, of nothing new, fails while it writes the
      data and removes the partial file; after the reboot the value is gone. */
  method CommittedThenLost(data: seq<Byte>, taken: nat) returns (first: bool, second: bool, halted: bool, live: Option<Value>)
    requires 0 < |data| <= POINTER_SIZE
    ensures first && !second && !halted && live == None
  {
    hide CacheOk, FilesOk, EntryOk, HaltsOn, Decode, Written, HandedOver, Data;
    var store := OneKey(data);
    first := store.Commit([ALL_WELL]);
    ghost var s := store.State();
    assert s.live[0] == Some(Value(UInt32, data)) && 0 in s.pending;
    second := store.Commit([ALL_WELL.(data := Some(taken))]);
    assert store.Files()[0] == None;
    halted := store.Boot([Readable], [true]);
    live := Live(store, 0);
  }

  /** A commit reports success although sync and close left only `n` bytes of the file: the
      next start-up does not find the value, or halts if the header is cut. */
  method ReportedThenLost(data: seq<Byte>, n: nat) returns (ok: bool, halted: bool, live: Option<Value>)
    requires 0 < |data| <= POINTER_SIZE
    ensures ok && (halted <==> n < HEADER_SIZE) && live == None
  {
    hide CacheOk, FilesOk, EntryOk, HaltsOn, Decode, Written, Data, FileAfter;
    var store := OneKey(data);
    ok := store.Commit([ALL_WELL.(flush := Cut(n))]);
    CutFile(Value(UInt32, data), n);
    assert FileOf(store.files, 0).Some?;
    halted := store.Boot([Readable], [true]);
    live := None;
    if !halted {
      live := Live(store, 0);
    }
  }

  lemma CutFile(v: Value, n: nat)
    requires Storable(v) && |v.bytes| <= POINTER_SIZE
    ensures var f := FileAfter(None, v, ALL_WELL.(flush := Cut(n)));
            f.Some? && (HaltsOn(f.value, Readable, true, 256, 4096) <==> n < HEADER_SIZE) && Decode(f.value) == None
  {
    var f := ProperPrefix(Encode(v), n);
    CutDecodesToNone(v, Encode(v), n);
    WrittenPrefix(v, f);
    HaltsIff(f, 256, 4096);
    if |f| > HEADER_SIZE {
      assert f == Header(v.kind, |v.bytes|) + f[HEADER_SIZE..];
      HeaderFields(v.kind, |v.bytes|, f[HEADER_SIZE..]);
    }
  }

  method Live(store: Store, k: nat) returns (v: Option<Value>)
    requires store.Valid() && k < |store.cache|
    ensures v == store.State().live[k]
  {
    v := LiveOf(store.cache[k], store.heap);
  }
}
