/** Rebuilding the registry from the committed log, by full transactions and by bounded
    prefixes (core/qihse_principal_replay.c, core/qihse_principal_startup_replay.c). */
module RegistryReplay {
  import opened Prelude
  import opened Principal
  import opened PrincipalRecord
  import opened Registry
  import opened PrincipalStore

  const TRANSACTION_MAX: nat := 16 * 1024 * 1024
  const BLOB_MAX: nat := 64 * 1024 * 1024
  const BLOB_HEADER: nat := 72

  /** A committed entry: a transaction blob (absent if its reference or its contents do not
      verify), a membership change, or an unknown kind. */
  datatype Entry = Data(blob: Option<Bytes>) | Config | Unknown

  /** A verified blob: its header and at least one byte of transaction. */
  predicate BlobShaped(e: Entry) {
    e.Data? && e.blob.Some? ==> BLOB_HEADER < |e.blob.value| <= BLOB_MAX
  }

  predicate AllShaped(log: seq<Entry>) {
    forall i :: 0 <= i < |log| ==> BlobShaped(log[i])
  }

  predicate IsPrincipal(tx: Bytes) { |tx| >= 3 && tx[..3] == QPR1[..3] }

  function Transaction(e: Entry): Bytes
    requires e.Data? && e.blob.Some? && BlobShaped(e)
  {
    e.blob.value[BLOB_HEADER..]
  }

  /** The entry can be replayed: it is no principal record, or a well-formed one. */
  ghost predicate Readable(e: Entry)
    requires BlobShaped(e)
  {
    match e
    case Config => true
    case Unknown => false
    case Data(b) => b.Some? && (IsPrincipal(Transaction(e)) ==> Decoded(Transaction(e)).Some?)
  }

  /** What the entry asks of the registry. */
  ghost function Meaning(e: Entry): (r: Option<Record>)
    requires BlobShaped(e)
    ensures r.Some? ==> ValidRecord(r.value)
  {
    if e.Data? && e.blob.Some? && IsPrincipal(Transaction(e)) then Decoded(Transaction(e)) else None
  }

  ghost function Meanings(log: seq<Entry>): (r: Log)
    requires AllShaped(log)
    ensures |r| == |log| && ValidLog(r)
    ensures forall i :: 0 <= i < |log| ==> r[i] == Meaning(log[i])
  {
    seq(|log|, i requires 0 <= i < |log| => Meaning(log[i]))
  }

  ghost predicate AllReadable(log: seq<Entry>, n: nat)
    requires AllShaped(log) && n <= |log|
  {
    forall i :: 0 <= i < n ==> Readable(log[i])
  }

  predicate Small(log: seq<Entry>) {
    forall i :: 0 <= i < |log| && log[i].Data? && log[i].blob.Some? ==>
      |log[i].blob.value| <= BLOB_HEADER + TRANSACTION_MAX
  }

  /** The placeholder payload is no record. */
  lemma PlaceholderUndecodable()
    ensures Decoded([0]) == None
  {
    if Decoded([0]).Some? { Parts(Decoded([0]).value); }
  }

  /** No record is longer than the decoder's bound. */
  lemma LongUndecodable(tx: Bytes)
    ensures |tx| > RECORD_MAX ==> Decoded(tx) == None
  {}

  lemma SamePrefix(tx: Bytes, n: nat)
    requires n <= |tx| && (n < |tx| ==> n >= 3)
    ensures IsPrincipal(tx) <==> IsPrincipal(tx[..n])
    ensures n == |tx| ==> tx[..n] == tx
  {
    if n >= 3 { assert tx[..n][..3] == tx[..3]; }
  }

  /** Reads `wanted` bytes in whatever pieces the blob store delivers. */
  method ReadPieces(blob: Bytes, wanted: nat, piece: nat -> nat) returns (bytes: Bytes)
    requires wanted <= |blob| && forall o :: piece(o) > 0
    ensures bytes == blob[..wanted]
  {
    bytes := [];
    while |bytes| < wanted
      invariant |bytes| <= wanted && bytes == blob[..|bytes|]
      decreases wanted - |bytes|
    {
      var left := wanted - |bytes|;
      var got := if piece(|bytes|) < left then piece(|bytes|) else left;
      bytes := bytes + blob[|bytes|..|bytes| + got];
    }
  }

  /** The transaction half of `qihse_principal_replay_committed_prefix`. */
  method FullPayload(e: Entry, piece: nat -> nat) returns (payload: Option<Bytes>)
    requires BlobShaped(e) && forall o :: piece(o) > 0
    ensures payload.Some? ==> Readable(e) && Decoded(payload.value) == Meaning(e)
    ensures payload.Some? <==> Readable(e) && (e.Data? ==> |e.blob.value| <= 72 + 16 * 1024 * 1024)
  {
    PlaceholderUndecodable();
    match e {
      case Config => return Some([0]);
      case Unknown => return None;
      case Data(b) =>
        if b.None? || |b.value| - BLOB_HEADER > TRANSACTION_MAX { return None; }
        var complete := ReadPieces(b.value, |b.value|, piece);
        assert complete == b.value;
        var transaction := complete[BLOB_HEADER..];
        if |transaction| >= 3 && transaction[..3] == QPR1[..3] {
          var decoded := DecodeRecord(transaction);
          if decoded.None? { return None; }
          return Some(transaction);
        }
        return Some([0]);
    }
  }

  /** The reading half of `apply_data`: at most one record's length of the transaction. */
  method PrefixPayload(e: Entry, piece: nat -> nat) returns (payload: Option<Bytes>)
    requires BlobShaped(e) && forall o :: piece(o) > 0
    ensures payload.Some? <==> Readable(e)
    ensures payload.Some? ==> Decoded(payload.value) == Meaning(e)
  {
    PlaceholderUndecodable();
    match e {
      case Config => return Some([0]);
      case Unknown => return None;
      case Data(b) =>
        if b.None? || |b.value| <= BLOB_HEADER || |b.value| > BLOB_MAX { return None; }
        var txSize := |b.value| - BLOB_HEADER;
        var prefixLen := if txSize < RECORD_MAX then txSize else RECORD_MAX;
        var bytes := ReadPieces(b.value, BLOB_HEADER + prefixLen, piece);
        var prefix := bytes[BLOB_HEADER..];
        ghost var tx := Transaction(e);
        assert prefix == tx[..prefixLen];
        SamePrefix(tx, prefixLen);
        if prefixLen >= 3 && prefix[..3] == QPR1[..3] {
          LongUndecodable(tx);
          if txSize > RECORD_MAX { return None; }
          var decoded := DecodeRecord(prefix);
          if decoded.None? { return None; }
          return Some(prefix);
        }
        return Some([0]);
    }
  }

  // ---------------------------------------------------------------- the drivers

  /** The prefix has been applied: the store is the fold of the registry step over it. */
  ghost predicate Caught(now: State, start: State, log: seq<Entry>, n: nat)
    requires AllShaped(log) && n <= |log| && |start.slots| == MAX_IDS && Room(start, n)
  {
    AllReadable(log, n) && now == Replay(start, Meanings(log), n)
  }

  /** One more entry applied to a store that has caught up. */
  method Advance(store: Store, ghost start: State, log: seq<Entry>, n: u64, payload: Bytes, memory: Memory)
    returns (ok: bool)
    requires AllShaped(log) && n < |log| <= U64_MAX && |start.slots| == MAX_IDS && start.applied == 0
             && start.generation == 0
    requires store.slots.Length == MAX_IDS && Caught(store.State(), start, log, n)
    requires Readable(log[n]) && Decoded(payload) == Meaning(log[n])
    modifies store, store.slots
    ensures store.slots == old(store.slots)
    ensures memory.node && memory.copy ==> ok
    ensures ok ==> Caught(store.State(), start, log, n + 1)
  {
    var index: nat := n + 1;
    var outcome := store.ApplyCommitted(index, payload, memory);
    ok := outcome != Error;
    if ok {
      assert Meanings(log)[n] == Meaning(log[n]);
      assert store.State() == Apply(Replay(start, Meanings(log), n), Meaning(log[n]));
    }
  }

  /** `qihse_principal_replay_committed_prefix`, for a log of `|log|` committed entries. */
  method ReplayCommitted(store: Store, log: seq<Entry>, through: u64, piece: nat -> nat, memory: Memory)
    returns (ok: bool)
    requires AllShaped(log) && |log| <= U64_MAX && store.slots.Length == MAX_IDS
             && (store.applied == 0 ==> store.generation == 0)
    requires forall o :: piece(o) > 0
    modifies store, store.slots
    ensures ok ==>
      through <= |log| && old(store.applied) == 0 && Caught(store.State(), old(store.State()), log, through)
    ensures (through <= |log| && old(store.applied) == 0 && AllReadable(log, through) && Small(log)
             && memory.node && memory.copy) ==> ok
  {
    if through > |log| || store.applied != 0 { return false; }
    ghost var start := store.State();
    var done: u64 := 0;
    while done < through
      invariant done <= through && store.slots == old(store.slots)
      invariant Caught(store.State(), start, log, done)
    {
      var payload := FullPayload(log[done], piece);
      if payload.None? { return false; }
      var next := Advance(store, start, log, done, payload.value, memory);
      if !next { return false; }
      done := done + 1;
    }
    return store.applied == through;
  }

  /** The loop of `qihse_principal_startup_replay_user` over a new store. */
  method StartupReplay(root: User, log: seq<Entry>, piece: nat -> nat, memory: Memory) returns (store: Store?)
    requires AllShaped(log) && |log| <= U64_MAX && forall o :: piece(o) > 0
    ensures store != null ==> fresh(store) && fresh(store.slots) && Bootstrap(root)
    ensures store != null ==> Caught(store.State(), Empty(root), log, |log|)
    ensures AllReadable(log, |log|) && memory.node && memory.copy && Bootstrap(root) ==> store != null
  {
    store := NewStore(root, memory.node);
    if store == null { return; }
    var done: u64 := 0;
    while done < |log|
      invariant done <= |log| && fresh(store) && fresh(store.slots) && store.slots.Length == MAX_IDS
      invariant Caught(store.State(), Empty(root), log, done)
    {
      var payload := PrefixPayload(log[done], piece);
      if payload.None? { return null; }
      var next := Advance(store, Empty(root), log, done, payload.value, memory);
      if !next { return null; }
      done := done + 1;
    }
  }

  /** Both drivers, given transactions of at most 16 MiB and enough memory, succeed on the same
      logs and build the same registry. */
  method ReplaysAgree(root: User, log: seq<Entry>, piece: nat -> nat) returns (full: Store?, bounded: Store?)
    requires Bootstrap(root) && AllShaped(log) && Small(log) && |log| <= U64_MAX && forall o :: piece(o) > 0
    ensures full != null <==> AllReadable(log, |log|)
    ensures bounded != null <==> AllReadable(log, |log|)
    ensures full != null ==> full.State() == bounded.State() == Replay(Empty(root), Meanings(log), |log|)
    ensures full != null ==> Inv(full.State(), root)
  {
    var memory := Memory(true, true);
    bounded := StartupReplay(root, log, piece, memory);
    var store := new Store(root);
    var ok := ReplayCommitted(store, log, |log|, piece, memory);
    full := if ok then store else null;
    EmptyInv(root);
    ReplayInv(Empty(root), Meanings(log), |log|, root);
  }
}
