/** The hash chain of audit records and the start-up scan of the retained log
    (core/qihse_audit.c). SHA-384 is a free constructor: injective and never cyclic. */
module AuditChain {
  import opened Prelude

  datatype Event = Event(time: int, action: string, userId: u32, targetId: u32, classif: u16, sci: u16)

  /** `Zero` is the all-zero hash every chain starts from. */
  datatype Digest = Zero | Sha(prev: Digest, event: Event)

  datatype Record = Record(prev: Digest, event: Event) {
    function Hash(): Digest { Sha(prev, event) }
  }

  /** What one line of the log file holds. `Garbled` stands for everything the scanner
      cannot parse: a torn line, a missing signature, an unknown banner. */
  datatype Entry = Banner | Line(prev: Digest, event: Event, hash: Digest) | Garbled

  function LineOf(r: Record): Entry { Line(r.prev, r.event, r.Hash()) }

  function Tip(chain: seq<Record>): Digest {
    if chain == [] then Zero else chain[|chain| - 1].Hash()
  }

  /** Every record carries the hash of the one before it, the first one `Zero`. */
  predicate Linked(chain: seq<Record>) {
    chain == [] ||
    var front := chain[..|chain| - 1];
    Linked(front) && chain[|chain| - 1].prev == Tip(front)
  }

  /** The records of a log whose lines are all intact. */
  function Records(log: seq<Entry>): seq<Record> {
    if log == [] then []
    else
      var last := log[|log| - 1];
      Records(log[..|log| - 1]) + (if last.Line? then [Record(last.prev, last.event)] else [])
  }

  /** Banners and correctly hashed lines only. */
  predicate Intact(log: seq<Entry>) {
    forall e | e in log :: e.Banner? || (e.Line? && e.hash == Sha(e.prev, e.event))
  }

  lemma RecordsAppend(log: seq<Entry>, e: Entry)
    ensures Records(log + [e]) == Records(log) + (if e.Line? then [Record(e.prev, e.event)] else [])
  {
    assert (log + [e])[..|log|] == log;
  }

  lemma LinkedAppend(chain: seq<Record>, event: Event)
    requires Linked(chain)
    ensures Linked(chain + [Record(Tip(chain), event)])
  {
    assert (chain + [Record(Tip(chain), event)])[..|chain|] == chain;
  }

  lemma {:induction false} LinkedPrefix(chain: seq<Record>, n: nat)
    requires Linked(chain) && n <= |chain|
    ensures Linked(chain[..n])
    decreases |chain|
  {
    if n < |chain| {
      var front := chain[..|chain| - 1];
      LinkedPrefix(front, n);
      assert front[..n] == chain[..n];
    } else {
      assert chain[..n] == chain;
    }
  }

  /** Tamper evidence: a linked chain is determined by its tip. */
  lemma {:induction false} TipDeterminesChain(a: seq<Record>, b: seq<Record>)
    requires Linked(a) && Linked(b)
    requires Tip(a) == Tip(b)
    ensures a == b
  {
    if a != [] && b != [] {
      var m, n := |a| - 1, |b| - 1;
      TipDeterminesChain(a[..m], b[..n]);
      assert a == a[..m] + [a[m]];
      assert b == b[..n] + [b[n]];
    }
  }

  /** The variables `audit_scan_file` threads through the retained files. */
  datatype Scan = Scan(tip: Digest, haveRecord: bool, anchorSeen: bool, bannerSince: bool)

  const SCAN_START := Scan(Zero, false, false, false)

  /** One line of the scan; `None` is a refusal. */
  function ScanStep(s: Scan, e: Entry, stored: Option<Digest>): Option<Scan> {
    match e
    case Garbled => None
    case Banner => Some(s.(bannerSince := true))
    case Line(prev, event, hash) =>
      if hash != Sha(prev, event) then None
      else if s.haveRecord && prev != s.tip && !(s.bannerSince && prev == Zero) then None
      else
        // A legacy restart from the zero hash forgets the anchor.
        var kept := s.anchorSeen && !(s.haveRecord && prev != s.tip);
        Some(Scan(hash, true, kept || (stored.Some? && (prev == stored.value || hash == stored.value)), false))
  }

  function ScanLog(log: seq<Entry>, stored: Option<Digest>): Option<Scan> {
    if log == [] then Some(SCAN_START)
    else
      var before := ScanLog(log[..|log| - 1], stored);
      if before.None? then None else ScanStep(before.value, log[|log| - 1], stored)
  }

  /** The result of `audit_load_continuity_locked`: abort, or the hash to continue from
      (`None` leaves `last_hash` alone) and the tip file's new content. */
  datatype Recovery = Abort | Resume(lastHash: Option<Digest>, tip: Option<Digest>)

  function Recover(log: seq<Entry>, stored: Option<Digest>): Recovery {
    match ScanLog(log, stored)
    case None => Abort
    case Some(s) =>
      if !s.haveRecord then (if stored.Some? then Abort else Resume(None, None))
      else if stored.None? then Abort
      else if stored.value != s.tip && !s.anchorSeen then Abort
      else Resume(Some(s.tip), Some(s.tip))
  }

  // ---------------------------------------------------------------- which logs are resumed

  /** The last record of a log, or -1. */
  function LastLine(log: seq<Entry>): (i: int)
    ensures -1 <= i < |log| && (i >= 0 ==> log[i].Line?) && forall k :: i < k < |log| ==> !log[k].Line?
  {
    if log == [] then -1
    else if log[|log| - 1].Line? then |log| - 1
    else LastLine(log[..|log| - 1])
  }

  predicate BannerAfter(log: seq<Entry>, i: int) { exists k :: 0 <= k < |log| && i < k && log[k].Banner? }

  /** The record at `j`, if it is not the first, carries the hash of the one before it, or starts
      over from `Zero` after a banner. */
  predicate Joined(log: seq<Entry>, j: nat)
    requires j < |log|
  {
    var i := LastLine(log[..j]);
    log[j].Line? && i >= 0 ==>
      log[j].prev == log[i].hash || (log[j].prev == Zero && BannerAfter(log[..j], i))
  }

  predicate AllJoined(log: seq<Entry>) { forall j :: 0 <= j < |log| ==> Joined(log, j) }

  /** The record at `j` starts over: it is not the first and does not carry the hash before it. */
  predicate StartsOver(log: seq<Entry>, j: nat)
    requires j < |log|
  {
    var i := LastLine(log[..j]);
    log[j].Line? && i >= 0 && log[j].prev != log[i].hash
  }

  predicate Touches(e: Entry, d: Digest) { e.Line? && (d == e.prev || d == e.hash) }

  /** The digest is the hash or the predecessor of a record since the chain last started over. */
  ghost predicate Anchored(log: seq<Entry>, d: Digest) {
    exists j :: 0 <= j < |log| && Touches(log[j], d) && forall k :: j < k < |log| ==> !StartsOver(log, k)
  }

  lemma SnocParts(front: seq<Entry>, e: Entry, j: nat)
    requires j <= |front|
    ensures (front + [e])[..j] == front[..j]
  {}

  lemma JoinedSnoc(front: seq<Entry>, e: Entry)
    ensures AllJoined(front + [e]) <==> AllJoined(front) && Joined(front + [e], |front|)
  {
    var log := front + [e];
    forall j | 0 <= j < |front| ensures Joined(log, j) <==> Joined(front, j) { SnocParts(front, e, j); }
    if AllJoined(log) {
      forall j | 0 <= j < |front| ensures Joined(front, j) { assert Joined(log, j); }
    }
  }

  lemma AnchoredSnoc(front: seq<Entry>, e: Entry, d: Digest)
    ensures Anchored(front + [e], d) <==> Touches(e, d) || (Anchored(front, d) && !StartsOver(front + [e], |front|))
  {
    var log, n := front + [e], |front|;
    forall j | 0 <= j < n ensures StartsOver(log, j) <==> StartsOver(front, j) { SnocParts(front, e, j); }
    if Anchored(log, d) && !Touches(e, d) {
      var j :| 0 <= j < |log| && Touches(log[j], d) && forall k :: j < k < |log| ==> !StartsOver(log, k);
      assert Touches(front[j], d) && !StartsOver(log, n);
      forall k | j < k < n ensures !StartsOver(front, k) { assert !StartsOver(log, k); }
    }
    if Touches(e, d) { assert Touches(log[n], d); }
    if Anchored(front, d) && !StartsOver(log, n) {
      var j :| 0 <= j < n && Touches(front[j], d) && forall k :: j < k < n ==> !StartsOver(front, k);
      assert Touches(log[j], d);
      forall k | j < k < |log| ensures !StartsOver(log, k) { if k < n { assert !StartsOver(front, k); } }
    }
  }

  lemma BannerSnoc(front: seq<Entry>, e: Entry, i: int)
    requires i < |front|
    ensures BannerAfter(front + [e], i) <==> BannerAfter(front, i) || e.Banner?
  {
    var log := front + [e];
    if BannerAfter(front, i) {
      var k :| 0 <= k < |front| && i < k && front[k].Banner?;
      assert log[k].Banner?;
    }
    if e.Banner? { assert log[|front|].Banner?; }
    if BannerAfter(log, i) && !e.Banner? {
      var k :| 0 <= k < |log| && i < k && log[k].Banner?;
      assert front[k].Banner?;
    }
  }

  /** What the scan's variables say of the log read so far. */
  ghost predicate Tells(s: Scan, log: seq<Entry>, stored: Option<Digest>) {
    var i := LastLine(log);
    && s.haveRecord == (i >= 0) && s.tip == (if i >= 0 then log[i].hash else Zero)
    && s.bannerSince == BannerAfter(log, i)
    && s.anchorSeen == (stored.Some? && Anchored(log, stored.value))
  }

  lemma IntactSnoc(front: seq<Entry>, e: Entry)
    ensures Intact(front + [e]) <==> Intact(front) && Sound(e)
  {
    if Intact(front + [e]) { assert forall x | x in front :: x in front + [e]; }
  }

  predicate Sound(e: Entry) { e.Banner? || (e.Line? && e.hash == Sha(e.prev, e.event)) }

  lemma BannerTells(s: Scan, front: seq<Entry>, stored: Option<Digest>)
    requires Tells(s, front, stored)
    ensures Joined(front + [Banner], |front|) && Tells(s.(bannerSince := true), front + [Banner], stored)
  {
    var log := front + [Banner];
    assert log[..|log| - 1] == front;
    BannerSnoc(front, Banner, LastLine(front));
    if stored.Some? { AnchoredSnoc(front, Banner, stored.value); }
  }

  lemma LineTells(s: Scan, front: seq<Entry>, e: Entry, stored: Option<Digest>)
    requires Tells(s, front, stored) && e.Line? && e.hash == Sha(e.prev, e.event)
    ensures ScanStep(s, e, stored).Some? <==> Joined(front + [e], |front|)
    ensures ScanStep(s, e, stored).Some? ==> Tells(ScanStep(s, e, stored).value, front + [e], stored)
  {
    var log := front + [e];
    assert log[..|front|] == front && LastLine(log) == |front|;
    assert !BannerAfter(log, |front|);
    if stored.Some? { AnchoredSnoc(front, e, stored.value); }
  }

  lemma StepTells(s: Scan, front: seq<Entry>, e: Entry, stored: Option<Digest>)
    requires Tells(s, front, stored)
    ensures ScanStep(s, e, stored).Some? <==> Joined(front + [e], |front|) && Sound(e)
    ensures ScanStep(s, e, stored).Some? ==> Tells(ScanStep(s, e, stored).value, front + [e], stored)
  {
    if e.Banner? { BannerTells(s, front, stored); }
    else if Sound(e) { LineTells(s, front, e, stored); }
  }

  /** The scan accepts exactly the intact and joined logs. */
  lemma {:induction false} ScanTells(log: seq<Entry>, stored: Option<Digest>)
    ensures ScanLog(log, stored).Some? <==> Intact(log) && AllJoined(log)
    ensures ScanLog(log, stored).Some? ==> Tells(ScanLog(log, stored).value, log, stored)
    decreases |log|
  {
    if log != [] {
      var front, e := log[..|log| - 1], log[|log| - 1];
      assert log == front + [e];
      ScanTells(front, stored);
      IntactSnoc(front, e);
      JoinedSnoc(front, e);
      if ScanLog(front, stored).Some? { StepTells(ScanLog(front, stored).value, front, e, stored); }
    }
  }

  /** Recovery goes on exactly from an intact and joined log whose stored tip is anchored in it, or
      from one without records and without a stored tip; it goes on from the last record's hash. */
  ghost predicate Decides(log: seq<Entry>, stored: Option<Digest>, result: Recovery) {
    var i := LastLine(log);
    && (result.Resume? <==> Intact(log) && AllJoined(log)
                            && if i >= 0 then stored.Some? && Anchored(log, stored.value) else stored.None?)
    && (result.Resume? ==>
        result == if i >= 0 then Resume(Some(log[i].hash), Some(log[i].hash)) else Resume(None, None))
  }

  lemma RecoverDecides(log: seq<Entry>, stored: Option<Digest>)
    ensures Decides(log, stored, Recover(log, stored))
  {
    ScanTells(log, stored);
    var i := LastLine(log);
    if i >= 0 && stored == Some(log[i].hash) {
      forall k | i < k < |log| ensures !StartsOver(log, k) {}
      assert Touches(log[i], stored.value);
    }
  }

  /** A record cut out of the middle, for one, is noticed. */
  lemma CutIsNoticed(a: Event, b: Event, c: Event)
    ensures var x := Record(Zero, a); var y := Record(x.Hash(), b); var z := Record(y.Hash(), c);
            Recover([LineOf(x), LineOf(z)], Some(z.Hash())).Abort?
  {
    var x := Record(Zero, a);
    var y := Record(x.Hash(), b);
    var z := Record(y.Hash(), c);
    var log := [LineOf(x), LineOf(z)];
    RecoverDecides(log, Some(z.Hash()));
    assert log[..1] == [LineOf(x)];
    assert !Joined(log, 1);
  }

  /** The scan loop over one log. */
  method LoadContinuity(log: seq<Entry>, stored: Option<Digest>) returns (result: Recovery)
    ensures Decides(log, stored, result)
    ensures result == Recover(log, stored)
  {
    RecoverDecides(log, stored);
    var scan := SCAN_START;
    var i := 0;
    while i < |log|
      invariant 0 <= i <= |log|
      invariant ScanLog(log[..i], stored) == Some(scan)
    {
      assert log[..i + 1][..i] == log[..i];
      var next := ScanStep(scan, log[i], stored);
      if next.None? {
        ScanFailureSticks(log, stored, i + 1);
        return Abort;
      }
      scan := next.value;
      i := i + 1;
    }
    assert log[..i] == log;
    if !scan.haveRecord {
      return if stored.Some? then Abort else Resume(None, None);
    }
    if stored.None? { return Abort; }
    if stored.value != scan.tip && !scan.anchorSeen { return Abort; }
    return Resume(Some(scan.tip), Some(scan.tip));
  }

  lemma {:induction false} ScanFailureSticks(log: seq<Entry>, stored: Option<Digest>, n: nat)
    requires n <= |log|
    requires ScanLog(log[..n], stored).None?
    ensures ScanLog(log, stored).None?
    decreases |log|
  {
    if n == |log| {
      assert log[..n] == log;
    } else {
      var front := log[..|log| - 1];
      assert front[..n] == log[..n];
      ScanFailureSticks(front, stored, n);
    }
  }

  /** On an intact log whose records are one linked chain the scan accepts, ends at the
      chain's tip and has seen the stored tip exactly when that is some record's hash or
      predecessor. */
  lemma {:induction false} ScanLinked(log: seq<Entry>, stored: Option<Digest>)
    requires Intact(log)
    requires Linked(Records(log))
    ensures ScanLog(log, stored).Some?
    ensures var s := ScanLog(log, stored).value;
            && s.tip == Tip(Records(log))
            && (s.haveRecord <==> Records(log) != [])
            && (s.anchorSeen <==> stored.Some? && exists r :: r in Records(log) && stored.value in {r.prev, r.Hash()})
  {
    if log != [] {
      var front, last := log[..|log| - 1], log[|log| - 1];
      assert log == front + [last];
      RecordsAppend(front, last);
      var chain := Records(front);
      if last.Line? {
        var longer := Records(log);
        assert longer[..|chain|] == chain;
      } else {
        assert Records(log) == chain;
      }
      assert Intact(front);
      ScanLinked(front, stored);
    }
  }
}
