/** Granted accesses counted per principal, classification, compartment and window, and the
    summary records that replace them (core/qihse_audit.c). */
module AccessBuckets {
  import opened Prelude

  const SLOTS := 1024

  datatype Key = Key(uid: u32, classif: u16, sci: u16)

  datatype Bucket = Bucket(used: bool, key: Key, window: u64, count: u64)

  const FREE := Bucket(false, Key(0, 0, 0), 0, 0)

  /** An ACCESS_COUNT record: the hit count travels in the 32-bit target field. */
  datatype Summary = Summary(key: Key, count: u32)

  /** Any starting slot will do: nothing below depends on the mixing function. */
  function BucketIndex(key: Key, window: u64): (i: nat)
    ensures i < SLOTS
  {
    var a := (key.uid * 0x9E37_79B9) % 0x1_0000_0000;
    var b := (key.classif * 0x85EB_CA6B) % 0x1_0000_0000;
    var c := (key.sci * 0xC2B2_AE35) % 0x1_0000_0000;
    var w := (window as bv64) ^ ((window as bv64) >> 32);
    var h := (a as bv64) ^ (b as bv64) ^ (c as bv64) ^ (w & 0xFFFF_FFFF);
    var mixed := h ^ (h >> 15);
    (mixed & 1023) as nat % SLOTS
  }

  /** Accesses of `k` held in the table. */
  function Live(bs: seq<Bucket>, k: Key): nat {
    if bs == [] then 0 else Live(bs[..|bs| - 1], k) + Share(bs[|bs| - 1], k)
  }

  function Share(b: Bucket, k: Key): nat {
    if b.used && b.key == k then b.count else 0
  }

  /** Accesses of `k` reported by summaries. */
  function Reported(out: seq<Summary>, k: Key): nat {
    if out == [] then 0
    else Reported(out[..|out| - 1], k) + (if out[|out| - 1].key == k then out[|out| - 1].count else 0)
  }

  function UsedSlots(bs: seq<Bucket>): nat {
    if bs == [] then 0 else UsedSlots(bs[..|bs| - 1]) + (if bs[|bs| - 1].used then 1 else 0)
  }

  /** No bucket has outgrown the 32-bit field of its summary. */
  predicate Fits(bs: seq<Bucket>) {
    forall b | b in bs :: b.used ==> b.count <= U32_MAX
  }

  function Summarize(b: Bucket): Summary {
    Summary(b.key, if b.count > U32_MAX then U32_MAX else b.count)
  }

  function Summaries(bs: seq<Bucket>): seq<Summary> {
    if bs == [] then [] else Summaries(bs[..|bs| - 1]) + [Summarize(bs[|bs| - 1])]
  }

  predicate Matches(b: Bucket, key: Key, window: u64) {
    b.used && b.key == key && b.window == window
  }

  function ProbeSlot(start: nat, probe: nat): nat { (start + probe) % SLOTS }

  /** The first slot on the probe path that is free or already counts this key and window. */
  function FirstStop(bs: seq<Bucket>, start: nat, probe: nat, key: Key, window: u64): (r: Option<nat>)
    requires |bs| == SLOTS && probe <= SLOTS
    ensures r.Some? ==> r.value < SLOTS && (!bs[r.value].used || Matches(bs[r.value], key, window))
    decreases SLOTS - probe
  {
    if probe == SLOTS then None
    else
      var pos := ProbeSlot(start, probe);
      if !bs[pos].used || Matches(bs[pos], key, window) then Some(pos)
      else FirstStop(bs, start, probe + 1, key, window)
  }

  function Count(b: Bucket, key: Key, window: u64): Bucket {
    if b.used then b.(count := if b.count < U64_MAX then b.count + 1 else b.count)
    else Bucket(true, key, window, 1)
  }

  lemma {:induction false} LiveUpdate(bs: seq<Bucket>, i: nat, b: Bucket, k: Key)
    requires i < |bs|
    ensures Live(bs[i := b], k) + Share(bs[i], k) == Live(bs, k) + Share(b, k)
    ensures UsedSlots(bs[i := b]) + (if bs[i].used then 1 else 0) == UsedSlots(bs) + (if b.used then 1 else 0)
  {
    var n := |bs| - 1;
    if i < n {
      LiveUpdate(bs[..n], i, b, k);
      assert bs[i := b][..n] == bs[..n][i := b];
    } else {
      assert bs[i := b][..n] == bs[..n];
    }
  }

  lemma {:induction false} LiveAppend(out: seq<Bucket>, b: Bucket, k: Key)
    ensures Live(out + [b], k) == Live(out, k) + Share(b, k)
  {
    assert (out + [b])[..|out|] == out;
  }

  lemma {:induction false} UsedBound(bs: seq<Bucket>)
    ensures UsedSlots(bs) <= |bs|
    ensures UsedSlots(bs) == |bs| <==> forall i :: 0 <= i < |bs| ==> bs[i].used
    ensures UsedSlots(bs) == 0 <==> forall i :: 0 <= i < |bs| ==> !bs[i].used
  {
    if bs != [] {
      var n := |bs| - 1;
      UsedBound(bs[..n]);
      assert forall i :: 0 <= i < n ==> bs[..n][i] == bs[i];
    }
  }

  /** The probe fails exactly when the table is full of other keys or windows. */
  lemma {:induction false} FirstStopNone(bs: seq<Bucket>, start: nat, probe: nat, key: Key, window: u64)
    requires |bs| == SLOTS && probe <= SLOTS && start < SLOTS
    ensures FirstStop(bs, start, probe, key, window).None? <==>
              forall i :: probe <= i < SLOTS ==>
                bs[ProbeSlot(start, i)].used && !Matches(bs[ProbeSlot(start, i)], key, window)
    decreases SLOTS - probe
  {
    if probe < SLOTS {
      FirstStopNone(bs, start, probe + 1, key, window);
    }
  }

  lemma EmptyTableStops(bs: seq<Bucket>, start: nat, key: Key, window: u64)
    requires |bs| == SLOTS && start < SLOTS
    requires UsedSlots(bs) == 0
    ensures FirstStop(bs, start, 0, key, window) == Some(start)
  {
    UsedBound(bs);
  }

  lemma FullTable(bs: seq<Bucket>, start: nat, key: Key, window: u64)
    requires |bs| == SLOTS && start < SLOTS
    requires FirstStop(bs, start, 0, key, window).None?
    ensures UsedSlots(bs) == SLOTS
  {
    FirstStopNone(bs, start, 0, key, window);
    forall p | 0 <= p < SLOTS ensures bs[p].used {
      var i := ProbeOf(start, p);
    }
    UsedBound(bs);
  }

  /** Every slot lies on the probe path. */
  lemma ProbeOf(start: nat, p: nat) returns (i: nat)
    requires start < SLOTS && p < SLOTS
    ensures i < SLOTS && ProbeSlot(start, i) == p
  {
    i := if p < start then p + SLOTS - start else p - start;
  }

  /** Counting one access raises its own key by one and no other, unless the 64-bit counter
      is saturated. */
  lemma CountAddsOne(bs: seq<Bucket>, pos: nat, key: Key, window: u64, k: Key)
    requires pos < |bs| && (!bs[pos].used || Matches(bs[pos], key, window))
    requires bs[pos].used ==> bs[pos].count < U64_MAX
    ensures Live(bs[pos := Count(bs[pos], key, window)], k) == Live(bs, k) + (if k == key then 1 else 0)
    ensures UsedSlots(bs[pos := Count(bs[pos], key, window)]) == UsedSlots(bs) + (if bs[pos].used then 0 else 1)
  {
    LiveUpdate(bs, pos, Count(bs[pos], key, window), k);
  }

  /** Summaries report every access of their buckets exactly when no bucket outgrew 32 bits;
      otherwise they under-report. */
  lemma {:induction false} SummariesExact(bs: seq<Bucket>, k: Key)
    requires forall b | b in bs :: b.used
    ensures Reported(Summaries(bs), k) <= Live(bs, k)
    ensures Reported(Summaries(bs), k) == Live(bs, k) <==> forall b | b in bs && b.key == k :: b.count <= U32_MAX
  {
    if bs != [] {
      var front, last := bs[..|bs| - 1], bs[|bs| - 1];
      assert bs == front + [last];
      SummariesExact(front, k);
      assert Summaries(bs)[..|Summaries(front)|] == Summaries(front);
    }
  }

  lemma {:induction false} ReportedConcat(a: seq<Summary>, b: seq<Summary>, k: Key)
    ensures Reported(a + b, k) == Reported(a, k) + Reported(b, k)
    decreases |b|
  {
    if b == [] {
      assert a + b == a;
    } else {
      ReportedConcat(a, b[..|b| - 1], k);
      assert (a + b)[..|a + b| - 1] == a + b[..|b| - 1];
    }
  }

  predicate Due(b: Bucket, windowSecs: nat, now: nat, flushAll: bool) {
    b.used && (flushAll || b.window + windowSecs <= now)
  }

  function Cleared(b: Bucket): Bucket { b.(used := false, count := 0) }

  /** The buckets a sweep takes out, in slot order. */
  function Collected(bs: seq<Bucket>, windowSecs: nat, now: nat, flushAll: bool): seq<Bucket> {
    if bs == [] then []
    else
      var last := bs[|bs| - 1];
      Collected(bs[..|bs| - 1], windowSecs, now, flushAll)
      + (if Due(last, windowSecs, now, flushAll) then [last] else [])
  }

  /** What it leaves behind. */
  function Swept(bs: seq<Bucket>, windowSecs: nat, now: nat, flushAll: bool): (r: seq<Bucket>)
    ensures |r| == |bs|
  {
    if bs == [] then []
    else
      var last := bs[|bs| - 1];
      Swept(bs[..|bs| - 1], windowSecs, now, flushAll)
      + [if Due(last, windowSecs, now, flushAll) then Cleared(last) else last]
  }

  /** A sweep empties exactly the used buckets whose window number plus window length has passed, or
      all of them, and leaves every other bucket as it was. */
  lemma {:induction false} SweepLeaves(bs: seq<Bucket>, windowSecs: nat, now: nat, flushAll: bool, i: nat)
    requires i < |bs|
    ensures Swept(bs, windowSecs, now, flushAll)[i] ==
      if bs[i].used && (flushAll || bs[i].window + windowSecs <= now) then bs[i].(used := false, count := 0) else bs[i]
    decreases |bs|
  {
    if i < |bs| - 1 { SweepLeaves(bs[..|bs| - 1], windowSecs, now, flushAll, i); }
  }

  /** It takes out exactly those, each as often as the table holds it. */
  lemma {:induction false} SweepTakes(bs: seq<Bucket>, windowSecs: nat, now: nat, flushAll: bool, b: Bucket)
    ensures multiset(Collected(bs, windowSecs, now, flushAll))[b] ==
      if b.used && (flushAll || b.window + windowSecs <= now) then multiset(bs)[b] else 0
  {
    if bs != [] {
      var front, last := bs[..|bs| - 1], bs[|bs| - 1];
      assert bs == front + [last];
      assert multiset(bs)[b] == multiset(front)[b] + multiset([last])[b];
      SweepTakes(front, windowSecs, now, flushAll, b);
    }
  }

  /** The comparison mixes window numbers and seconds: once two window lengths have passed since the
      clock's origin, the bucket of the running window counts as finished too. */
  lemma RunningWindowIsDue(b: Bucket, windowSecs: nat, now: nat)
    requires b.used && windowSecs >= 2 && now >= 2 * windowSecs && b.window == now / windowSecs
    ensures Due(b, windowSecs, now, false)
  {
    HalfAtMost(now, windowSecs);
  }

  lemma HalfAtMost(n: nat, d: nat)
    requires d >= 2
    ensures 2 * (n / d) <= n
  {
    var q := n / d;
    assert d * q <= n;
    assert (d - 2) * q >= 0;
  }

  /** A sweep moves counts, it never loses one. */
  lemma {:induction false} SweepConserves(bs: seq<Bucket>, windowSecs: nat, now: nat, flushAll: bool, k: Key)
    ensures Live(Swept(bs, windowSecs, now, flushAll), k) + Live(Collected(bs, windowSecs, now, flushAll), k) ==
              Live(bs, k)
    ensures flushAll ==> UsedSlots(Swept(bs, windowSecs, now, flushAll)) == 0
    ensures forall b | b in Collected(bs, windowSecs, now, flushAll) :: b.used && b in bs
  {
    if bs != [] {
      var front, last := bs[..|bs| - 1], bs[|bs| - 1];
      SweepConserves(front, windowSecs, now, flushAll, k);
      var kept := Swept(front, windowSecs, now, flushAll);
      var taken := Collected(front, windowSecs, now, flushAll);
      assert Swept(bs, windowSecs, now, flushAll)[..|kept|] == kept;
      LiveAppend(taken, last, k);
      assert taken + [] == taken;
    }
  }

  /** The table together with every summary handed to the audit log so far. */
  datatype Table = Table(slots: seq<Bucket>, reports: seq<Summary>)

  function Accounted(t: Table, k: Key): nat { Live(t.slots, k) + Reported(t.reports, k) }

  function Sweep(t: Table, windowSecs: nat, now: nat, flushAll: bool): Table {
    Table(Swept(t.slots, windowSecs, now, flushAll),
          t.reports + Summaries(Collected(t.slots, windowSecs, now, flushAll)))
  }

  function GrantOnce(t: Table, key: Key, window: u64): Table
    requires |t.slots| == SLOTS
    requires FirstStop(t.slots, BucketIndex(key, window), 0, key, window).Some?
  {
    var pos := FirstStop(t.slots, BucketIndex(key, window), 0, key, window).value;
    t.(slots := t.slots[pos := Count(t.slots[pos], key, window)])
  }

  /** `qihse_audit_access_granted`: a full table is reported as a whole and retried once. */
  function Grant(t: Table, windowSecs: nat, now: nat, key: Key, window: u64): (r: Table)
    requires |t.slots| == SLOTS
    ensures |r.slots| == SLOTS
  {
    if FirstStop(t.slots, BucketIndex(key, window), 0, key, window).Some? then GrantOnce(t, key, window)
    else
      var swept := Sweep(t, windowSecs, now, true);
      SweepConserves(t.slots, windowSecs, now, true, key);
      EmptyTableStops(swept.slots, BucketIndex(key, window), key, window);
      GrantOnce(swept, key, window)
  }

  /** An access that finds a slot changes that slot alone: it counts one more for this key in this
      window, starting at one in a free slot. */
  lemma AccessLands(t: Table, windowSecs: nat, now: nat, key: Key, window: u64)
    requires |t.slots| == SLOTS && FirstStop(t.slots, BucketIndex(key, window), 0, key, window).Some?
    ensures var pos := FirstStop(t.slots, BucketIndex(key, window), 0, key, window).value;
            var b, after := t.slots[pos], Grant(t, windowSecs, now, key, window);
            && after.reports == t.reports
            && (forall i :: 0 <= i < SLOTS && i != pos ==> after.slots[i] == t.slots[i])
            && (b.used ==>
                b.key == key && b.window == window && (b.count < U64_MAX ==> after.slots[pos].count == b.count + 1))
            && (!b.used ==> after.slots[pos].count == 1)
            && after.slots[pos].used && after.slots[pos].key == key && after.slots[pos].window == window
  {}

  lemma SweepAccounts(t: Table, windowSecs: nat, now: nat, flushAll: bool, k: Key)
    requires Fits(t.slots)
    ensures Accounted(Sweep(t, windowSecs, now, flushAll), k) == Accounted(t, k)
  {
    var taken := Collected(t.slots, windowSecs, now, flushAll);
    SweepConserves(t.slots, windowSecs, now, flushAll, k);
    SummariesExact(taken, k);
    ReportedConcat(t.reports, Summaries(taken), k);
  }

  /** Exactly one access is added, whichever path is taken. */
  lemma GrantAccounts(t: Table, windowSecs: nat, now: nat, key: Key, window: u64, k: Key)
    requires |t.slots| == SLOTS && Fits(t.slots)
    ensures Accounted(Grant(t, windowSecs, now, key, window), k) == Accounted(t, k) + (if k == key then 1 else 0)
  {
    var start := BucketIndex(key, window);
    var stop := FirstStop(t.slots, start, 0, key, window);
    if stop.Some? {
      assert t.slots[stop.value] in t.slots;
      CountAddsOne(t.slots, stop.value, key, window, k);
    } else {
      SweepConserves(t.slots, windowSecs, now, true, key);
      var swept := Sweep(t, windowSecs, now, true);
      EmptyTableStops(swept.slots, start, key, window);
      SweepAccounts(t, windowSecs, now, true, k);
      UsedBound(swept.slots);
      CountAddsOne(swept.slots, start, key, window, k);
    }
  }

  datatype Op = Access(key: Key, window: u64, now: nat) | Flush(all: bool, at: nat)

  function Step(t: Table, windowSecs: nat, op: Op): (r: Table)
    requires |t.slots| == SLOTS
    ensures |r.slots| == SLOTS
  {
    match op
    case Access(key, window, now) => Grant(t, windowSecs, now, key, window)
    case Flush(all, at) => Sweep(t, windowSecs, at, all)
  }

  function Run(t: Table, windowSecs: nat, ops: seq<Op>): (r: Table)
    requires |t.slots| == SLOTS
    ensures |r.slots| == SLOTS
  {
    if ops == [] then t else Step(Run(t, windowSecs, ops[..|ops| - 1]), windowSecs, ops[|ops| - 1])
  }

  function Grants(ops: seq<Op>, k: Key): nat {
    if ops == [] then 0
    else Grants(ops[..|ops| - 1], k) + (if ops[|ops| - 1].Access? && ops[|ops| - 1].key == k then 1 else 0)
  }

  /** No granted access is lost: in every run that keeps each bucket within 32 bits, what is
      live plus what was reported for a key is what was granted to it. */
  lemma {:induction false} NoAccessLost(t: Table, windowSecs: nat, ops: seq<Op>, k: Key)
    requires |t.slots| == SLOTS
    requires forall n :: 0 <= n < |ops| ==> Fits(Run(t, windowSecs, ops[..n]).slots)
    ensures Accounted(Run(t, windowSecs, ops), k) == Accounted(t, k) + Grants(ops, k)
  {
    if ops != [] {
      var n := |ops| - 1;
      var front := ops[..n];
      forall m | 0 <= m < n ensures Fits(Run(t, windowSecs, front[..m]).slots) {
        assert front[..m] == ops[..m];
      }
      NoAccessLost(t, windowSecs, front, k);
      var before := Run(t, windowSecs, front);
      match ops[n]
      case Access(key, window, now) => GrantAccounts(before, windowSecs, now, key, window, k);
      case Flush(all, at) => SweepAccounts(before, windowSecs, at, all, k);
    }
  }

  /** The static bucket array with its occupancy counter. */
  class AccessTable {
    const slots: array<Bucket>
    const windowSecs: nat
    var used: nat               // g_access_used
    var reports: seq<Summary>   // what qihse_audit_log was handed

    ghost predicate Valid()
      reads this, slots
    {
      slots.Length == SLOTS && used == UsedSlots(slots[..])
    }

    ghost function View(): Table
      reads this, slots
    {
      Table(slots[..], reports)
    }

    constructor (windowSecs: nat)
      ensures Valid() && fresh(slots) && this.windowSecs == windowSecs
      ensures forall k :: Accounted(View(), k) == 0
    {
      slots := new Bucket[SLOTS](_ => FREE);
      this.windowSecs := windowSecs;
      used := 0;
      reports := [];
      new;
      UsedBound(slots[..]);
      forall k ensures Live(slots[..], k) == 0 { AllFree(slots[..], k); }
    }

    /** `access_collect_expired_locked` with room for every slot. */
    method Collect(now: nat, flushAll: bool) returns (out: seq<Bucket>)
      requires Valid()
      modifies this`used, slots
      ensures Valid()
      ensures slots[..] == Swept(old(slots[..]), windowSecs, now, flushAll)
      ensures out == Collected(old(slots[..]), windowSecs, now, flushAll)
    {
      out := [];
      var i := 0;
      ghost var before := slots[..];
      while i < SLOTS
        invariant 0 <= i <= SLOTS
        invariant slots[..i] == Swept(before[..i], windowSecs, now, flushAll)
        invariant slots[i..] == before[i..]
        invariant out == Collected(before[..i], windowSecs, now, flushAll)
        invariant Valid()
      {
        assert before[..i + 1][..i] == before[..i];
        assert slots[i] == slots[i..][0] == before[i];
        var b := slots[i];
        ghost var now0 := slots[..];
        if Due(b, windowSecs, now, flushAll) {
          out := out + [b];
          UsedPositive(slots[..], i);
          slots[i] := Cleared(b);
          assert slots[..] == now0[i := Cleared(b)];
          LiveUpdate(now0, i, Cleared(b), b.key);
          used := used - 1;
        } else {
          assert out + [] == out;
        }
        assert slots[..i + 1] == now0[..i] + [slots[i]];
        assert slots[i + 1..] == before[i + 1..];
        i := i + 1;
      }
      assert before[..i] == before && slots[..i] == slots[..];
    }

    /** `access_emit_via_queue`: every taken bucket becomes one record. */
    method Emit(now: nat, flushAll: bool) returns (n: nat)
      requires Valid()
      modifies this`used, this`reports, slots
      ensures Valid() && View() == Sweep(old(View()), windowSecs, now, flushAll)
      ensures n == |Collected(old(slots[..]), windowSecs, now, flushAll)|
    {
      var taken := Collect(now, flushAll);
      var k := 0;
      while k < |taken|
        invariant 0 <= k <= |taken|
        invariant reports == old(reports) + Summaries(taken[..k])
        invariant slots[..] == Swept(old(slots[..]), windowSecs, now, flushAll) && Valid()
      {
        assert taken[..k + 1][..k] == taken[..k];
        reports := reports + [Summarize(taken[k])];
        k := k + 1;
      }
      assert taken[..k] == taken;
      n := |taken|;
    }

    /** `qihse_audit_access_granted`; the recursion of the full-table path is one deep. */
    method Access(key: Key, window: u64, now: nat)
      requires Valid()
      modifies this`used, this`reports, slots
      ensures Valid() && View() == Grant(old(View()), windowSecs, now, key, window)
      decreases used
    {
      var start := BucketIndex(key, window);
      var probe := 0;
      while probe < SLOTS
        invariant 0 <= probe <= SLOTS
        invariant FirstStop(slots[..], start, 0, key, window) == FirstStop(slots[..], start, probe, key, window)
      {
        var pos := ProbeSlot(start, probe);
        var b := slots[pos];
        if !b.used || Matches(b, key, window) {
          ghost var before := slots[..];
          slots[pos] := Count(b, key, window);
          assert slots[..] == before[pos := Count(b, key, window)];
          LiveUpdate(before, pos, Count(b, key, window), key);
          if !b.used { used := used + 1; }
          return;
        }
        probe := probe + 1;
      }
      FullTable(slots[..], start, key, window);
      ghost var before := View();
      SweepConserves(slots[..], windowSecs, now, true, key);
      var _ := Emit(now, true);
      Access(key, window, now);
      EmptyTableStops(Sweep(before, windowSecs, now, true).slots, start, key, window);
    }
  }

  lemma {:induction false} AllFree(bs: seq<Bucket>, k: Key)
    requires forall i :: 0 <= i < |bs| ==> bs[i] == FREE
    ensures Live(bs, k) == 0
  {
    if bs != [] { AllFree(bs[..|bs| - 1], k); }
  }

  lemma UsedPositive(bs: seq<Bucket>, i: nat)
    requires i < |bs| && bs[i].used
    ensures UsedSlots(bs) > 0
  {
    UsedBound(bs);
  }
}
