/** Committing an authority image to disk: write aside, sync, rename, sync the directory
    (core/qihse_auth_durable.c). The sealed envelope is its image; sealing and opening are
    inverse. */
module DurableCommit {
  import opened Prelude
  import opened AuthImage

  /** A file's bytes: a whole sealed image, or whatever a crash left of one. */
  datatype Content = Whole(image: Image) | Torn

  datatype File = File(content: Content, synced: bool)

  /** Where a commit stands. Each step after `Staged` is one system call. */
  datatype Phase = Idle | Staged(next: Image) | Written(next: Image) | Synced(next: Image) | Renamed(next: Image)

  /** The running service: the image it holds as committed (none while provisioning), whether it
      serves, and the temporary file of the commit under way. */
  datatype Service = Down | Up(held: Option<Image>, serving: bool, phase: Phase, temporary: Option<File>)

  /** `names` lists what a machine crash may leave under the state file's name, oldest first; the
      last is what the name means now. The rest is history: `acked` is the last image a commit
      reported as stored, `settled` what the last machine crash left, `undecided` the images
      renamed into place since the later of the two, `issued` every image handed to a commit,
      `revived` whether a service was restarted on a name that a crash could still undo. */
  datatype State = State(names: seq<Option<File>>, service: Service, acked: Option<Image>, settled: Option<Image>,
                         undecided: seq<Image>, issued: set<Image>, revived: bool)

  datatype Step =
    | Provision | Stage(image: Image) | WriteFile(ok: bool) | SyncFile(ok: bool) | Rename(ok: bool)
    | SyncDirectory(ok: bool)
    | Fence | Kill | Crash(kept: nat) | Recover(minimum: nat)

  function Generation(m: Option<Image>): nat { if m.Some? then m.value.position.generation else 0 }

  function Live(s: State): Option<File>
    requires s.names != []
  {
    s.names[|s.names| - 1]
  }

  /** The image as `qihse_auth_durable_commit` stamps it. */
  predicate Stamped(held: Option<Image>, next: Image) {
    next.position.generation == Generation(held) + 1
    && (held.Some? ==> next.position == held.value.position.(generation := next.position.generation))
  }

  predicate Enabled(s: State, e: Step) {
    match e
    case Provision => s.service.Down? && s.names != [] && Live(s).None?
    case Stage(m) =>
      s.service.Up? && s.service.phase.Idle? && s.service.serving && Generation(s.service.held) < U64_MAX
      && Stamped(s.service.held, m)
    case WriteFile(_) => s.service.Up? && s.service.phase.Staged?
    case SyncFile(_) => s.service.Up? && s.service.phase.Written? && s.service.temporary.Some?
    case Rename(_) => s.service.Up? && s.service.phase.Synced? && s.service.temporary.Some?
    case SyncDirectory(_) => s.service.Up? && s.service.phase.Renamed? && s.names != []
    case Fence => s.service.Up? && s.service.phase.Idle?
    case Kill => s.service.Up?
    case Crash(kept) => kept < |s.names|
    case Recover(_) => s.service.Down? && s.names != []
  }

  /** The service after a failed call: fenced, the temporary unlinked. */
  function Fenced(v: Service): Service
    requires v.Up?
  {
    v.(serving := false, phase := Idle, temporary := None)
  }

  /** What a machine crash does to a file: unsynced bytes may be lost. */
  function Survives(f: Option<File>): Option<File> {
    if f.Some? && !f.value.synced then Some(File(Torn, true)) else f
  }

  function Next(s: State, e: Step): State
    requires Enabled(s, e)
  {
    match e
    case Provision => s.(service := Up(None, true, Idle, None), revived := s.revived || |s.names| > 1)
    case Stage(m) => s.(service := s.service.(phase := Staged(m)), issued := s.issued + {m})
    case WriteFile(ok) =>
      if ok then s.(service := s.service.(phase := Written(s.service.phase.next),
                                          temporary := Some(File(Whole(s.service.phase.next), false))))
      else s.(service := Fenced(s.service))
    case SyncFile(ok) =>
      if ok then s.(service := s.service.(phase := Synced(s.service.phase.next),
                                          temporary := Some(s.service.temporary.value.(synced := true))))
      else s.(service := Fenced(s.service))
    case Rename(ok) =>
      if ok then s.(names := s.names + [s.service.temporary], undecided := s.undecided + [s.service.phase.next],
                    service := s.service.(phase := Renamed(s.service.phase.next), temporary := None))
      else s.(service := Fenced(s.service))
    case SyncDirectory(ok) =>
      if ok then s.(names := [Live(s)], service := s.service.(phase := Idle, held := Some(s.service.phase.next)),
                    acked := Some(s.service.phase.next), undecided := [], revived := false)
      else s.(service := Fenced(s.service))
    case Fence => s.(service := Fenced(s.service))
    case Kill => s.(service := Down)
    case Crash(kept) =>
      s.(names := [Survives(s.names[kept])], service := Down, settled := ImageIn(Survives(s.names[kept])),
         undecided := [], revived := false)
    case Recover(minimum) =>
      var f := Live(s);
      if f.Some? && f.value.content.Whole? && minimum > 0 && f.value.content.image.position.generation >= minimum
      then s.(service := Up(Some(f.value.content.image), true, Idle, None), revived := s.revived || |s.names| > 1)
      else s
  }

  /** An empty state directory, nothing running. */
  const START := State([None], Down, None, None, [], {}, false)

  // ---------------------------------------------------------------- the invariant

  function ImageIn(f: Option<File>): Option<Image> {
    if f.Some? && f.value.content.Whole? then Some(f.value.content.image) else None
  }

  /** Every name means nothing yet, or a whole synced image that some commit was given. */
  predicate Sound(f: Option<File>, issued: set<Image>) {
    f.Some? ==>
      && f.value.synced && f.value.content.Whole? && f.value.content.image in issued
      && f.value.content.image.position.generation > 0
  }

  predicate AllSound(names: seq<Option<File>>, issued: set<Image>) {
    forall i :: 0 <= i < |names| ==> Sound(names[i], issued)
  }

  /** Each name is one generation after the one before. */
  predicate Consecutive(names: seq<Option<File>>) {
    forall i :: 1 <= i < |names| ==> Generation(ImageIn(names[i])) == Generation(ImageIn(names[i - 1])) + 1
  }

  /** The acknowledged image is still there, or something newer is. */
  predicate Covers(names: seq<Option<File>>, acked: Option<Image>) {
    names != [] && (ImageIn(names[0]) == acked || Generation(ImageIn(names[0])) > Generation(acked))
  }

  /** What the service holds and what its temporary file is. */
  predicate ServiceFits(s: State)
    requires s.names != []
  {
    s.service.Up? ==>
      && (s.service.phase.Idle? && s.service.serving ==> ImageIn(Live(s)) == s.service.held)
      && (!s.service.phase.Idle? ==>
          s.service.serving && s.service.phase.next in s.issued && Stamped(s.service.held, s.service.phase.next)
                                     && Generation(s.service.held) < U64_MAX)
      && (s.service.phase.Staged? || s.service.phase.Written? || s.service.phase.Synced? ==>
          ImageIn(Live(s)) == s.service.held)
      && (s.service.phase.Written? ==> s.service.temporary == Some(File(Whole(s.service.phase.next), false)))
      && (s.service.phase.Synced? ==> s.service.temporary == Some(File(Whole(s.service.phase.next), true)))
      && (s.service.phase.Renamed? ==> Live(s) == Some(File(Whole(s.service.phase.next), true)))
  }

  /** Unless a service was revived on an undecided name, at most one commit is undecided, and
      none is while the service is between commits. A revived service stands on an undecided name
      until a commit is acknowledged. */
  predicate OneInFlight(s: State) {
    && (!s.revived ==>
        |s.names| <= 2 && (s.service.Up? && s.service.serving && !s.service.phase.Renamed? ==> |s.names| == 1))
    && (s.revived ==> |s.names| > 1)
  }

  /** What each name means: first the image last acknowledged or last settled by a crash, then
      the undecided ones in the order of their commits. */
  predicate Told(s: State) {
    && |s.names| == |s.undecided| + 1 && (ImageIn(s.names[0]) == s.acked || ImageIn(s.names[0]) == s.settled)
    && (forall i :: 0 <= i < |s.undecided| ==> ImageIn(s.names[i + 1]) == Some(s.undecided[i]))
    && (s.service.Up? && s.service.phase.Renamed? ==>
        s.undecided != [] && s.undecided[|s.undecided| - 1] == s.service.phase.next)
  }

  ghost predicate Inv(s: State) {
    && s.names != [] && AllSound(s.names, s.issued) && Consecutive(s.names) && Covers(s.names, s.acked)
    && ServiceFits(s) && OneInFlight(s) && Told(s)
  }

  ghost predicate NamesFit(s: State) { s.names != [] && AllSound(s.names, s.issued) && Consecutive(s.names) }

  lemma RenameKeepsNames(s: State)
    requires Inv(s) && Enabled(s, Rename(true))
    ensures NamesFit(Next(s, Rename(true)))
  {
    assert Sound(s.service.temporary, s.issued);
    assert Generation(ImageIn(s.service.temporary)) == Generation(ImageIn(Live(s))) + 1;
  }

  lemma StepKeepsNames(s: State, e: Step)
    requires Inv(s) && Enabled(s, e)
    ensures NamesFit(Next(s, e))
  {
    var t := Next(s, e);
    if e == Rename(true) {
      RenameKeepsNames(s);
    } else if e == SyncDirectory(true) {
      assert Sound(Live(s), s.issued);
    } else if e.Crash? {
      assert Sound(s.names[e.kept], s.issued);
    } else {
      assert t.names == s.names && s.issued <= t.issued;
    }
  }

  lemma {:induction false} GenerationsRise(names: seq<Option<File>>, i: nat)
    requires Consecutive(names) && i < |names|
    ensures Generation(ImageIn(names[i])) == Generation(ImageIn(names[0])) + i
  {
    if i > 0 { GenerationsRise(names, i - 1); }
  }

  lemma StepKeepsCover(s: State, e: Step)
    requires Inv(s) && Enabled(s, e)
    ensures Covers(Next(s, e).names, Next(s, e).acked)
  {
    if e.Crash? { GenerationsRise(s.names, e.kept); }
  }

  ghost predicate ServiceKept(t: State) { t.names != [] && ServiceFits(t) && OneInFlight(t) }

  lemma WriteKeepsService(s: State, e: Step)
    requires Inv(s) && Enabled(s, e) && (e.WriteFile? || e.SyncFile?)
    ensures ServiceKept(Next(s, e))
  {}

  lemma RenameKeepsService(s: State, ok: bool)
    requires Inv(s) && Enabled(s, Rename(ok))
    ensures ServiceKept(Next(s, Rename(ok)))
  {}

  lemma SyncKeepsService(s: State, ok: bool)
    requires Inv(s) && Enabled(s, SyncDirectory(ok))
    ensures ServiceKept(Next(s, SyncDirectory(ok)))
  {}

  lemma StepKeepsService(s: State, e: Step)
    requires Inv(s) && Enabled(s, e)
    ensures ServiceKept(Next(s, e))
  {
    if e.WriteFile? || e.SyncFile? { WriteKeepsService(s, e); }
    else if e.Rename? { RenameKeepsService(s, e.ok); }
    else if e.SyncDirectory? { SyncKeepsService(s, e.ok); }
  }

  lemma RenameKeepsTold(s: State)
    requires Inv(s) && Enabled(s, Rename(true))
    ensures Told(Next(s, Rename(true)))
  {
    var t := Next(s, Rename(true));
    assert ImageIn(s.service.temporary) == Some(s.service.phase.next);
    forall i | 0 <= i < |t.undecided| ensures ImageIn(t.names[i + 1]) == Some(t.undecided[i]) {
      if i < |s.undecided| { assert ImageIn(s.names[i + 1]) == Some(s.undecided[i]); }
    }
  }

  lemma StepKeepsTold(s: State, e: Step)
    requires Inv(s) && Enabled(s, e)
    ensures Told(Next(s, e))
  {
    var t := Next(s, e);
    if e == Rename(true) {
      RenameKeepsTold(s);
    } else if e.Crash? {
      assert Sound(s.names[e.kept], s.issued);
    } else if e != SyncDirectory(true) {
      assert t.names == s.names && t.undecided == s.undecided && t.acked == s.acked && t.settled == s.settled;
    }
  }

  /** Every call, failing or not, every kill, crash and restart keeps the invariant. */
  lemma StepKeeps(s: State, e: Step)
    requires Inv(s) && Enabled(s, e)
    ensures Inv(Next(s, e))
  {
    StepKeepsNames(s, e);
    StepKeepsCover(s, e);
    StepKeepsService(s, e);
    StepKeepsTold(s, e);
  }

  // ---------------------------------------------------------------- runs

  ghost predicate IsRun(s: State, steps: seq<Step>)
    decreases |steps|
  {
    steps == [] || (Enabled(s, steps[0]) && IsRun(Next(s, steps[0]), steps[1..]))
  }

  ghost function After(s: State, steps: seq<Step>): State
    requires IsRun(s, steps)
    decreases |steps|
  {
    if steps == [] then s else After(Next(s, steps[0]), steps[1..])
  }

  lemma {:induction false} RunKeeps(s: State, steps: seq<Step>)
    requires Inv(s) && IsRun(s, steps)
    ensures Inv(After(s, steps))
    decreases |steps|
  {
    if steps != [] {
      StepKeeps(s, steps[0]);
      RunKeeps(Next(s, steps[0]), steps[1..]);
    }
  }

  /** Every image of the history was handed to a commit of the run. */
  lemma {:induction false} IssuedByRun(s: State, steps: seq<Step>, m: Image)
    requires IsRun(s, steps) && m in After(s, steps).issued
    ensures m in s.issued || Stage(m) in steps
    decreases |steps|
  {
    if steps != [] { IssuedByRun(Next(s, steps[0]), steps[1..], m); }
  }

  /** Whatever the run and whatever a crash keeps, recovery finds a whole image that some commit
      was given: the last acknowledged one, the one an earlier crash settled on, or one renamed
      into place since; never an older one than was acknowledged. Only before the first
      acknowledgement may it find nothing. */
  lemma RecoveryFindsAcknowledged(steps: seq<Step>, kept: nat)
    requires IsRun(START, steps) && kept < |After(START, steps).names|
    ensures var s := After(START, steps);
            var f := Survives(s.names[kept]);
            && (f.Some? ==> f.value.content.Whole? && f.value.content.image in s.issued)
            && (ImageIn(f) == s.acked || Generation(ImageIn(f)) > Generation(s.acked))
            && (if kept == 0 then ImageIn(f) == s.acked || ImageIn(f) == s.settled
                else kept <= |s.undecided| && ImageIn(f) == Some(s.undecided[kept - 1]))
            && Generation(ImageIn(f)) == Generation(ImageIn(s.names[0])) + kept
  {
    RunKeeps(START, steps);
    var s := After(START, steps);
    GenerationsRise(s.names, kept);
    assert Sound(s.names[kept], s.issued);
  }

  /** As long as no service was restarted on a name a crash could still undo, at most one commit
      is undecided, none while the service is between commits: a crash leaves the image last
      acknowledged, the image the last crash settled on, or the single one in flight. */
  lemma SingleInFlight(steps: seq<Step>, kept: nat)
    requires IsRun(START, steps) && !After(START, steps).revived && kept < |After(START, steps).names|
    ensures var s := After(START, steps);
            var found := ImageIn(Survives(s.names[kept]));
            && |s.undecided| <= 1
            && (found == s.acked || found == s.settled || (|s.undecided| == 1 && found == Some(s.undecided[0])))
            && (s.service.Up? && s.service.serving && s.service.phase.Renamed? ==>
                s.undecided == [s.service.phase.next])
            && (s.service.Up? && s.service.serving && !s.service.phase.Renamed? ==>
                s.undecided == [] && found == s.service.held)
  {
    RunKeeps(START, steps);
    var s := After(START, steps);
    assert Sound(s.names[kept], s.issued);
    assert |s.undecided| == 1 ==> s.undecided == [s.undecided[0]];
  }

  /** A recovered service holds what the name means, no older than the operator demands; nothing
      else is recovered. */
  lemma RecoveryHeeds(s: State, minimum: nat)
    requires Inv(s) && s.service.Down?
    ensures var t, live := Next(s, Recover(minimum)), ImageIn(Live(s));
            if live.Some? && 0 < minimum <= live.value.position.generation
            then t.service.Up? && t.service.serving && t.service.held == live && t.service.phase.Idle?
            else t == s
  {
    assert Sound(Live(s), s.issued);
  }

  /** A machine crash can leave something else than what the service serves. */
  ghost predicate CanVanish(s: State)
    requires s.service.Up?
  {
    exists kept :: 0 <= kept < |s.names| && ImageIn(Survives(s.names[kept])) != s.service.held
  }

  /** Between commits the image a service serves is safe exactly if the name is decided, and
      that is exactly if the service was not restarted on an undecided name. */
  lemma ServedImageIsSafeIff(steps: seq<Step>)
    requires IsRun(START, steps)
    requires var s := After(START, steps); s.service.Up? && s.service.serving && s.service.phase.Idle?
    ensures var s := After(START, steps);
            (!CanVanish(s) <==> |s.names| == 1) && (|s.names| == 1 <==> !s.revived)
  {
    RunKeeps(START, steps);
    var s := After(START, steps);
    assert Sound(s.names[0], s.issued);
    GenerationsRise(s.names, |s.names| - 1);
    if |s.names| > 1 { assert ImageIn(Survives(s.names[0])) != s.service.held; }
  }

  /** A commit raises the generation by exactly one and replaces the image whole. */
  lemma CommitAdvances(s: State)
    requires Inv(s) && s.service.Up? && s.service.phase.Renamed?
    ensures var t := Next(s, SyncDirectory(true));
            && t.acked == t.service.held == ImageIn(Live(t)) == Some(s.service.phase.next)
            && Generation(t.acked) == Generation(s.service.held) + 1 && |t.names| == 1
  {}

  /** After any failed call the service is fenced: no commit starts until a restart. */
  lemma {:induction false} FencedUntilRestart(s: State, steps: seq<Step>)
    requires s.service.Up? && !s.service.serving && s.service.phase.Idle? && IsRun(s, steps)
    requires forall i :: 0 <= i < |steps| ==> !steps[i].Kill? && !steps[i].Crash?
    ensures After(s, steps).acked == s.acked && After(s, steps).names == s.names
    ensures After(s, steps).service.Up? && !After(s, steps).service.serving
    decreases |steps|
  {
    if steps != [] {
      assert steps[0].Fence?;
      FencedUntilRestart(Next(s, steps[0]), steps[1..]);
    }
  }

  predicate Fails(e: Step) {
    e == WriteFile(false) || e == SyncFile(false) || e == Rename(false) || e == SyncDirectory(false)
  }

  /** Any failed call leaves names and acknowledgement alone, and until the service is killed or
      the machine crashes nothing can change them. */
  lemma FailureFences(s: State, e: Step, steps: seq<Step>)
    requires Enabled(s, e) && Fails(e) && IsRun(Next(s, e), steps)
    requires forall i :: 0 <= i < |steps| ==> !steps[i].Kill? && !steps[i].Crash?
    ensures var t := After(Next(s, e), steps);
            t.acked == s.acked && t.names == s.names && t.service.Up? && !t.service.serving
  {
    FencedUntilRestart(Next(s, e), steps);
  }

  // ---------------------------------------------------------------- the limit of the promise

  function CommitSteps(m: Image, ok: bool): seq<Step> {
    [Stage(m), WriteFile(true), SyncFile(true), Rename(true), SyncDirectory(ok)]
  }

  function Placed(m: Image): Option<File> { Some(File(Whole(m), true)) }

  /** A commit whose file calls succeed, from a service between commits. */
  lemma CommitRun(s: State, m: Image, ok: bool)
    requires s.names != [] && s.service.Up? && s.service.serving && s.service.temporary.None? && Enabled(s, Stage(m))
    ensures IsRun(s, CommitSteps(m, ok))
    ensures After(s, CommitSteps(m, ok)) ==
            if ok then State([Placed(m)], Up(Some(m), true, Idle, None), Some(m), s.settled, [], s.issued + {m}, false)
            else State(s.names + [Placed(m)], Up(s.service.held, false, Idle, None), s.acked, s.settled,
                       s.undecided + [m], s.issued + {m}, s.revived)
  {
    RenameRun(s, m);
    var s4 := After(s, RenameSteps(m));
    RunCons(s4, SyncDirectory(ok), []);
    RunJoin(s, RenameSteps(m), [SyncDirectory(ok)]);
    assert RenameSteps(m) + [SyncDirectory(ok)] == CommitSteps(m, ok);
  }

  function RenameSteps(m: Image): seq<Step> { [Stage(m), WriteFile(true), SyncFile(true), Rename(true)] }

  /** The same commit up to its rename. */
  lemma RenameRun(s: State, m: Image)
    requires s.names != [] && s.service.Up? && s.service.serving && s.service.temporary.None? && Enabled(s, Stage(m))
    ensures IsRun(s, RenameSteps(m))
    ensures After(s, RenameSteps(m)) ==
            State(s.names + [Placed(m)], Up(s.service.held, true, Renamed(m), None), s.acked, s.settled,
                  s.undecided + [m], s.issued + {m}, s.revived)
  {
    var s1 := Next(s, Stage(m));
    var s2 := Next(s1, WriteFile(true));
    var s3 := Next(s2, SyncFile(true));
    RunCons(s3, Rename(true), []);
    RunCons(s2, SyncFile(true), [Rename(true)]);
    RunCons(s1, WriteFile(true), [SyncFile(true), Rename(true)]);
    RunCons(s, Stage(m), [WriteFile(true), SyncFile(true), Rename(true)]);
  }

  lemma {:induction false} RunJoin(s: State, a: seq<Step>, b: seq<Step>)
    requires IsRun(s, a) && IsRun(After(s, a), b)
    ensures IsRun(s, a + b) && After(s, a + b) == After(After(s, a), b)
    decreases |a|
  {
    if a == [] {
      assert a + b == b;
    } else {
      RunJoin(Next(s, a[0]), a[1..], b);
      RunCons(s, a[0], a[1..] + b);
      assert a + b == [a[0]] + (a[1..] + b);
    }
  }

  function RevivingSteps(a: Image, b: Image): seq<Step> {
    [Provision] + CommitSteps(a, true) + CommitSteps(b, false) + [Kill, Recover(1)]
  }

  lemma RevivingRun(a: Image, b: Image)
    requires a.position.generation == 1 && b.position == a.position.(generation := 2)
    ensures IsRun(START, RevivingSteps(a, b))
    ensures After(START, RevivingSteps(a, b)) ==
            State([Placed(a), Placed(b)], Up(Some(b), true, Idle, None), Some(a), None, [b], {a, b}, true)
  {
    var s0 := Next(START, Provision);
    CommitRun(s0, a, true);
    var s1 := After(s0, CommitSteps(a, true));
    CommitRun(s1, b, false);
    var s2 := After(s1, CommitSteps(b, false));
    var s3 := Next(s2, Kill);
    RunCons(s3, Recover(1), []);
    RunCons(s2, Kill, [Recover(1)]);
    RunCons(START, Provision, []);
    RunJoin(START, [Provision], CommitSteps(a, true));
    RunJoin(START, [Provision] + CommitSteps(a, true), CommitSteps(b, false));
    RunJoin(START, [Provision] + CommitSteps(a, true) + CommitSteps(b, false), [Kill, Recover(1)]);
    assert {} + {a} + {b} == {a, b};
  }

  /** The restriction is needed: after a failed directory sync, a restarted service serves the
      undecided image `b`, and a machine crash can still take it back to `a`; once the restarted
      service renames its next image `c` two commits are undecided, and a crash may leave any of
      three images. */
  lemma RevivedImageCanVanish(a: Image, b: Image, c: Image)
    requires a.position.generation == 1 && b.position == a.position.(generation := 2)
             && c.position == a.position.(generation := 3)
    ensures var steps := RevivingSteps(a, b);
            && IsRun(START, steps)
            && var s := After(START, steps);
               s.service.Up? && s.service.serving && s.service.held == Some(b) && CanVanish(s)
               && ImageIn(Survives(s.names[0])) == Some(a)
    ensures var steps := RevivingSteps(a, b) + RenameSteps(c);
            && IsRun(START, steps)
            && var s := After(START, steps);
               |s.names| == 3 && s.undecided == [b, c] && s.acked == Some(a)
               && forall k :: 0 <= k < 3 ==> ImageIn(Survives(s.names[k])) == Some([a, b, c][k])
  {
    RevivingRun(a, b);
    var s := After(START, RevivingSteps(a, b));
    assert ImageIn(Survives(s.names[0])) != s.service.held;
    RenameRun(s, c);
    RunJoin(START, RevivingSteps(a, b), RenameSteps(c));
  }

  lemma RunCons(s: State, e: Step, rest: seq<Step>)
    requires Enabled(s, e) && IsRun(Next(s, e), rest)
    ensures IsRun(s, [e] + rest) && After(s, [e] + rest) == After(Next(s, e), rest)
  {
    assert ([e] + rest)[1..] == rest;
  }
}
