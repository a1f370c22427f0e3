/** From the disk to a serving table: what a restart after any run of commits, failures, kills and
    crashes recovers is what the started service holds (core/qihse_auth_durable.c,
    core/qihse_auth_maintenance.c, core/qihse_auth.c). */
module Recovery {
  import opened Prelude
  import opened AuthImage
  import opened AuthTable
  import opened AuthService
  import opened DurableCommit

  /** Every commit of the run was given an image as a valid service commits it. */
  predicate Serviceable(steps: seq<Step>) {
    forall i :: 0 <= i < |steps| && steps[i].Stage? ==>
      ValidImage(steps[i].image, true) && Ascending(steps[i].image.rows)
  }

  /** Every image a run leaves under the name can be served. */
  lemma SurvivorServes(steps: seq<Step>, kept: nat)
    requires IsRun(START, steps) && Serviceable(steps) && kept < |After(START, steps).names|
    ensures var found := ImageIn(Survives(After(START, steps).names[kept]));
            found.Some? ==> ValidImage(found.value, true) && Ascending(found.value.rows)
  {
    RecoveryFindsAcknowledged(steps, kept);
    var s := After(START, steps);
    var found := ImageIn(Survives(s.names[kept]));
    if found.Some? {
      IssuedByRun(START, steps, found.value);
      var i :| 0 <= i < |steps| && steps[i] == Stage(found.value);
    }
  }

  /** A machine crash after any run, then a restart: the service that starts is ready, holds the
      image the crash kept and captures it; that image is the one last acknowledged, the one an
      earlier crash settled on, or one renamed into place since. Nothing starts exactly if nothing
      was kept or it is older than the operator demands. */
  method Restart(ghost steps: seq<Step>, ghost kept: nat, file: Option<Image>, minimum: u64)
    returns (a: Authority?, captured: Option<Image>)
    requires IsRun(START, steps) && Serviceable(steps) && kept < |After(START, steps).names|
    requires file == ImageIn(Survives(After(START, steps).names[kept]))
    ensures a != null <==> file.Some? && 0 < minimum <= Generation(file)
    ensures a != null ==> fresh(a) && fresh(a.slots) && a.Valid() && a.ready && file == Some(a.committed)
    ensures a != null ==> a.slots[0].user.Some?
    ensures a != null ==> captured.Some? && captured.value.(root := Some(Stored(a.slots[0].user.value))) == file.value
    ensures var s := After(START, steps);
            file == s.acked || file == s.settled || (file.Some? && file.value in s.undecided)
    ensures Generation(file) >= Generation(After(START, steps).acked)
  {
    SurvivorServes(steps, kept);
    RecoveryFindsAcknowledged(steps, kept);
    if file.None? || minimum == 0 || file.value.position.generation < minimum { return null, None; }
    a := Start(file.value);
    var m := a.CaptureReady();
    captured := Some(m);
  }
}
