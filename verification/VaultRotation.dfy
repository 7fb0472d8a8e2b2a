/**
 * Rotating the convergence secret (crates/nas-cli/src/repo.rs:251-357, 694-747 and
 * crates/nas-vault/src/vault.rs:210-237), with a failure at any step and power loss
 * between any two.
 */
module VaultRotation {
  import opened Wrappers
  import opened Bytes

  type Secret = Digest

  datatype Generation = Generation(number: u32, secret: Secret)

  /** A vault: `rest` is the seed and the pinned peers, which a rotation leaves alone. */
  datatype Vault = Vault(rest: Bytes, generations: seq<Generation>)

  /** Numbered from 0 without a gap, and never empty. */
  predicate Numbered(v: Vault) {
    v.generations != [] && forall i | 0 <= i < |v.generations| :: v.generations[i].number == i
  }

  function Current(v: Vault): Generation
    requires v.generations != []
  {
    v.generations[|v.generations| - 1]
  }

  /** `Vault::rotate_convergence`; past generations are kept. */
  function Rotated(v: Vault, secret: Secret): Vault
    requires v.generations != [] && Current(v).number < U32_MAX
  {
    v.(generations := v.generations + [Generation(Current(v).number + 1, secret)])
  }

  // ---- The disk

  /** What a file holds: a whole sealed vault, or anything less. */
  datatype Content = Sealed(vault: Vault) | Torn

  /** A file, and whether its octets have reached the platter. */
  datatype File = File(content: Content, synced: bool)

  /**
   * The names `vault.bin` and `.vault.bin.tmp`. Until the directory is synced, power loss
   * may bring back any file `vault.bin` has named since the last time it was.
   */
  datatype Disk = Disk(vaultBin: File, candidates: set<File>, tmp: Option<File>)

  /** Which of the fallible steps succeed. */
  datatype Luck = Luck(random: bool, name: bool, key: bool, seal: bool, create: bool, write: bool, sync: bool,
                       rename: bool, remove: bool, dirSync: bool)

  function Cleaned(d: Disk, luck: Luck): Disk {
    if luck.remove then d.(tmp := None) else d
  }

  function WithTmp(d: Disk, f: File): Disk {
    d.(tmp := Some(f))
  }

  function Renamed(d: Disk, v: Vault): Disk {
    var f := File(Sealed(v), true);
    Disk(f, d.candidates + {f}, None)
  }

  /** `write_vault_replace`: the disk after each step, and whether the name was replaced. */
  function ReplaceSteps(d: Disk, v: Vault, luck: Luck): (r: (seq<Disk>, bool))
    ensures r.0 != [] && r.0[0] == d
  {
    if d.tmp.Some? || !luck.create then ([d], false) else
      var created := WithTmp(d, File(Torn, false));
      if !luck.write then ([d, created, Cleaned(created, luck)], false) else
        var written := WithTmp(d, File(Sealed(v), false));
        if !luck.sync then ([d, created, written, Cleaned(written, luck)], false) else
          var synced := WithTmp(d, File(Sealed(v), true));
          if !luck.rename then ([d, created, written, synced, Cleaned(synced, luck)], false)
          else ([d, created, written, synced, Renamed(d, v)], true)
  }

  function Last(ds: seq<Disk>): Disk
    requires ds != []
  {
    ds[|ds| - 1]
  }

  // ---- The rotation

  datatype Repo = Repo(vault: Vault, csHolder: Secret)

  datatype Outcome = Answered(number: u32) | Failed

  /** The process and the disk after a rotation, every disk state on the way, and the answer. */
  datatype Rotation = Rotation(repo: Repo, steps: seq<Disk>, outcome: Outcome)

  function Rotate(r: Repo, d: Disk, secret: Secret, luck: Luck): (x: Rotation)
    requires r.vault.generations != [] && Current(r.vault).number < U32_MAX
    ensures x.steps != [] && x.steps[0] == d
  {
    if !luck.random || !luck.name || !luck.key || !luck.seal then Rotation(r, [d], Failed) else
      var v := Rotated(r.vault, secret);
      var (steps, replaced) := ReplaceSteps(d, v, luck);
      if !replaced then Rotation(r, steps, Failed)
      else
        var committed := Repo(v, secret);
        if !luck.dirSync then Rotation(committed, steps, Failed)
        else
          var settled := Last(steps).(candidates := {Last(steps).vaultBin});
          Rotation(committed, steps + [settled], Answered(Current(v).number))
  }

  /** The open repository; the passphrase mode has no generations. */
  class OpenRepo {
    const passphrase: bool
    var vault: Vault
    var csHolder: Secret
    var disk: Disk
    ghost var steps: seq<Disk>

    constructor (passphrase: bool, vault: Vault, csHolder: Secret, disk: Disk)
      ensures this.passphrase == passphrase && this.vault == vault && this.csHolder == csHolder && this.disk == disk
    {
      this.passphrase, this.vault, this.csHolder, this.disk := passphrase, vault, csHolder, disk;
      steps := [disk];
    }

    method WriteVaultReplace(v: Vault, luck: Luck) returns (replaced: bool)
      modifies this`disk, this`steps
      ensures (steps, replaced) == ReplaceSteps(old(disk), v, luck) && disk == Last(steps)
    {
      steps := [disk];
      if disk.tmp.Some? || !luck.create { return false; }
      disk := WithTmp(disk, File(Torn, false));
      steps := steps + [disk];
      if !luck.write {
        disk := Cleaned(disk, luck);
        steps := steps + [disk];
        assert steps == ReplaceSteps(old(disk), v, luck).0;
        return false;
      }
      disk := WithTmp(disk, File(Sealed(v), false));
      steps := steps + [disk];
      if !luck.sync {
        disk := Cleaned(disk, luck);
        steps := steps + [disk];
        assert steps == ReplaceSteps(old(disk), v, luck).0;
        return false;
      }
      disk := WithTmp(disk, File(Sealed(v), true));
      steps := steps + [disk];
      if !luck.rename {
        disk := Cleaned(disk, luck);
        steps := steps + [disk];
        assert steps == ReplaceSteps(old(disk), v, luck).0;
        return false;
      }
      disk := Renamed(disk, v);
      steps := steps + [disk];
      assert steps == ReplaceSteps(old(disk), v, luck).0;
      return true;
    }

    /** `Repo::rotate_convergence`: snapshot, append, seal, replace; roll back on any failure before the rename. */
    method RotateConvergence(secret: Secret, luck: Luck) returns (r: Outcome)
      requires vault.generations != [] && Current(vault).number < U32_MAX
      modifies this
      ensures passphrase ==> r == Failed && vault == old(vault) && csHolder == old(csHolder) && disk == old(disk)
      ensures !passphrase ==>
                && Rotation(Repo(vault, csHolder), steps, r) == Rotate(Repo(old(vault), old(csHolder)), old(disk), secret, luck)
                && disk == Last(steps)
    {
      steps := [disk];
      if passphrase { return Failed; }
      var prior := vault;
      if !luck.random { return Failed; }
      vault := Rotated(vault, secret);
      var number := Current(vault).number;
      if !luck.name { vault := prior; return Failed; }
      if !luck.key { vault := prior; return Failed; }
      if !luck.seal { vault := prior; return Failed; }
      var replaced := WriteVaultReplace(vault, luck);
      if !replaced { vault := prior; return Failed; }
      csHolder := Current(vault).secret;
      if !luck.dirSync { return Failed; }
      disk := disk.(candidates := {disk.vaultBin});
      steps := steps + [disk];
      return Answered(number);
    }
  }

  // ---- Runs, with power loss anywhere

  /** A running process on its disk, or a disk alone. */
  datatype World = World(process: Option<Repo>, disk: Disk)

  datatype Event =
    | Attempt(secret: Secret, luck: Luck)
    /** Power fails after `step` disk steps of a rotation; `back` is what `vault.bin` names afterwards. */
    | PowerLoss(secret: Secret, luck: Luck, step: nat, back: File, tmpSurvives: bool)
    | Reopen
    | RemoveTmp

  predicate Runs(w: World) {
    w.process.Some? && w.process.value.vault.generations != [] && Current(w.process.value.vault).number < U32_MAX
  }

  function Lost(d: Disk, back: File, tmpSurvives: bool): Disk {
    Disk(back, {back}, if tmpSurvives then d.tmp else None)
  }

  /** The disk states an attempted rotation passes through. */
  function DiskSteps(w: World, secret: Secret, luck: Luck): seq<Disk> {
    if Runs(w) then Rotate(w.process.value, w.disk, secret, luck).steps else [w.disk]
  }

  /** Power can fail there, and `vault.bin` come back so. */
  predicate Strikes(w: World, ev: Event)
    requires ev.PowerLoss?
  {
    var steps := DiskSteps(w, ev.secret, ev.luck);
    ev.step < |steps| && ev.back in steps[ev.step].candidates
  }

  function Step(w: World, ev: Event): World {
    match ev
    case Attempt(secret, luck) =>
      if !Runs(w) then w else
        var x := Rotate(w.process.value, w.disk, secret, luck);
        World(Some(x.repo), Last(x.steps))
    case PowerLoss(secret, luck, step, back, tmpSurvives) =>
      if Strikes(w, ev) then World(None, Lost(DiskSteps(w, secret, luck)[step], back, tmpSurvives)) else w
    case Reopen =>
      if w.process.None? && w.disk.vaultBin.content.Sealed? && w.disk.vaultBin.content.vault.generations != []
      then var v := w.disk.vaultBin.content.vault; w.(process := Some(Repo(v, Current(v).secret))) else w
    case RemoveTmp => w.(disk := w.disk.(tmp := None))
  }

  function Run(start: World, events: seq<Event>): World {
    if events == [] then start else
      var n := |events| - 1;
      Step(Run(start, events[..n]), events[n])
  }

  /** A file that power loss cannot harm: synced, a complete vault, numbered without a gap. */
  predicate Whole(f: File) {
    f.synced && f.content.Sealed? && Numbered(f.content.vault)
  }

  /** On disk: `vault.bin` and whatever power loss could bring back are whole, older ones being prefixes. */
  predicate DiskSound(d: Disk) {
    && Whole(d.vaultBin) && d.vaultBin in d.candidates
    && forall f | f in d.candidates ::
         Whole(f) && f.content.vault.generations <= d.vaultBin.content.vault.generations
  }

  /** In memory: the vault on disk, and the secret of its last generation. */
  predicate InStep(r: Repo, d: Disk) {
    d.vaultBin.content == Sealed(r.vault) && r.vault.generations != [] && r.csHolder == Current(r.vault).secret
  }

  predicate Sound(w: World) {
    DiskSound(w.disk) && (w.process.Some? ==> InStep(w.process.value, w.disk))
  }

  /** Through a rotation, whatever fails, each disk state is sound and holds the old vault or the new one. */
  lemma RotateSound(r: Repo, d: Disk, secret: Secret, luck: Luck)
    requires DiskSound(d) && InStep(r, d) && Current(r.vault).number < U32_MAX
    ensures var x := Rotate(r, d, secret, luck);
            && (forall i | 0 <= i < |x.steps| ::
                  && DiskSound(x.steps[i])
                  && (x.steps[i].vaultBin == d.vaultBin || x.steps[i].vaultBin == File(Sealed(Rotated(r.vault, secret)), true)))
            && InStep(x.repo, Last(x.steps))
  {
    var v := Rotated(r.vault, secret);
    assert Numbered(v);
    assert r.vault.generations <= v.generations;
  }

  lemma StepSound(w: World, ev: Event)
    requires Sound(w)
    ensures Sound(Step(w, ev))
  {
    hide Rotate;
    if (ev.Attempt? || ev.PowerLoss?) && Runs(w) {
      RotateSound(w.process.value, w.disk, ev.secret, ev.luck);
    }
  }

  /**
   * Over every run of rotations, failures, power losses and restarts: `vault.bin` is a
   * complete vault numbered without a gap, and a live process agrees with it.
   */
  lemma {:induction false} RunSound(start: World, events: seq<Event>)
    requires Sound(start)
    ensures Sound(Run(start, events))
  {
    hide Step, Sound;
    if events != [] {
      RunSound(start, events[..|events| - 1]);
      StepSound(Run(start, events[..|events| - 1]), events[|events| - 1]);
    }
  }

  /** Generations `kept` are safe: every file power loss could bring back starts with them. */
  predicate Safe(d: Disk, kept: seq<Generation>) {
    forall f | f in d.candidates + {d.vaultBin} :: f.content.Sealed? && kept <= f.content.vault.generations
  }

  lemma RotateKeeps(r: Repo, d: Disk, secret: Secret, luck: Luck, kept: seq<Generation>)
    requires DiskSound(d) && InStep(r, d) && Current(r.vault).number < U32_MAX && Safe(d, kept)
    ensures var x := Rotate(r, d, secret, luck);
            forall i | 0 <= i < |x.steps| :: Safe(x.steps[i], kept)
  {
    assert kept <= r.vault.generations <= Rotated(r.vault, secret).generations;
  }

  lemma StepKeeps(w: World, ev: Event, kept: seq<Generation>)
    requires Sound(w) && Safe(w.disk, kept)
    ensures Safe(Step(w, ev).disk, kept)
  {
    hide Rotate;
    if (ev.Attempt? || ev.PowerLoss?) && Runs(w) {
      RotateKeeps(w.process.value, w.disk, ev.secret, ev.luck, kept);
    }
  }

  lemma {:induction false} RunKeeps(start: World, events: seq<Event>, kept: seq<Generation>)
    requires Sound(start) && Safe(start.disk, kept)
    ensures Safe(Run(start, events).disk, kept)
  {
    hide Step, Sound, Safe;
    if events != [] {
      var n := |events| - 1;
      RunKeeps(start, events[..n], kept);
      RunSound(start, events[..n]);
      StepKeeps(Run(start, events[..n]), events[n], kept);
    }
  }

  /** Every vault this disk may name holds `rest` besides its generations. */
  predicate DiskRest(d: Disk, rest: Bytes) {
    forall f | f in d.candidates + {d.vaultBin} :: f.content.Sealed? ==> f.content.vault.rest == rest
  }

  /** So does a live process. */
  predicate WorldRest(w: World, rest: Bytes) {
    DiskRest(w.disk, rest) && (w.process.Some? ==> w.process.value.vault.rest == rest)
  }

  lemma RotateRest(r: Repo, d: Disk, secret: Secret, luck: Luck)
    requires r.vault.generations != [] && Current(r.vault).number < U32_MAX && DiskRest(d, r.vault.rest)
    ensures var x := Rotate(r, d, secret, luck);
            && x.repo.vault.rest == r.vault.rest
            && forall i | 0 <= i < |x.steps| :: DiskRest(x.steps[i], r.vault.rest)
  {
  }

  lemma StepRest(w: World, ev: Event, rest: Bytes)
    requires WorldRest(w, rest)
    ensures WorldRest(Step(w, ev), rest)
  {
    hide Rotate;
    if (ev.Attempt? || ev.PowerLoss?) && Runs(w) {
      RotateRest(w.process.value, w.disk, ev.secret, ev.luck);
    }
  }

  /**
   * The seed and the pinned peers are left alone: over every run `vault.bin`, everything
   * power loss could bring back and a live process keep what they held at the start.
   */
  lemma {:induction false} RunKeepsRest(start: World, events: seq<Event>, rest: Bytes)
    requires WorldRest(start, rest)
    ensures WorldRest(Run(start, events), rest)
  {
    hide Step, WorldRest;
    if events != [] {
      RunKeepsRest(start, events[..|events| - 1], rest);
      StepRest(Run(start, events[..|events| - 1]), events[|events| - 1], rest);
    }
  }

  /**
   * A rotation that answered with a number is durable: the number is the one after the
   * last, and every generation of the new vault is in every later `vault.bin`, whatever
   * fails and however often the power goes.
   */
  lemma AnsweredIsDurable(w: World, secret: Secret, luck: Luck, events: seq<Event>)
    requires Sound(w) && Runs(w) && Rotate(w.process.value, w.disk, secret, luck).outcome.Answered?
    ensures var x := Rotate(w.process.value, w.disk, secret, luck);
            var later := Run(Step(w, Attempt(secret, luck)), events).disk.vaultBin;
            && x.outcome.number == Current(w.process.value.vault).number + 1
            && Current(x.repo.vault) == Generation(x.outcome.number, secret)
            && x.repo.vault.generations == w.process.value.vault.generations + [Generation(x.outcome.number, secret)]
            && Whole(later) && x.repo.vault.generations <= later.content.vault.generations
            && later.content.vault.rest == w.process.value.vault.rest
  {
    var x := Rotate(w.process.value, w.disk, secret, luck);
    var after := Step(w, Attempt(secret, luck));
    StepSound(w, Attempt(secret, luck));
    assert Safe(after.disk, x.repo.vault.generations);
    RunKeeps(after, events, x.repo.vault.generations);
    assert WorldRest(after, w.process.value.vault.rest);
    RunKeepsRest(after, events, w.process.value.vault.rest);
    RunSound(after, events);
  }

  /**
   * A rotation answers with a number exactly when every step succeeds and no temporary is
   * left over; with one left over it changes nothing.
   */
  lemma AnswersIff(r: Repo, d: Disk, secret: Secret, luck: Luck)
    requires r.vault.generations != [] && Current(r.vault).number < U32_MAX
    ensures Rotate(r, d, secret, luck).outcome.Answered? <==>
            && d.tmp == None && luck.random && luck.name && luck.key && luck.seal
            && luck.create && luck.write && luck.sync && luck.rename && luck.dirSync
    ensures d.tmp.Some? ==> Rotate(r, d, secret, luck).repo == r && Last(Rotate(r, d, secret, luck).steps) == d
  {
  }

  /** A rotation leaves a temporary behind exactly when one was made, the name was not replaced and removal failed. */
  lemma LeavesTmpIff(r: Repo, d: Disk, secret: Secret, luck: Luck)
    requires r.vault.generations != [] && Current(r.vault).number < U32_MAX && d.tmp == None
    ensures Last(Rotate(r, d, secret, luck).steps).tmp.Some? <==>
            && luck.random && luck.name && luck.key && luck.seal && luck.create
            && !(luck.write && luck.sync && luck.rename) && !luck.remove
  {
  }

  // ---- The left-over temporary

  /** The event takes effect and loses the temporary: someone removes it, or power loss does. */
  predicate Clears(w: World, ev: Event) {
    ev.RemoveTmp? || (ev.PowerLoss? && !ev.tmpSurvives && Strikes(w, ev))
  }

  /** Power loss after the temporary was created, and before the rename, can leave it behind. */
  lemma TmpCanBeLeft(w: World, secret: Secret, luck: Luck, step: nat)
    requires Sound(w) && Runs(w) && w.disk.tmp == None
    requires 1 <= step <= 3 && luck.random && luck.name && luck.key && luck.seal && luck.create && luck.write && luck.sync
    ensures var x := Step(w, PowerLoss(secret, luck, step, w.disk.vaultBin, true));
            Sound(x) && x.disk.tmp.Some? && x.disk.vaultBin == w.disk.vaultBin
  {
    StepSound(w, PowerLoss(secret, luck, step, w.disk.vaultBin, true));
  }

  /** Exactly the clearing events clear it, and until then no event adds to what `vault.bin` may name. */
  lemma ClearedIff(w: World, ev: Event)
    requires Sound(w) && w.disk.tmp.Some?
    ensures Step(w, ev).disk.tmp == None <==> Clears(w, ev)
    ensures Step(w, ev).disk.tmp.Some? ==> Step(w, ev).disk.tmp == w.disk.tmp
    ensures Step(w, ev).disk.candidates <= w.disk.candidates
    ensures ev.Attempt? ==> Step(w, ev) == w
  {
    if (ev.Attempt? || ev.PowerLoss?) && Runs(w) {
      var x := Rotate(w.process.value, w.disk, ev.secret, ev.luck);
      assert x.steps == [w.disk];
    }
  }

  /** No event of the run clears the temporary. */
  ghost predicate NeverCleared(start: World, events: seq<Event>) {
    forall i | 0 <= i < |events| :: !Clears(Run(start, events[..i]), events[i])
  }

  /**
   * While nobody clears it, a left-over temporary stays, through restarts and power losses;
   * every rotation fails and changes nothing, and `vault.bin` names only what it already
   * might have named.
   */
  lemma {:induction false} RefusedUntilCleared(start: World, events: seq<Event>, secret: Secret, luck: Luck)
    requires Sound(start) && start.disk.tmp.Some? && NeverCleared(start, events)
    ensures var w := Run(start, events);
            && w.disk.tmp == start.disk.tmp
            && w.disk.vaultBin in start.disk.candidates && w.disk.candidates <= start.disk.candidates
            && Step(w, Attempt(secret, luck)) == w
            && (Runs(w) ==> Rotate(w.process.value, w.disk, secret, luck).outcome == Failed)
  {
    hide Step;
    if events != [] {
      var n := |events| - 1;
      assert NeverCleared(start, events[..n]) by {
        assert forall i | 0 <= i < n :: events[..n][..i] == events[..i];
      }
      RefusedUntilCleared(start, events[..n], secret, luck);
      RunSound(start, events[..n]);
      ClearedIff(Run(start, events[..n]), events[n]);
    }
    RunSound(start, events);
    ClearedIff(Run(start, events), Attempt(secret, luck));
  }

  /**
   * So the next rotation that answers comes after an event that cleared it: removal by
   * hand, or a second power loss that took the temporary along.
   */
  lemma AnswerNeedsClearing(start: World, events: seq<Event>, secret: Secret, luck: Luck) returns (i: nat)
    requires Sound(start) && start.disk.tmp.Some?
    requires var w := Run(start, events); Runs(w) && Rotate(w.process.value, w.disk, secret, luck).outcome.Answered?
    ensures i < |events| && Clears(Run(start, events[..i]), events[i])
  {
    hide Step, Rotate;
    i := 0;
    if NeverCleared(start, events) {
      RefusedUntilCleared(start, events, secret, luck);
    } else {
      i :| 0 <= i < |events| && Clears(Run(start, events[..i]), events[i]);
    }
  }

  /** A failed rotation that did not reach the rename leaves memory and `vault.bin` as they were. */
  lemma FailureRollsBack(r: Repo, d: Disk, secret: Secret, luck: Luck)
    requires r.vault.generations != [] && Current(r.vault).number < U32_MAX
    ensures var x := Rotate(r, d, secret, luck);
            Last(x.steps).vaultBin == d.vaultBin && d.vaultBin != File(Sealed(Rotated(r.vault, secret)), true)
            ==> x.repo == r && x.outcome == Failed && Last(x.steps).candidates == d.candidates
  {
  }
}
