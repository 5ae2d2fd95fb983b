/** The boot scripts stored in the bootloader's environment, and an interpreter for them in
    which commands may fail. */
module Scripts {

  /** Where files are loaded from: ${boottype} ${bootdev}:${bootpart} */
  datatype Source = Source(boottype: string, bootdev: string, bootpart: string)

  datatype Slot = A | B {
    function Other(): Slot { if A? then B else A }

    function Name(): string { if A? then "a" else "b" }

    /** The boot partition of the slot. */
    function Partition(): string { if A? then "1" else "2" }

    function Home(): Source { Source("mmc", "0", Partition()) }
  }

  datatype Script = SetupPart(slot: Slot) | DoFitboot | DoLegacyboot | LoadFitimage | LoadKernel | LoadFdt | SetBootargs

  datatype Memory = FitImage | KernelImage | FdtBlob

  /** The variables that the scripts set one by one. */
  datatype Var = Boottype | Bootdev | Bootpart | Firmwareslot

  datatype Cmd =
    | Run(script: Script)
    | Setenv(name: Var, value: string)
    | SetenvBootargs
    | Ext4load(what: Memory)
    | BootmFit
    | BootmLegacy
    | Reset

  function Level(s: Script): nat {
    if s.DoFitboot? || s.DoLegacyboot? then 1 else 0
  }

  /** No command runs a script of this level or a higher one. */
  ghost predicate Below(cs: seq<Cmd>, level: nat) {
    forall i :: 0 <= i < |cs| && cs[i].Run? ==> Level(cs[i].script) < level
  }

  function Body(s: Script): (cs: seq<Cmd>)
    ensures Below(cs, Level(s))
  {
    match s
    case SetupPart(slot) =>
      [Setenv(Boottype, "mmc"), Setenv(Bootdev, "0"), Setenv(Bootpart, slot.Partition()),
       Setenv(Firmwareslot, slot.Name())]
    case DoFitboot => [Run(LoadFitimage), Run(SetBootargs), BootmFit]
    case DoLegacyboot => [Run(LoadKernel), Run(LoadFdt), Run(SetBootargs), BootmLegacy]
    case LoadFitimage => [Ext4load(FitImage)]
    case LoadKernel => [Ext4load(KernelImage)]
    case LoadFdt => [Ext4load(FdtBlob)]
    case SetBootargs => [SetenvBootargs]
  }

  // ---- The interpreter ----

  /** A bootm as it is reached: where the variables point, where each piece that it boots was loaded
      from since the reset, if at all, and the slot on the kernel's command line. */
  datatype Boot = Boot(legacy: bool, source: Source, loaded: map<Memory, Source>, slotArg: string)

  datatype Machine = Machine(env: map<Var, string>, slotArg: string, memory: map<Memory, Source>,
                             boots: seq<Boot>, over: bool, steps: nat)
  {
    function Get(name: Var): string {
      if name in env then env[name] else ""
    }

    function Where(): Source {
      Source(Get(Boottype), Get(Bootdev), Get(Bootpart))
    }

    function Loaded(what: set<Memory>): map<Memory, Source> {
      map w | w in memory && w in what :: memory[w]
    }
  }

  /** Which steps fail. A failed bootm returns to the script; one that works does not. */
  datatype Failures = Failures(fails: nat -> bool, setenvFails: nat -> bool)

  function Do(f: Failures, c: Cmd, m: Machine): Machine
    requires !c.Run?
  {
    var next := m.(steps := m.steps + 1);
    match c
    case Setenv(name, value) => if f.setenvFails(m.steps) then next else next.(env := m.env[name := value])
    case SetenvBootargs => if f.setenvFails(m.steps) then next else next.(slotArg := m.Get(Firmwareslot))
    case Ext4load(what) => if f.fails(m.steps) then next else next.(memory := m.memory[what := m.Where()])
    case BootmFit =>
      next.(boots := m.boots + [Boot(false, m.Where(), m.Loaded({FitImage}), m.slotArg)], over := !f.fails(m.steps))
    case BootmLegacy =>
      next.(boots := m.boots + [Boot(true, m.Where(), m.Loaded({KernelImage, FdtBlob}), m.slotArg)],
            over := !f.fails(m.steps))
    case Reset => next.(over := true)
  }

  function Exec(f: Failures, level: nat, cs: seq<Cmd>, m: Machine): Machine
    requires Below(cs, level)
    decreases level, |cs|
  {
    if cs == [] || m.over then m
    else
      var next := if cs[0].Run? then Exec(f, Level(cs[0].script), Body(cs[0].script), m) else Do(f, cs[0], m);
      Exec(f, level, cs[1..], next)
  }

  /** One command. */
  function Step(f: Failures, c: Cmd, m: Machine): Machine {
    if c.Run? then Exec(f, Level(c.script), Body(c.script), m) else Do(f, c, m)
  }

  lemma ExecNone(f: Failures, level: nat, m: Machine)
    ensures Exec(f, level, [], m) == m
  {
  }

  lemma ExecOver(f: Failures, level: nat, cs: seq<Cmd>, m: Machine)
    requires Below(cs, level) && m.over
    ensures Exec(f, level, cs, m) == m
  {
  }

  lemma ExecStep(f: Failures, level: nat, c: Cmd, cs: seq<Cmd>, m: Machine)
    requires Below([c] + cs, level) && !m.over
    ensures Below(cs, level)
    ensures Exec(f, level, [c] + cs, m) == Exec(f, level, cs, Step(f, c, m))
  {
    hide Do, Body;
    assert ([c] + cs)[0] == c && ([c] + cs)[1..] == cs;
    forall i | 0 <= i < |cs| && cs[i].Run? ensures Level(cs[i].script) < level {
      assert ([c] + cs)[i + 1] == cs[i];
    }
  }

  // ---- What each script does ----

  /** What a variable holds once step number `step` has tried to set it. */
  function Assigned(f: Failures, m: Machine, step: nat, name: Var, value: string): string {
    if f.setenvFails(step) then m.Get(name) else value
  }

  /** Where the variables of a slot point once its setup script has run. */
  function LoadsFrom(f: Failures, m: Machine, slot: Slot): Source {
    Source(Assigned(f, m, m.steps, Boottype, "mmc"), Assigned(f, m, m.steps + 1, Bootdev, "0"),
           Assigned(f, m, m.steps + 2, Bootpart, slot.Partition()))
  }

  lemma SetenvSets(f: Failures, m: Machine, name: Var, value: string)
    ensures var t := Do(f, Setenv(name, value), m);
            && t == m.(env := t.env, steps := m.steps + 1)
            && t.Get(name) == Assigned(f, m, m.steps, name, value)
            && forall other :: other != name ==> t.Get(other) == m.Get(other)
  {
  }

  lemma SetupPartSets(f: Failures, m: Machine, slot: Slot)
    requires !m.over
    ensures var t := Step(f, Run(SetupPart(slot)), m);
            && t == m.(env := t.env, steps := m.steps + 4)
            && t.Where() == LoadsFrom(f, m, slot)
            && t.Get(Firmwareslot) == Assigned(f, m, m.steps + 3, Firmwareslot, slot.Name())
  {
    hide Exec, Do, Assigned, Body, Step;
    SetupBody(slot);
    RunsItsBody(f, SetupPart(slot), m);
    FourAssignments(f, m, Boottype, "mmc", Bootdev, "0", Bootpart, slot.Partition(), Firmwareslot, slot.Name());
  }

  lemma SetupBody(slot: Slot)
    ensures Body(SetupPart(slot)) == [Setenv(Boottype, "mmc"), Setenv(Bootdev, "0"), Setenv(Bootpart, slot.Partition()),
                                      Setenv(Firmwareslot, slot.Name())]
  {
  }

  /** Four variables of different names, each set once. */
  lemma FourAssignments(f: Failures, m: Machine, a: Var, va: string, b: Var, vb: string,
                        c: Var, vc: string, d: Var, vd: string)
    requires a != b && a != c && a != d && b != c && b != d && c != d && !m.over
    ensures var t := Exec(f, 0, [Setenv(a, va), Setenv(b, vb), Setenv(c, vc), Setenv(d, vd)], m);
            && t == m.(env := t.env, steps := m.steps + 4)
            && t.Get(a) == Assigned(f, m, m.steps, a, va) && t.Get(b) == Assigned(f, m, m.steps + 1, b, vb)
            && t.Get(c) == Assigned(f, m, m.steps + 2, c, vc) && t.Get(d) == Assigned(f, m, m.steps + 3, d, vd)
  {
    hide Do, Exec;
    FourSetenvs(f, Setenv(a, va), Setenv(b, vb), Setenv(c, vc), Setenv(d, vd), m);
    var m1 := Do(f, Setenv(a, va), m);
    var m2 := Do(f, Setenv(b, vb), m1);
    var m3 := Do(f, Setenv(c, vc), m2);
    SetenvSets(f, m, a, va);
    SetenvSets(f, m1, b, vb);
    SetenvSets(f, m2, c, vc);
    SetenvSets(f, m3, d, vd);
  }

  lemma FourSetenvs(f: Failures, a: Cmd, b: Cmd, c: Cmd, d: Cmd, m: Machine)
    requires a.Setenv? && b.Setenv? && c.Setenv? && d.Setenv? && !m.over
    ensures Exec(f, 0, [a, b, c, d], m) == Do(f, d, Do(f, c, Do(f, b, Do(f, a, m))))
  {
    hide Exec;
    assert [a] + [b, c, d] == [a, b, c, d] && [b] + [c, d] == [b, c, d] && [c] + [d] == [c, d] && [d] + [] == [d];
    var m1 := Do(f, a, m);
    var m2 := Do(f, b, m1);
    var m3 := Do(f, c, m2);
    ExecStep(f, 0, a, [b, c, d], m);
    ExecStep(f, 0, b, [c, d], m1);
    ExecStep(f, 0, c, [d], m2);
    ExecStep(f, 0, d, [], m3);
    ExecNone(f, 0, Do(f, d, m3));
  }

  lemma OneCommand(f: Failures, s: Script, c: Cmd, m: Machine)
    requires Body(s) == [c] && !c.Run? && !m.over && Level(s) == 0
    ensures Step(f, Run(s), m) == Do(f, c, m)
  {
    hide Exec, Do, Body;
    assert [c] + [] == [c];
    ExecStep(f, 0, c, [], m);
    ExecNone(f, 0, Do(f, c, m));
  }

  function AllFrom(got: set<Memory>, src: Source): map<Memory, Source> {
    map w | w in got :: src
  }

  /** The variables point to src, and just these have been loaded since the reset, all of them from there. */
  predicate LoadedFrom(m: Machine, src: Source, got: set<Memory>) {
    m.Where() == src && m.memory == AllFrom(got, src)
  }

  /** What is loaded by a step that may fail. */
  function Got(f: Failures, step: nat, what: Memory): set<Memory> {
    if f.fails(step) then {} else {what}
  }

  lemma LoadKeeps(f: Failures, m: Machine, src: Source, got: set<Memory>, s: Script, what: Memory)
    requires LoadedFrom(m, src, got) && !m.over && Level(s) == 0 && Body(s) == [Ext4load(what)]
    ensures var t := Step(f, Run(s), m);
            LoadedFrom(t, src, got + Got(f, m.steps, what)) && t == m.(memory := t.memory, steps := m.steps + 1)
  {
    OneCommand(f, s, Ext4load(what), m);
    if f.fails(m.steps) {
      assert got + {} == got;
    } else {
      assert m.memory[what := src] == AllFrom(got + {what}, src);
    }
  }

  /** The slot on the command line once step number `step` has tried to set it. */
  function SlotArg(f: Failures, m: Machine, step: nat): string {
    if f.setenvFails(step) then m.slotArg else m.Get(Firmwareslot)
  }

  lemma SetBootargsSets(f: Failures, m: Machine, src: Source, got: set<Memory>)
    requires !m.over && LoadedFrom(m, src, got)
    ensures var t := Step(f, Run(SetBootargs), m);
            LoadedFrom(t, src, got) && t == m.(slotArg := SlotArg(f, m, m.steps), steps := m.steps + 1)
  {
    OneCommand(f, SetBootargs, SetenvBootargs, m);
  }

  lemma BootmBoots(f: Failures, m: Machine, src: Source, got: set<Memory>, c: Cmd)
    requires LoadedFrom(m, src, got) && (c == BootmFit || c == BootmLegacy)
    ensures var t := Step(f, c, m);
            && LoadedFrom(t, src, got) && t == m.(boots := t.boots, over := !f.fails(m.steps), steps := m.steps + 1)
            && |t.boots| == |m.boots| + 1 && t.boots[..|m.boots|] == m.boots
            && IsBoot(t.boots[|m.boots|], c == BootmLegacy, src, got * NeededBy(c == BootmLegacy), m.slotArg)
  {
    var what := NeededBy(c == BootmLegacy);
    assert m.Loaded(what) == AllFrom(got * what, src);
    assert (m.boots + [Step(f, c, m).boots[|m.boots|]])[..|m.boots|] == m.boots;
  }

  /** What a bootm boots. */
  function NeededBy(legacy: bool): set<Memory> {
    if legacy then {KernelImage, FdtBlob} else {FitImage}
  }

  /** A bootm that finds just these loaded of what it boots, all of them from src, with this slot as
      argument. */
  predicate IsBoot(b: Boot, legacy: bool, src: Source, got: set<Memory>, slotArg: string) {
    b.legacy == legacy && b.source == src && b.loaded == AllFrom(got, src) && b.slotArg == slotArg
  }

  /** The script do_fitboot, from where the variables point to src. */
  lemma FitbootBoots(f: Failures, m: Machine, src: Source, got: set<Memory>)
    requires LoadedFrom(m, src, got) && !m.over
    ensures var t, arg, more := Step(f, Run(DoFitboot), m), SlotArg(f, m, m.steps + 1), got + Got(f, m.steps, FitImage);
            && LoadedFrom(t, src, more) && t.over == !f.fails(m.steps + 2) && t.steps == m.steps + 3
            && t.slotArg == arg && t.env == m.env
            && |t.boots| == |m.boots| + 1 && t.boots[..|m.boots|] == m.boots
            && IsBoot(t.boots[|m.boots|], false, src, more * {FitImage}, arg)
  {
    var a, b, c := Run(LoadFitimage), Run(SetBootargs), BootmFit;
    assert Body(DoFitboot) == [a] + [b, c] && Body(LoadFitimage) == [Ext4load(FitImage)];
    hide Exec, Do, Body, LoadedFrom, IsBoot, Step, Got;
    var more := got + Got(f, m.steps, FitImage);
    var m1 := Step(f, a, m);
    LoadKeeps(f, m, src, got, LoadFitimage, FitImage);
    var m2 := Step(f, b, m1);
    SetBootargsSets(f, m1, src, more);
    var m3 := Step(f, c, m2);
    BootmBoots(f, m2, src, more, c);
    assert [b] + [c] == [b, c] && [c] + [] == [c];
    ExecStep(f, 1, a, [b, c], m);
    ExecStep(f, 1, b, [c], m1);
    ExecStep(f, 1, c, [], m2);
    ExecNone(f, 1, m3);
    RunsItsBody(f, DoFitboot, m);
  }

  lemma RunsItsBody(f: Failures, s: Script, m: Machine)
    ensures Step(f, Run(s), m) == Exec(f, Level(s), Body(s), m)
  {
  }

  /** The script do_legacyboot, from where the variables point to src. */
  lemma LegacybootBoots(f: Failures, m: Machine, src: Source, got: set<Memory>)
    requires LoadedFrom(m, src, got) && !m.over
    ensures var t, arg := Step(f, Run(DoLegacyboot), m), SlotArg(f, m, m.steps + 2);
            && |t.boots| == |m.boots| + 1 && t.boots[..|m.boots|] == m.boots
            && IsBoot(t.boots[|m.boots|], true, src, LegacyGot(f, m.steps, got) * {KernelImage, FdtBlob}, arg)
  {
    var a, b, c, d := Run(LoadKernel), Run(LoadFdt), Run(SetBootargs), BootmLegacy;
    LegacyBodies();
    hide Exec, Do, Body, LoadedFrom, IsBoot, Step, Got, Below;
    var got1, got2 := got + Got(f, m.steps, KernelImage), LegacyGot(f, m.steps, got);
    var m1 := Step(f, a, m);
    LoadKeeps(f, m, src, got, LoadKernel, KernelImage);
    var m2 := Step(f, b, m1);
    LoadKeeps(f, m1, src, got1, LoadFdt, FdtBlob);
    var m3 := Step(f, c, m2);
    SetBootargsSets(f, m2, src, got2);
    var m4 := Step(f, d, m3);
    BootmBoots(f, m3, src, got2, d);
    ExecFour(f, a, b, c, d, m);
    RunsItsBody(f, DoLegacyboot, m);
  }

  lemma LegacyBodies()
    ensures Body(DoLegacyboot) == [Run(LoadKernel), Run(LoadFdt), Run(SetBootargs), BootmLegacy]
    ensures Body(LoadKernel) == [Ext4load(KernelImage)] && Body(LoadFdt) == [Ext4load(FdtBlob)]
  {
  }

  /** Four commands in a row, none of which but the last can end the script. */
  lemma ExecFour(f: Failures, a: Cmd, b: Cmd, c: Cmd, d: Cmd, m: Machine)
    requires Below([a, b, c, d], 1) && !m.over && !Step(f, a, m).over
    requires !Step(f, b, Step(f, a, m)).over && !Step(f, c, Step(f, b, Step(f, a, m))).over
    ensures Exec(f, 1, [a, b, c, d], m) == Step(f, d, Step(f, c, Step(f, b, Step(f, a, m))))
  {
    hide Exec, Step, Below;
    assert [a] + [b, c, d] == [a, b, c, d] && [b] + [c, d] == [b, c, d] && [c] + [d] == [c, d] && [d] + [] == [d];
    var m1 := Step(f, a, m);
    var m2 := Step(f, b, m1);
    var m3 := Step(f, c, m2);
    ExecStep(f, 1, a, [b, c, d], m);
    ExecStep(f, 1, b, [c, d], m1);
    ExecStep(f, 1, c, [d], m2);
    ExecStep(f, 1, d, [], m3);
    ExecNone(f, 1, Step(f, d, m3));
  }

  function LegacyGot(f: Failures, step: nat, got: set<Memory>): set<Memory> {
    got + Got(f, step, KernelImage) + Got(f, step + 1, FdtBlob)
  }

  // ---- The boot commands ----

  /** What board_generate_bootcmd prints for a slot, with or without the legacy path. */
  function BootScript(slot: Slot, legacy: bool): (cs: seq<Cmd>)
    ensures Below(cs, 2)
  {
    if legacy then [Run(SetupPart(slot)), Run(DoFitboot), Run(DoLegacyboot), Reset]
    else [Run(SetupPart(slot)), Run(DoFitboot), Reset]
  }

  /** The machine when a boot command starts: since the reset nothing was loaded or booted; what
      the variables hold is arbitrary. */
  predicate JustReset(m: Machine) {
    !m.over && m.memory == map[] && m.boots == []
  }

  /** The slot that a boot command gives each kernel, the second if the first boot fails. */
  function FirstArg(f: Failures, m: Machine, slot: Slot): string {
    if f.setenvFails(m.steps + 5) then m.slotArg else Assigned(f, m, m.steps + 3, Firmwareslot, slot.Name())
  }

  function SecondArg(f: Failures, m: Machine, slot: Slot): string {
    if f.setenvFails(m.steps + 9) then FirstArg(f, m, slot)
    else Assigned(f, m, m.steps + 3, Firmwareslot, slot.Name())
  }

  /** All that a boot command boots: first the FIT image, and if that fails and there is the legacy
      path, the legacy image; of each, just what could be loaded. It ends in a boot or a reset. */
  lemma BootScriptBoots(f: Failures, m: Machine, slot: Slot, legacy: bool)
    requires JustReset(m)
    ensures var t, src := Exec(f, 2, BootScript(slot, legacy), m), LoadsFrom(f, m, slot);
            && |t.boots| == (if legacy && f.fails(m.steps + 6) then 2 else 1)
            && IsBoot(t.boots[0], false, src, Got(f, m.steps + 4, FitImage), FirstArg(f, m, slot))
            && (|t.boots| == 2 ==>
                  IsBoot(t.boots[1], true, src, Got(f, m.steps + 7, KernelImage) + Got(f, m.steps + 8, FdtBlob),
                         SecondArg(f, m, slot)))
            && t.over
  {
    hide Exec, Do, Body, IsBoot, Step, FirstArg, SecondArg, LoadsFrom, LoadedFrom, Got;
    var a, b := Run(SetupPart(slot)), Run(DoFitboot);
    var rest := if legacy then [Run(DoLegacyboot), Reset] else [Reset];
    assert BootScript(slot, legacy) == [a] + ([b] + rest);
    var m1 := Step(f, a, m);
    var m2 := Step(f, b, m1);
    FirstBoots(f, m, slot);
    ExecStep(f, 2, a, [b] + rest, m);
    ExecStep(f, 2, b, rest, m1);
    if m2.over {
      ExecOver(f, 2, rest, m2);
    } else if legacy {
      SecondBoots(f, m, slot);
      assert rest == [Run(DoLegacyboot)] + [Reset];
      ExecStep(f, 2, Run(DoLegacyboot), [Reset], m2);
      ResetKeeps(f, Step(f, Run(DoLegacyboot), m2));
    } else {
      ResetKeeps(f, m2);
    }
  }

  lemma FirstBoots(f: Failures, m: Machine, slot: Slot)
    requires JustReset(m)
    ensures var m1 := Step(f, Run(SetupPart(slot)), m); var m2 := Step(f, Run(DoFitboot), m1);
            && !m1.over && m2.over == !f.fails(m.steps + 6) && m2.steps == m.steps + 7
            && LoadedFrom(m2, LoadsFrom(f, m, slot), Got(f, m.steps + 4, FitImage))
            && m2.slotArg == FirstArg(f, m, slot)
            && m2.Get(Firmwareslot) == Assigned(f, m, m.steps + 3, Firmwareslot, slot.Name())
            && |m2.boots| == 1
            && IsBoot(m2.boots[0], false, LoadsFrom(f, m, slot), Got(f, m.steps + 4, FitImage), FirstArg(f, m, slot))
  {
    hide Exec, Do, Body, IsBoot, Step, LoadsFrom;
    var m1, got := Step(f, Run(SetupPart(slot)), m), Got(f, m.steps + 4, FitImage);
    SetupPartSets(f, m, slot);
    assert AllFrom({}, LoadsFrom(f, m, slot)) == map[];
    FitbootBoots(f, m1, LoadsFrom(f, m, slot), {});
    assert {} + got == got && got * {FitImage} == got;
  }

  lemma SecondBoots(f: Failures, m: Machine, slot: Slot)
    requires JustReset(m) && f.fails(m.steps + 6)
    ensures var m2 := Step(f, Run(DoFitboot), Step(f, Run(SetupPart(slot)), m));
            var t := Step(f, Run(DoLegacyboot), m2);
            && |m2.boots| == 1 && |t.boots| == 2 && t.boots[0] == m2.boots[0]
            && IsBoot(t.boots[1], true, LoadsFrom(f, m, slot),
                      Got(f, m.steps + 7, KernelImage) + Got(f, m.steps + 8, FdtBlob), SecondArg(f, m, slot))
  {
    hide Exec, Do, Body, IsBoot, Step, LoadsFrom, FirstArg, LoadedFrom, Assigned;
    FirstBoots(f, m, slot);
    var m2 := Step(f, Run(DoFitboot), Step(f, Run(SetupPart(slot)), m));
    LegacybootBoots(f, m2, LoadsFrom(f, m, slot), Got(f, m.steps + 4, FitImage));
    assert LegacyGot(f, m2.steps, Got(f, m.steps + 4, FitImage)) * {KernelImage, FdtBlob}
        == Got(f, m.steps + 7, KernelImage) + Got(f, m.steps + 8, FdtBlob);
    var t := Step(f, Run(DoLegacyboot), m2);
    assert t.boots[..1][0] == t.boots[0];
  }

  lemma ResetKeeps(f: Failures, m: Machine)
    ensures Exec(f, 2, [Reset], m).boots == m.boots && Exec(f, 2, [Reset], m).over
  {
    if m.over {
      ExecOver(f, 2, [Reset], m);
    } else {
      assert [Reset] + [] == [Reset];
      ExecStep(f, 2, Reset, [], m);
      ExecNone(f, 2, Step(f, Reset, m));
    }
  }

  /** The slot whose root file system hiposmount mounts for this command line. */
  function RootfsSlot(slotArg: string): Slot {
    if slotArg == "a" then A else B
  }

  /** Everything is of one slot: the partition that the variables point to, whatever was loaded, the
      kernel's argument and the root file system. */
  predicate Agrees(b: Boot, slot: Slot) {
    && b.source == slot.Home() && (forall w :: w in b.loaded ==> b.loaded[w] == slot.Home())
    && b.slotArg == slot.Name() && RootfsSlot(b.slotArg) == slot
  }

  /** Everything that was booted agrees with the slot. */
  predicate AllAgree(m: Machine, slot: Slot) {
    forall i :: 0 <= i < |m.boots| ==> Agrees(m.boots[i], slot)
  }

  predicate BootsLegacy(m: Machine) {
    exists i :: 0 <= i < |m.boots| && m.boots[i].legacy
  }

  /** What has to work: each variable is set, or was right before; the slot gets onto the command
      line, or was there before; and if there is a second boot, its command line is not made wrong
      again. */
  predicate WillAgree(f: Failures, m: Machine, slot: Slot, legacy: bool) {
    && LoadsFrom(f, m, slot) == slot.Home()
    && FirstArg(f, m, slot) == slot.Name()
    && (legacy && f.fails(m.steps + 6) ==> SecondArg(f, m, slot) == slot.Name())
  }

  /** End-to-end slot agreement: however commands fail, every bootm that is reached boots the kernel
      and mounts the root file system of one and the same slot if and only if every variable could
      be set that was not right already. A legacy image is booted exactly by the legacy path, once the
      FIT image failed. */
  lemma SlotAgreement(f: Failures, m: Machine, slot: Slot, legacy: bool)
    requires JustReset(m)
    ensures var t := Exec(f, 2, BootScript(slot, legacy), m);
            && t.boots != []
            && (AllAgree(t, slot) <==> WillAgree(f, m, slot, legacy))
            && (BootsLegacy(t) <==> legacy && f.fails(m.steps + 6))
  {
    hide Exec, LoadsFrom, FirstArg, SecondArg, Got;
    BootScriptBoots(f, m, slot, legacy);
    var t, src := Exec(f, 2, BootScript(slot, legacy), m), LoadsFrom(f, m, slot);
    AgreesIff(t.boots[0], false, src, Got(f, m.steps + 4, FitImage), FirstArg(f, m, slot), slot);
    if |t.boots| == 2 {
      var got := Got(f, m.steps + 7, KernelImage) + Got(f, m.steps + 8, FdtBlob);
      AgreesIff(t.boots[1], true, src, got, SecondArg(f, m, slot), slot);
      assert t.boots[1].legacy;
    }
  }

  lemma AgreesIff(b: Boot, legacy: bool, src: Source, got: set<Memory>, slotArg: string, slot: Slot)
    requires IsBoot(b, legacy, src, got, slotArg)
    ensures Agrees(b, slot) <==> src == slot.Home() && slotArg == slot.Name()
  {
  }

  /** In particular, they agree if variables can be set. */
  lemma SetenvWorks(f: Failures, m: Machine, slot: Slot, legacy: bool)
    requires JustReset(m) && forall n :: !f.setenvFails(n)
    ensures var t := Exec(f, 2, BootScript(slot, legacy), m);
            AllAgree(t, slot)
  {
    hide Exec;
    SlotAgreement(f, m, slot, legacy);
  }

  /** If just the boot partition cannot be set, the kernel of one slot is booted with the command
      line of the other. */
  lemma SetenvMustNotFail(f: Failures, m: Machine)
    requires JustReset(m) && m.Get(Bootpart) == B.Partition()
    requires forall n :: f.setenvFails(n) <==> n == m.steps + 2
    ensures var t := Exec(f, 2, BootScript(A, false), m);
            |t.boots| == 1 && IsBoot(t.boots[0], false, B.Home(), Got(f, m.steps + 4, FitImage), A.Name())
  {
    hide Exec;
    BootScriptBoots(f, m, A, false);
  }

  // ---- Their text ----

  function ScriptName(s: Script): string {
    match s
    case SetupPart(slot) => "setup_part_" + slot.Name()
    case DoFitboot => "do_fitboot"
    case DoLegacyboot => "do_legacyboot"
    case LoadFitimage => "load_fitimage"
    case LoadKernel => "load_kernel"
    case LoadFdt => "load_fdt"
    case SetBootargs => "setbootargs"
  }

  function VarName(v: Var): string {
    match v
    case Boottype => "boottype"
    case Bootdev => "bootdev"
    case Bootpart => "bootpart"
    case Firmwareslot => "firmwareslot"
  }

  const SOURCE_TEXT := "${boottype} ${bootdev}:${bootpart} "
  const BOOTARGS_TEXT := "console=ttymxc1,115200 " + "root=${bootroot} rootwait " + "mxc_hdmi.only_cea=0 "
                         + "firmwareslot=${firmwareslot}"

  function MemoryText(w: Memory): string {
    match w
    case FitImage => "${fit_addr} ${fit_file}"
    case KernelImage => "${kernel_addr} ${kernel_file}"
    case FdtBlob => "${fdt_addr} ${fdt_file}"
  }

  function CmdText(c: Cmd): string {
    match c
    case Run(s) => "run " + ScriptName(s)
    case Setenv(name, value) => "setenv " + VarName(name) + " " + value
    case SetenvBootargs => "setenv bootargs " + BOOTARGS_TEXT
    case Ext4load(w) => "ext4load " + SOURCE_TEXT + MemoryText(w)
    case BootmFit => "bootm ${fit_addr}#${fit_conf}"
    case BootmLegacy => "bootm ${kernel_addr} - ${fdt_addr}"
    case Reset => "reset"
  }

  /** Commands as the environment stores them, with "; " between them. */
  function ScriptText(cs: seq<Cmd>): string {
    if cs == [] then "" else if |cs| == 1 then CmdText(cs[0]) else CmdText(cs[0]) + "; " + ScriptText(cs[1..])
  }

  lemma ScriptTextStep(c: Cmd, cs: seq<Cmd>)
    requires cs != []
    ensures ScriptText([c] + cs) == CmdText(c) + "; " + ScriptText(cs)
  {
    hide CmdText;
    assert ([c] + cs)[1..] == cs;
  }

  lemma ScriptTextOne(c: Cmd)
    ensures ScriptText([c]) == CmdText(c)
  {
  }

  /** The text that the environment holds for each script. */
  function StoredText(s: Script): string {
    match s
    case SetupPart(A) =>
        "setenv boottype mmc; " + "setenv bootdev 0; " + "setenv bootpart 1; " + "setenv firmwareslot a;"
    case SetupPart(B) =>
        "setenv boottype mmc; " + "setenv bootdev 0; " + "setenv bootpart 2; " + "setenv firmwareslot b;"
    case DoFitboot => "run load_fitimage; " + "run setbootargs; " + "bootm ${fit_addr}#${fit_conf}"
    case DoLegacyboot =>
      "run load_kernel; " + "run load_fdt; " + "run setbootargs; " + "bootm ${kernel_addr} - ${fdt_addr}"
    case LoadFitimage => "ext4load " + SOURCE_TEXT + "${fit_addr} ${fit_file}"
    case LoadKernel => "ext4load " + SOURCE_TEXT + "${kernel_addr} ${kernel_file}"
    case LoadFdt => "ext4load " + SOURCE_TEXT + "${fdt_addr} ${fdt_file}"
    case SetBootargs => "setenv bootargs " + BOOTARGS_TEXT
  }

  /** The text of each script is that of the commands which the interpreter runs for it, those of the
      setup scripts with a semicolon after the last. */
  lemma TextsAreStored(s: Script)
    ensures StoredText(s) == ScriptText(Body(s)) + if s.SetupPart? then ";" else ""
  {
    var cs := Body(s);
    match s {
      case SetupPart(slot) => SetupText(slot);
      case DoFitboot => FitbootText();
      case DoLegacyboot => LegacybootText();
      case _ =>
        ScriptTextOne(cs[0]);
        assert CmdText(cs[0]) + "" == CmdText(cs[0]);
    }
  }

  lemma TwoTexts(c: Cmd, d: Cmd)
    ensures ScriptText([c, d]) == CmdText(c) + "; " + CmdText(d)
  {
    hide CmdText, ScriptText;
    assert [c] + [d] == [c, d];
    ScriptTextStep(c, [d]);
    ScriptTextOne(d);
  }

  lemma RunTexts()
    ensures "run load_fitimage; " == "run " + "load_fitimage" + "; "
    ensures "run setbootargs; " == "run " + "setbootargs" + "; "
    ensures "run load_kernel; " == "run " + "load_kernel" + "; " && "run load_fdt; " == "run " + "load_fdt" + "; "
  {
  }

  lemma FitbootText()
    ensures StoredText(DoFitboot) == ScriptText(Body(DoFitboot)) + ""
  {
    var a, b, c := Run(LoadFitimage), Run(SetBootargs), BootmFit;
    assert Body(DoFitboot) == [a] + [b, c];
    hide ScriptText;
    RunTexts();
    ScriptTextStep(a, [b, c]);
    TwoTexts(b, c);
    Regroup(CmdText(a) + "; ", CmdText(b) + "; ", CmdText(c));
    assert StoredText(DoFitboot) + "" == StoredText(DoFitboot);
  }

  lemma Regroup(a: string, b: string, c: string)
    ensures a + (b + c) == a + b + c
  {
  }

  lemma LegacybootText()
    ensures StoredText(DoLegacyboot) == ScriptText(Body(DoLegacyboot)) + ""
  {
    var a, b, c, d := Run(LoadKernel), Run(LoadFdt), Run(SetBootargs), BootmLegacy;
    assert Body(DoLegacyboot) == [a] + [b, c, d] && [b] + [c, d] == [b, c, d];
    hide ScriptText;
    RunTexts();
    ScriptTextStep(a, [b, c, d]);
    ScriptTextStep(b, [c, d]);
    TwoTexts(c, d);
    Regroup(CmdText(b) + "; ", CmdText(c) + "; ", CmdText(d));
    Regroup(CmdText(a) + "; ", CmdText(b) + "; " + (CmdText(c) + "; "), CmdText(d));
    Regroup(CmdText(a) + "; ", CmdText(b) + "; ", CmdText(c) + "; ");
    assert StoredText(DoLegacyboot) + "" == StoredText(DoLegacyboot);
  }

  lemma SetenvTexts()
    ensures "setenv boottype mmc; " == CmdText(Setenv(Boottype, "mmc")) + "; "
    ensures "setenv bootdev 0; " == CmdText(Setenv(Bootdev, "0")) + "; "
  {
  }

  lemma PartitionTexts()
    ensures "setenv bootpart 1; " == "setenv " + "bootpart" + " " + "1" + "; "
    ensures "setenv bootpart 2; " == "setenv " + "bootpart" + " " + "2" + "; "
  {
  }

  lemma NameTexts()
    ensures "setenv firmwareslot a;" == "setenv " + "firmwareslot" + " " + "a" + ";"
    ensures "setenv firmwareslot b;" == "setenv " + "firmwareslot" + " " + "b" + ";"
  {
  }

  lemma SetupText(slot: Slot)
    ensures StoredText(SetupPart(slot)) == ScriptText(Body(SetupPart(slot))) + ";"
  {
    var a, b, c, d := Setenv(Boottype, "mmc"), Setenv(Bootdev, "0"), Setenv(Bootpart, slot.Partition()),
                      Setenv(Firmwareslot, slot.Name());
    assert Body(SetupPart(slot)) == [a] + [b, c, d] && [b] + [c, d] == [b, c, d];
    hide ScriptText;
    SetenvTexts();
    PartitionTexts();
    NameTexts();
    ScriptTextStep(a, [b, c, d]);
    ScriptTextStep(b, [c, d]);
    TwoTexts(c, d);
    FourTexts(CmdText(a) + "; ", CmdText(b) + "; ", CmdText(c) + "; ", CmdText(d));
  }

  lemma FourTexts(a: string, b: string, c: string, d: string)
    ensures a + (b + (c + d)) + ";" == a + b + c + (d + ";")
  {
  }
}
