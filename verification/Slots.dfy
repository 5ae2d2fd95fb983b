/** Choosing the firmware slot (himx0294.c of the hipos-cyber-security bootloader): which slot
    boots, when the choice is toggled, and what is persisted. */
module Slots {
  import opened Text
  import opened Scripts
  import opened FitConf

  // ---- HAB state ----

  datatype HabStatus = HabSuccess | HabOther
  datatype HabConfig = CfgOpen | CfgClosed | CfgOther
  datatype HabMode = NonSecure | Trusted | ModeOther

  /** get_hab_state: 0 for an open and 1 for a closed device, -1 when in doubt. */
  function GetHabState(enabled: bool, status: HabStatus, config: HabConfig, mode: HabMode): int {
    if !enabled && status == HabSuccess && config == CfgOpen && mode == NonSecure then 0
    else if enabled && status == HabSuccess && config == CfgClosed && mode == Trusted then 1
    else -1
  }

  /** The state is 0 or 1 only if every criterion says so, and -1 otherwise. */
  lemma HabStates(enabled: bool, status: HabStatus, config: HabConfig, mode: HabMode)
    ensures var hab := GetHabState(enabled, status, config, mode);
            && (hab == 0 <==> !enabled && status == HabSuccess && config == CfgOpen && mode == NonSecure)
            && (hab == 1 <==> enabled && status == HabSuccess && config == CfgClosed && mode == Trusted)
            && (hab == 0 || hab == 1 || hab == -1)
  {
  }

  // ---- The environment ----

  /** The variables that are loaded and saved, as env_get_ulong returns them. */
  datatype Env = Env(firmware: int, upgradeAvailable: int, ustate: int)

  /** User space has asked for an update to be booted. */
  predicate Pending(e: Env) {
    e.upgradeAvailable == 1 && e.ustate == 1
  }

  function SlotOf(firmware: int): Slot {
    if firmware == 1 then B else A
  }

  /** The slot that a boot from this environment tries first. */
  function Primary(e: Env): Slot {
    if Pending(e) then SlotOf(e.firmware).Other() else SlotOf(e.firmware)
  }

  /** The environment after the boot command has been generated. */
  function Toggled(e: Env): Env {
    if Pending(e) then Env(if e.firmware == 1 then 0 else 1, e.upgradeAvailable, 2) else e
  }

  /** The boot goes to slot B if `firmware` is 1, and to A otherwise; a request turns that around, and
      then `firmware` is the other one and `ustate` is 2. */
  lemma PrimaryIs(e: Env)
    ensures var pending := e.upgradeAvailable == 1 && e.ustate == 1; var t := Toggled(e);
            && Pending(e) == pending
            && t.firmware == (if !pending then e.firmware else if e.firmware == 1 then 0 else 1)
            && t.ustate == (if pending then 2 else e.ustate) && t.upgradeAvailable == e.upgradeAvailable
            && (Primary(e) == B <==> t.firmware == 1)
            && Primary(t) == Primary(e)
  {
  }

  /** snprintf into a buffer of the given size: what does not fit is cut off. */
  function Snprintf(size: nat, text: string): string
    requires size > 0
  {
    if |text| < size then text else text[..size - 1]
  }

  const FIT_TAIL := "; run do_fitboot; reset;"
  const LEGACY_TAIL := "; run do_fitboot; run do_legacyboot; reset;"

  lemma SetupLiteral()
    ensures "run setup_part_" == "run " + "setup_part_"
  {
  }

  lemma FitLiteral()
    ensures FIT_TAIL == "; " + ("run " + "do_fitboot" + "; " + "reset") + ";"
  {
  }

  lemma LegacyLiteral()
    ensures LEGACY_TAIL == "; " + ("run " + "do_fitboot" + "; " + ("run " + "do_legacyboot" + "; " + "reset")) + ";"
  {
    LegacyHead();
    LegacyEnd();
    LegacySplit();
    var x, y, z := "; ", "run " + "do_fitboot" + "; ", "run " + "do_legacyboot" + "; " + "reset";
    assert (x + y) + (z + ";") == x + (y + z) + ";";
  }

  lemma LegacySplit()
    ensures LEGACY_TAIL == "; run do_fitboot; " + "run do_legacyboot; reset;"
  {
  }

  lemma LegacyHead()
    ensures "; run do_fitboot; " == "; " + ("run " + "do_fitboot" + "; ")
  {
  }

  lemma LegacyEnd()
    ensures "run do_legacyboot; reset;" == "run " + "do_legacyboot" + "; " + "reset" + ";"
  {
  }

  /** A boot command as it is stored, with a semicolon after the last command. */
  function BootText(slot: Slot, legacy: bool): string {
    ScriptText(BootScript(slot, legacy)) + ";"
  }

  lemma BootTextIs(slot: Slot, legacy: bool)
    ensures BootText(slot, legacy)
         == "run setup_part_" + slot.Name() + if legacy then LEGACY_TAIL else FIT_TAIL
  {
    var setup, fit, leg := Run(SetupPart(slot)), Run(DoFitboot), Run(DoLegacyboot);
    assert legacy ==> BootScript(slot, legacy) == [setup] + ([fit] + [leg, Reset]);
    assert legacy ==> [fit] + [leg, Reset] == [fit, leg, Reset];
    assert !legacy ==> BootScript(slot, legacy) == [setup] + [fit, Reset];
    hide ScriptText;
    SetupLiteral();
    FitLiteral();
    LegacyLiteral();
    TwoTexts(fit, Reset);
    TwoTexts(leg, Reset);
    ScriptTextStep(fit, [leg, Reset]);
    var rest := if legacy then [fit] + [leg, Reset] else [fit, Reset];
    ScriptTextStep(setup, rest);
    Rejoin("run ", "setup_part_", slot.Name(), ScriptText(rest));
  }

  lemma Rejoin(a: string, b: string, c: string, rest: string)
    ensures a + b + c + ("; " + rest + ";") == a + (b + c) + "; " + rest + ";"
  {
  }

  /** The text printed into a buffer of 64 bytes is the script, and none of it is cut off. */
  lemma BootTextFits(slot: Slot, legacy: bool)
    ensures Snprintf(64, "run setup_part_" + slot.Name() + if legacy then LEGACY_TAIL else FIT_TAIL) ==
            BootText(slot, legacy)
  {
    hide BootText;
    BootTextIs(slot, legacy);
    TailLengths();
  }

  lemma TailLengths()
    ensures |"run setup_part_"| == 15 && |FIT_TAIL| < 48 && |LEGACY_TAIL| < 48
  {
  }

  /** The two commands: `firmware` 1 is slot b, and any other value is slot a. */
  predicate AreCommands(bootcmd: string, altbootcmd: string, firmware: int, legacy: bool) {
    && bootcmd == (if firmware == 1 then "run setup_part_b" else "run setup_part_a") + "; run do_fitboot; reset;"
    && altbootcmd == (if firmware == 1 then "run setup_part_a" else "run setup_part_b")
                     + if legacy then "; run do_fitboot; run do_legacyboot; reset;" else "; run do_fitboot; reset;"
  }

  lemma TextsOfCommands(primary: Slot, legacy: bool)
    ensures AreCommands(BootText(primary, false), BootText(primary.Other(), legacy), if primary == B then 1 else 0,
                        legacy)
    ensures forall b, alt, firmware: int ::
              AreCommands(b, alt, firmware, legacy) == AreCommands(b, alt, if firmware == 1 then 1 else 0, legacy)
  {
    hide BootText;
    BootTextIs(primary, false);
    BootTextIs(primary.Other(), legacy);
    SetupTexts();
  }

  lemma SetupTexts()
    ensures "run setup_part_" + A.Name() == "run setup_part_a" && "run setup_part_" + B.Name() == "run setup_part_b"
  {
  }

  // ---- Which device tree ----

  /** What distinguishes the boards: an IVAP may be a DVREC, with an i.MX6Q or QP; a DVMON may have
      a touch screen. */
  datatype Variant = Ivap(dvrec: bool, qp: bool) | Dvmon(touch: bool) | OtherBoard

  const FDT_DVREC := "/boot/" + "imx6q-himx0294-dvrec.dtb"
  const FDT_DVREC_P := "/boot/" + "imx6qp-himx0294-dvrec.dtb"
  const FDT_DVMON_2 := "/boot/" + "imx6q-himx0294-dvmon-2.dtb"

  /** The device tree file that board_late_init wants, if fdt_file is the board's default. */
  function ChosenFdt(v: Variant, default: string, fdtFile: string): string {
    match v
    case Ivap(dvrec, qp) => if dvrec && fdtFile == default then if qp then FDT_DVREC_P else FDT_DVREC else fdtFile
    case Dvmon(touch) => if touch && fdtFile == default then FDT_DVMON_2 else fdtFile
    case OtherBoard => fdtFile
  }

  /** Which board gets which file: only the default is replaced, for a DVREC by the file for its processor
      and for a DVMON with a touch screen. */
  lemma ChosenFiles(v: Variant, default: string, fdtFile: string)
    ensures var f := ChosenFdt(v, default, fdtFile);
            && (fdtFile != default || v == OtherBoard ==> f == fdtFile)
            && (v.Ivap? && !v.dvrec ==> f == fdtFile) && (v == Dvmon(false) ==> f == fdtFile)
            && (fdtFile == default ==>
                  && (v == Ivap(true, false) ==> f == "/boot/" + "imx6q-himx0294-dvrec.dtb")
                  && (v == Ivap(true, true) ==> f == "/boot/" + "imx6qp-himx0294-dvrec.dtb")
                  && (v == Dvmon(true) ==> f == "/boot/" + "imx6q-himx0294-dvmon-2.dtb"))
  {
  }

  /** And which configuration: for the files that the code puts in itself, the names that the manifest has
      them under. They are short enough for the buffer of fit_conf, the last of them just so. */
  lemma ChosenNamesFit(v: Variant, default: string, fdtFile: string)
    ensures var f := ChosenFdt(v, default, fdtFile);
            f != fdtFile ==> '/' in f && |Tail(f)| <= ROOM && FitConfOf(f) == ManifestConf(f)
    ensures fdtFile == default ==>
              var c := FitConfOf(ChosenFdt(v, default, fdtFile));
              && (v == Ivap(true, false) ==> c == "conf-" + "imx6q-himx0294-dvrec.dtb")
              && (v == Ivap(true, true) ==> c == "conf-" + "imx6qp-himx0294-dvrec.dtb")
              && (v == Dvmon(true) ==> c == "conf-" + "imx6q-himx0294-dvmon-2.dtb")
    ensures |Tail(FDT_DVMON_2)| == ROOM
  {
    hide Tail;
    NamesAndLengths();
    InBoot("imx6q-himx0294-dvrec.dtb");
    InBoot("imx6qp-himx0294-dvrec.dtb");
    InBoot("imx6q-himx0294-dvmon-2.dtb");
    NamesAgree(FDT_DVREC, FDT_DVREC);
    NamesAgree(FDT_DVREC_P, FDT_DVREC_P);
    NamesAgree(FDT_DVMON_2, FDT_DVMON_2);
  }

  lemma InBoot(name: string)
    requires '/' !in name
    ensures Tail("/boot/" + name) == name && '/' in "/boot/" + name
  {
    hide Tail;
    var dir := "/boot/";
    assert dir[5] == '/' && |dir| == 6;
    assert (dir + name)[6..] == name && (dir + name)[5] == '/';
    TailIs(dir + name, name);
  }

  lemma NamesAndLengths()
    ensures '/' !in "imx6q-himx0294-dvrec.dtb" && |"imx6q-himx0294-dvrec.dtb"| == 24
    ensures '/' !in "imx6qp-himx0294-dvrec.dtb" && |"imx6qp-himx0294-dvrec.dtb"| == 25
    ensures '/' !in "imx6q-himx0294-dvmon-2.dtb" && |"imx6q-himx0294-dvmon-2.dtb"| == 26
  {
  }

  /** The board's state: the environment in RAM and the one persisted. */
  class Board {
    var env: Env
    var saved: Env
    var bootcmd: string
    var altbootcmd: string
    var fitConf: string
    var cachedHabState: int

    constructor (saved: Env)
      ensures this.saved == saved && cachedHabState == -1
    {
      env, this.saved, bootcmd, altbootcmd, fitConf, cachedHabState := saved, saved, "", "", "", -1;
    }

    /** board_generate_bootcmd; `lands` says whether env_save reaches the storage, which the
        code does not check. */
    method GenerateBootcmd(lands: bool)
      modifies this
      ensures env == Toggled(old(env)) && cachedHabState == old(cachedHabState) && fitConf == old(fitConf)
      ensures saved == if Pending(old(env)) && lands then env else old(saved)
      ensures bootcmd == BootText(Primary(old(env)), false)
      ensures altbootcmd == BootText(Primary(old(env)).Other(), old(env).upgradeAvailable != 0 && cachedHabState == 0)
      ensures var pending := old(env).upgradeAvailable == 1 && old(env).ustate == 1;
              && env.firmware == (if !pending then old(env).firmware else if old(env).firmware == 1 then 0 else 1)
              && env.ustate == (if pending then 2 else old(env).ustate)
              && env.upgradeAvailable == old(env).upgradeAvailable
              && saved == if pending && lands then env else old(saved)
      ensures AreCommands(bootcmd, altbootcmd, env.firmware, env.upgradeAvailable != 0 && cachedHabState == 0)
    {
      hide BootText;
      var firmware, altfirmware;
      if env.upgradeAvailable == 1 && env.ustate == 1 {
        if env.firmware == 1 {
          firmware, altfirmware := "a", "b";
          env := env.(firmware := 0);
        } else {
          firmware, altfirmware := "b", "a";
          env := env.(firmware := 1);
        }
        env := env.(ustate := 2);
        if lands {
          saved := env;
        }
      } else {
        if env.firmware == 1 {
          firmware, altfirmware := "b", "a";
        } else {
          firmware, altfirmware := "a", "b";
        }
      }
      bootcmd := Snprintf(64, "run setup_part_" + firmware + FIT_TAIL);
      if env.upgradeAvailable != 0 && cachedHabState == 0 {
        altbootcmd := Snprintf(64, "run setup_part_" + altfirmware + LEGACY_TAIL);
      } else {
        altbootcmd := Snprintf(64, "run setup_part_" + altfirmware + FIT_TAIL);
      }
      BootTextFits(Primary(old(env)), false);
      BootTextFits(Primary(old(env)).Other(), old(env).upgradeAvailable != 0 && cachedHabState == 0);
      PrimaryIs(old(env));
      TextsOfCommands(Primary(old(env)), old(env).upgradeAvailable != 0 && cachedHabState == 0);
    }

    /** Power-on up to the end of board_late_init: the environment is loaded, the device tree file
        chosen (`sets` says whether the variable can be set), the HAB state cached; then
        the configuration name and the boot commands are generated. */
    method LateInit(v: Variant, default: string, fdtFile: string, sets: bool,
                    enabled: bool, status: HabStatus, config: HabConfig, mode: HabMode, lands: bool)
      requires NUL !in fdtFile
      modifies this
      ensures cachedHabState == GetHabState(enabled, status, config, mode)
      ensures fitConf == FitConfOf(if sets then ChosenFdt(v, default, fdtFile) else fdtFile)
      ensures saved == Next(old(saved), PowerOn(lands))
      ensures bootcmd == BootText(Primary(old(saved)), false)
      ensures altbootcmd ==
              BootText(Primary(old(saved)).Other(), old(saved).upgradeAvailable != 0 && cachedHabState == 0)
      ensures var pending := old(saved).upgradeAvailable == 1 && old(saved).ustate == 1;
              var open := !enabled && status == HabSuccess && config == CfgOpen && mode == NonSecure;
              && env.firmware == (if !pending then old(saved).firmware else if old(saved).firmware == 1 then 0 else 1)
              && saved == (if pending && lands then Env(env.firmware, 1, 2) else old(saved))
              && AreCommands(bootcmd, altbootcmd, env.firmware, old(saved).upgradeAvailable != 0 && open)
    {
      hide ChosenFdt, FitConfOf, BootText, GetHabState, AreCommands;
      env := saved;
      var file := fdtFile;
      var chosen := ChosenFdt(v, default, fdtFile);
      if sets {
        file := chosen;
      }
      NoNuls(v, default, fdtFile);
      cachedHabState := GetHabState(enabled, status, config, mode);
      fitConf := BoardGenerateFitConf(file);
      GenerateBootcmd(lands);
      HabStates(enabled, status, config, mode);
    }
  }

  lemma NoNuls(v: Variant, default: string, fdtFile: string)
    requires NUL !in fdtFile
    ensures NUL !in ChosenFdt(v, default, fdtFile)
  {
    NoNulsInNames();
  }

  lemma NoNulsInNames()
    ensures NUL !in FDT_DVREC && NUL !in FDT_DVREC_P && NUL !in FDT_DVMON_2
  {
  }

  /** The whole of a boot, from the environment and the state of the device to every bootm, however
      commands fail. With slot B for `firmware` 1, turned around by a request: every bootm of
      bootcmd is of the primary slot if and only if its variables could be set, or were right; the
      same of altbootcmd and the other slot. A legacy image is booted exactly from altbootcmd, with
      an update under way, on a device that is open by every criterion, once its FIT image failed. */
  lemma BootEndToEnd(f: Failures, m: Machine, e: Env, enabled: bool, status: HabStatus, config: HabConfig,
                     mode: HabMode)
    requires JustReset(m)
    ensures var hab := GetHabState(enabled, status, config, mode);
            var open := !enabled && status == HabSuccess && config == CfgOpen && mode == NonSecure;
            var toB := (e.firmware == 1) != (e.upgradeAvailable == 1 && e.ustate == 1);
            var slot, alt := if toB then B else A, if toB then A else B;
            var legacy := e.upgradeAvailable != 0 && open;
            var t := Exec(f, 2, BootScript(Primary(e), false), m);
            var u := Exec(f, 2, BootScript(Primary(e).Other(), e.upgradeAvailable != 0 && hab == 0), m);
            && (AllAgree(t, slot) <==> WillAgree(f, m, slot, false))
            && (AllAgree(u, alt) <==> WillAgree(f, m, alt, legacy))
            && !BootsLegacy(t) && (BootsLegacy(u) <==> legacy && f.fails(m.steps + 6))
  {
    hide Exec, WillAgree, AllAgree, BootsLegacy;
    HabStates(enabled, status, config, mode);
    PrimaryIs(e);
    var legacy := e.upgradeAvailable != 0 && !enabled && status == HabSuccess && config == CfgOpen && mode == NonSecure;
    SlotAgreement(f, m, Primary(e), false);
    SlotAgreement(f, m, Primary(e).Other(), legacy);
  }

  // ---- Runs ----

  /** A boot, with the save landing or lost (as by a power cut before it), or user space changing
      the update variables, but not `firmware`. */
  datatype Step = PowerOn(lands: bool) | User(upgradeAvailable: int, ustate: int)

  function Next(e: Env, s: Step): Env {
    match s
    case PowerOn(lands) => if lands then Toggled(e) else e
    case User(u, t) => e.(upgradeAvailable := u, ustate := t)
  }

  function After(e: Env, ss: seq<Step>): Env
    decreases |ss|
  {
    if ss == [] then e else After(Next(e, ss[0]), ss[1..])
  }

  /** User space makes a new request, or takes back one that has not been booted. */
  predicate Requests(e: Env, s: Step) {
    s.User? && !Pending(e) && Pending(Next(e, s))
  }

  predicate Withdraws(e: Env, s: Step) {
    s.User? && Pending(e) && !Pending(Next(e, s))
  }

  function One(b: bool): nat { if b then 1 else 0 }

  function RequestCount(e: Env, ss: seq<Step>): nat
    decreases |ss|
  {
    if ss == [] then 0 else One(Requests(e, ss[0])) + RequestCount(Next(e, ss[0]), ss[1..])
  }

  function WithdrawCount(e: Env, ss: seq<Step>): nat
    decreases |ss|
  {
    if ss == [] then 0 else One(Withdraws(e, ss[0])) + WithdrawCount(Next(e, ss[0]), ss[1..])
  }

  /** How often the persisted slot changes. */
  function ChangeCount(e: Env, ss: seq<Step>): nat
    decreases |ss|
  {
    if ss == [] then 0
    else One(SlotOf(Next(e, ss[0]).firmware) != SlotOf(e.firmware)) + ChangeCount(Next(e, ss[0]), ss[1..])
  }

  /** Conservation: every request is used up by one change of the persisted slot, or withdrawn,
      or still pending. So the slot changes at most once per request. */
  lemma {:induction false} RequestsAreConserved(e: Env, ss: seq<Step>)
    ensures RequestCount(e, ss) + One(Pending(e))
         == ChangeCount(e, ss) + WithdrawCount(e, ss) + One(Pending(After(e, ss)))
    decreases |ss|
  {
    if ss != [] {
      RequestsAreConserved(Next(e, ss[0]), ss[1..]);
    }
  }

  /** Slot stability: after any run of boots, lost saves and changes by user space, the primary slot
      is the same as at its start if and only if requests and withdrawals together are even
      in number. In particular every boot between two requests picks the same slot. */
  lemma {:induction false} SlotStability(e: Env, ss: seq<Step>)
    ensures Primary(After(e, ss)) == Primary(e) <==> (RequestCount(e, ss) + WithdrawCount(e, ss)) % 2 == 0
    decreases |ss|
  {
    if ss != [] {
      SlotStability(Next(e, ss[0]), ss[1..]);
    }
  }

  /** Every boot along a run without requests or withdrawals picks the slot of the first. */
  lemma {:induction false} BootsBetweenRequests(e: Env, ss: seq<Step>, i: nat)
    requires i <= |ss| && RequestCount(e, ss) == 0 && WithdrawCount(e, ss) == 0
    ensures Primary(After(e, ss[..i])) == Primary(e)
    decreases i
  {
    if i > 0 {
      BootsBetweenRequests(Next(e, ss[0]), ss[1..], i - 1);
      assert ss[..i][1..] == ss[1..][..i - 1];
    }
  }
}
