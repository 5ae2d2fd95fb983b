/** The FIT manifest (fitimage.bbclass): the tree that a list of images is meant to become, and
    the printer that writes it. */
module Manifest {
  import opened Wrappers
  import opened Text
  import opened Dts
  import opened Its

  // ---- Inputs ----

  /** The variables that the class reads; "" where one is unset. `dtbDefault` and `dtboDefault`
      are what get_dtbs finds for the two suffixes. */
  datatype Settings = Settings(
    description: string, hashAlgo: string, arch: string,
    loadaddr: string, entry: string, dtbLoadaddr: string, dtboLoadaddr: string, rdLoadaddr: string, rdEntry: string,
    sign: bool, encryptAlgo: string, keyname: string, signer: string, signerVersion: string,
    confPrefix: string, defaultConfig: string, deployDir: string, buildDir: string,
    kernelDefault: string, dtbDefault: string, dtboDefault: string,
    initramfsFstype: Option<string>, machineSuffix: string)

  /** One entry of FITIMAGE_IMAGES with its flags. */
  datatype Image = Image(imgtype: Option<string>, file: Option<string>, fstype: Option<string>,
                         comp: Option<string>, name: Option<string>, recipe: string)

  datatype Fdtget = Failed | Output(text: string)

  /** What the external tools answer. */
  datatype Tools = Tools(fdtget: string -> Fdtget, overlayWorks: string -> bool)

  function Or(o: Option<string>, default: string): string {
    if o.Some? then o.value else default
  }

  // ---- The intended nodes ----

  function StrProp(name: string, s: string): Property { Property(name, StringValue(s)) }

  function OptCells(name: string, cells: string): seq<Property> {
    if cells == "" then [] else [Property(name, CellsValue(cells))]
  }

  function OptStr(name: string, s: string): seq<Property> {
    if s == "" then [] else [StrProp(name, s)]
  }

  function Data(dir: string, file: string): Property {
    Property("data", IncbinValue(dir + "/" + file))
  }

  function HashNode(d: Settings): Node {
    Node("hash-1", [StrProp("algo", d.hashAlgo)], [])
  }

  /** The properties that describe a blob, whatever it is. */
  function BlobProps(d: Settings, description: string, dir: string, file: string, kind: string, os: string,
                     comp: string): seq<Property>
  {
    [StrProp("description", description), Data(dir, file), StrProp("type", kind), StrProp("arch", d.arch)]
    + OptStr("os", os) + [StrProp("compression", comp)]
  }

  function KernelNode(d: Settings, source: string, comp: string): Node {
    Node("kernel-1",
         BlobProps(d, "Linux kernel", d.deployDir, source, "kernel", "linux", comp)
         + OptCells("load", d.loadaddr) + OptCells("entry", d.entry),
         [HashNode(d)])
  }

  function FdtNode(d: Settings, file: string, dir: string, overlay: bool): Node {
    Node("fdt-" + file,
         BlobProps(d, if overlay then "Flattened Device Tree Overlay blob" else "Flattened Device Tree blob",
                   dir, file, "flat_dt", "", "none")
         + OptCells("load", if overlay then d.dtboLoadaddr else d.dtbLoadaddr),
         [HashNode(d)])
  }

  function RamdiskNode(d: Settings, file: string): Node {
    Node("ramdisk-1",
         BlobProps(d, file, d.deployDir, file, "ramdisk", "linux", "none")
         + OptCells("load", d.rdLoadaddr) + OptCells("entry", d.rdEntry),
         [HashNode(d)])
  }

  function BootscriptNode(d: Settings, file: string): Node {
    Node("bootscr-" + file, BlobProps(d, "U-boot script", d.deployDir, file, "script", "linux", "none"), [HashNode(d)])
  }

  function SignatureNode(d: Settings, signImages: seq<string>): Node {
    Node("signature-1",
         [StrProp("algo", d.hashAlgo + "," + d.encryptAlgo)] + OptStr("key-name-hint", d.keyname)
         + [Property("sign-images", StringsValue(signImages)), StrProp("signer-name", d.signer),
            StrProp("signer-version", d.signerVersion)],
         [])
  }

  function Decimal(n: nat): string {
    if n < 10 then [('0' as int + n) as char] else Decimal(n / 10) + [('0' as int + n % 10) as char]
  }

  /** What the configurations refer to besides their device tree. */
  datatype Extras = Extras(ramdisk: bool, bootscript: string)

  function ConfDescription(x: Extras, dtb: string, count: nat): string {
    Decimal(count) + " Linux kernel" + (if dtb != "" then ", FDT blob" else "")
    + (if x.ramdisk then ", ramdisk" else "") + (if x.bootscript != "" then ", u-boot script" else "")
  }

  function SignImages(x: Extras, dtb: string): seq<string> {
    ["kernel"] + (if dtb != "" then ["fdt"] else []) + (if x.ramdisk then ["ramdisk"] else [])
    + (if x.bootscript != "" then ["bootscr"] else [])
  }

  function Signed(d: Settings, signImages: seq<string>): seq<Node> {
    if d.sign then [SignatureNode(d, signImages)] else []
  }

  function ConfNode(d: Settings, x: Extras, dtb: string, compatible: string, count: nat): Node {
    Node(d.confPrefix + dtb,
         [StrProp("description", ConfDescription(x, dtb, count)), StrProp("kernel", "kernel-1"),
          StrProp("fdt", "fdt-" + dtb)]
         + (if x.ramdisk then [StrProp("ramdisk", "ramdisk-1")] else [])
         + (if x.bootscript != "" then [StrProp("bootscr", "bootscr-" + x.bootscript)] else [])
         + OptStr("compatible", compatible),
         Signed(d, SignImages(x, dtb)))
  }

  function OverlayConfNode(d: Settings, dtb: string, compatible: string): Node {
    Node(dtb,
         [StrProp("description", "Device Tree Overlay"), StrProp("fdt", "fdt-" + dtb)]
         + OptStr("compatible", compatible),
         Signed(d, ["fdt"]))
  }

  // ---- The intended tree ----

  /** What the loop over the images has gathered; the device trees are kept in strings. */
  datatype Plan = Plan(images: seq<Node>, dtbs: string, dtbos: string, extras: Extras)

  function AddFdts(d: Settings, p: Plan, ws: seq<string>, overlay: bool): Plan
    decreases |ws|
  {
    if ws == [] then p
    else AddFdts(d, AddFdt(d, p, ws[0], overlay), ws[1..], overlay)
  }

  function AddFdt(d: Settings, p: Plan, w: string, overlay: bool): Plan {
    var q := p.(images := p.images + [FdtNode(d, Tail(w), Head(w), overlay)]);
    if overlay then q.(dtbos := p.dtbos + " " + w) else q.(dtbs := p.dtbs + " " + w)
  }

  predicate EndsWith(s: string, suffix: string) {
    |suffix| <= |s| && s[|s| - |suffix|..] == suffix
  }

  /** The fdtoverlay command for a base device tree and its overlays; None if one of them has
      the wrong suffix. */
  function OverlayCommand(d: Settings, cmd: string, ws: seq<string>, result: string): Option<string>
    decreases |ws|
  {
    if ws == [] then Some(cmd)
    else
      var dir := if Head(ws[0]) == "" then d.deployDir else Head(ws[0]);
      var file := dir + "/" + Tail(ws[0]);
      if cmd == "" then
        if EndsWith(Tail(ws[0]), ".dtb")
        then OverlayCommand(d, "fdtoverlay -i " + file + " -o " + result, ws[1..], result) else None
      else if EndsWith(Tail(ws[0]), ".dtbo") then OverlayCommand(d, cmd + " " + file, ws[1..], result)
      else None
  }

  /** One round of the loop over the images; None if it ends in bb.fatal. */
  function AddImage(d: Settings, t: Tools, p: Plan, i: Image): Option<Plan> {
    var imgtype := Or(i.imgtype, "kernel");
    if imgtype == "kernel" then
      Some(p.(images := p.images + [KernelNode(d, Or(i.file, d.kernelDefault), Or(i.comp, "none"))]))
    else if imgtype == "fdt" || imgtype == "fdto" then
      var files := Or(i.file, if imgtype == "fdt" then d.dtbDefault else d.dtboDefault);
      if files == "" then None else Some(AddFdts(d, p, Split(files), imgtype == "fdto"))
    else if imgtype == "fdtapply" then
      if Or(i.file, "") == "" || Or(i.name, "") == "" then None
      else
        var result := d.buildDir + "/" + i.name.value;
        var cmd := OverlayCommand(d, "", Split(i.file.value), result);
        if cmd.None? || !t.overlayWorks(cmd.value) then None else Some(AddFdt(d, p, result, false))
    else if imgtype == "ramdisk" then
      if d.initramfsFstype.None? then None
      else
        var file := i.recipe + d.machineSuffix + "." + Or(i.fstype, d.initramfsFstype.value);
        Some(p.(images := p.images + [RamdiskNode(d, file)], extras := p.extras.(ramdisk := true)))
    else if imgtype == "bootscript" then
      if p.extras.bootscript != "" then None
      else Some(p.(images := p.images + [BootscriptNode(d, Or(i.file, "None"))],
                   extras := p.extras.(bootscript := Or(i.file, ""))))
    else None
  }

  function AddImages(d: Settings, t: Tools, p: Plan, images: seq<Image>): Option<Plan>
    decreases |images|
  {
    if images == [] then Some(p)
    else
      var q := AddImage(d, t, p, images[0]);
      if q.None? then None else AddImages(d, t, q.value, images[1..])
  }

  const NO_PLAN := Plan([], "", "", Extras(false, ""))

  /** The first word that fdtget prints for a device tree; "" if it fails and may; None if the
      build fails. */
  function Compatible(t: Tools, dtb: string, overlay: bool): Option<string> {
    var r := t.fdtget(dtb);
    if r.Failed? then if overlay then Some("") else None
    else if Split(r.text) == [] then None else Some(Split(r.text)[0])
  }

  function Confs(d: Settings, t: Tools, x: Extras, dtbs: seq<string>, count: nat): Option<seq<Node>>
    decreases |dtbs|
  {
    if dtbs == [] then Some([])
    else
      var c, rest := Compatible(t, dtbs[0], false), Confs(d, t, x, dtbs[1..], count + 1);
      if c.None? || rest.None? then None
      else Some([ConfNode(d, x, Tail(dtbs[0]), c.value, count)] + rest.value)
  }

  function OverlayConfs(d: Settings, t: Tools, dtbos: seq<string>): Option<seq<Node>>
    decreases |dtbos|
  {
    if dtbos == [] then Some([])
    else
      var c, rest := Compatible(t, dtbos[0], true), OverlayConfs(d, t, dtbos[1..]);
      if c.None? || rest.None? then None
      else Some([OverlayConfNode(d, Tail(dtbos[0]), c.value)] + rest.value)
  }

  /** The default configuration: that of the first device tree, unless one is set. */
  function DefaultProps(d: Settings, dtb: string): seq<Property> {
    OptStr("default", if d.defaultConfig != "" then d.defaultConfig else d.confPrefix + dtb)
  }

  function ImagesNode(p: Plan): Node {
    Node("images", [], p.images)
  }

  function RootProps(d: Settings): seq<Property> {
    [StrProp("description", d.description), Property("#address-cells", CellsValue("1"))]
  }

  /** The `configurations` section; None if the build fails, as it does if it would be empty. */
  function Configurations(d: Settings, t: Tools, p: Plan): Option<Node> {
    var dtbs, dtbos := Split(p.dtbs), Split(p.dtbos);
    var confs, overlays := Confs(d, t, p.extras, dtbs, 1), OverlayConfs(d, t, dtbos);
    if confs.None? || overlays.None? || (dtbs == [] && dtbos == []) then None
    else
      Some(Node("configurations", if dtbs == [] then [] else DefaultProps(d, Tail(dtbs[0])),
                confs.value + overlays.value))
  }

  /** The tree that the images are meant to become; None if the build fails. */
  function Tree(d: Settings, t: Tools, images: seq<Image>): Option<Node> {
    var p := AddImages(d, t, NO_PLAN, images);
    if p.None? then None
    else
      var configurations := Configurations(d, t, p.value);
      if configurations.None? then None
      else Some(Node("/", RootProps(d), [ImagesNode(p.value), configurations.value]))
  }
}
