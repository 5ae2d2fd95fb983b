/** What is in a manifest, node by node and property by property, in terms of the variables, the flags
    of the images and the answers of the tools; and when there is one. */
module ManifestContents {
  import opened Wrappers
  import opened Text
  import opened Dts
  import opened Its
  import opened Manifest
  import opened ManifestProps
  import opened DeviceTreeFiles

  // ---- Image nodes ----

  /** The path w is a directory, slashes and a base name; without the directory there may be none. */
  predicate IsPath(w: string, dir: string, slashes: string, base: string) {
    && w == dir + slashes + base && '/' !in base && AllSlashes(slashes)
    && (dir == "" || (dir[|dir| - 1] != '/' && slashes != ""))
  }

  /** n has exactly the properties of a blob that is described so, and one node for its hash. */
  ghost predicate IsBlob(n: Node, d: Settings, description: string, path: string, kind: string, os: string,
                         comp: string, load: string, entry: string)
  {
    && n.kids == [Node("hash-1", [Property("algo", [Str(d.hashAlgo)])], [])]
    && forall p :: p in n.props <==>
         || p == Property("description", [Str(description)])
         || p == Property("data", [Word("/incbin/("), Str(path), Word(")")])
         || p == Property("type", [Str(kind)])
         || p == Property("arch", [Str(d.arch)])
         || (os != "" && p == Property("os", [Str(os)]))
         || p == Property("compression", [Str(comp)])
         || (load != "" && p == Property("load", CellsValue(load)))
         || (entry != "" && p == Property("entry", CellsValue(entry)))
  }

  /** n is the node of the device tree at path w: it is named after the base name and includes the file of
      that name in the directory. */
  ghost predicate IsDeviceTree(n: Node, d: Settings, w: string, description: string, load: string) {
    forall dir, slashes, base :: IsPath(w, dir, slashes, base) ==>
      && n.name == "fdt-" + base
      && IsBlob(n, d, description, (if dir == "" then slashes else dir) + "/" + base, "flat_dt", "", "none", load, "")
  }

  /** n is node number j of those that an image is to have, by its type. */
  ghost predicate Describes(d: Settings, i: Image, j: nat, n: Node) {
    if i.imgtype == None || i.imgtype == Some("kernel") then
      && n.name == "kernel-1"
      && IsBlob(n, d, "Linux kernel", d.deployDir + "/" + Or(i.file, d.kernelDefault), "kernel", "linux",
                Or(i.comp, "none"), d.loadaddr, d.entry)
    else if i.imgtype == Some("fdt") then
      var ws := Split(Or(i.file, d.dtbDefault));
      j < |ws| && IsDeviceTree(n, d, ws[j], "Flattened Device Tree blob", d.dtbLoadaddr)
    else if i.imgtype == Some("fdto") then
      var ws := Split(Or(i.file, d.dtboDefault));
      j < |ws| && IsDeviceTree(n, d, ws[j], "Flattened Device Tree Overlay blob", d.dtboLoadaddr)
    else if i.imgtype == Some("fdtapply") then
      IsDeviceTree(n, d, d.buildDir + "/" + Or(i.name, ""), "Flattened Device Tree blob", d.dtbLoadaddr)
    else if i.imgtype == Some("ramdisk") then
      var file := i.recipe + d.machineSuffix + "." + Or(i.fstype, Or(d.initramfsFstype, ""));
      && n.name == "ramdisk-1"
      && IsBlob(n, d, file, d.deployDir + "/" + file, "ramdisk", "linux", "none", d.rdLoadaddr, d.rdEntry)
    else
      && i.imgtype == Some("bootscript") && n.name == "bootscr-" + Or(i.file, "None")
      && IsBlob(n, d, "U-boot script", d.deployDir + "/" + Or(i.file, "None"), "script", "linux", "none", "", "")
  }

  /** How many nodes an image has. */
  function NodeCount(d: Settings, i: Image): nat {
    if i.imgtype == Some("fdt") then |Split(Or(i.file, d.dtbDefault))|
    else if i.imgtype == Some("fdto") then |Split(Or(i.file, d.dtboDefault))|
    else 1
  }

  /** How many the first k images have. */
  function NodesBefore(d: Settings, images: seq<Image>, k: nat): nat
    requires k <= |images|
  {
    if k == 0 then 0 else NodesBefore(d, images, k - 1) + NodeCount(d, images[k - 1])
  }

  lemma BlobIsDescribed(n: Node, d: Settings, description: string, dir: string, file: string, kind: string, os: string,
                        comp: string, load: string, entry: string)
    requires n.kids == [HashNode(d)]
    requires n.props == BlobProps(d, description, dir, file, kind, os, comp) + OptCells("load", load)
                        + OptCells("entry", entry)
    ensures IsBlob(n, d, description, dir + "/" + file, kind, os, comp, load, entry)
  {
    hide CellsValue;
  }

  lemma FdtIsDescribed(d: Settings, w: string, overlay: bool)
    ensures IsDeviceTree(FdtNode(d, Tail(w), Head(w), overlay), d, w,
                         if overlay then "Flattened Device Tree Overlay blob" else "Flattened Device Tree blob",
                         if overlay then d.dtboLoadaddr else d.dtbLoadaddr)
  {
    hide CellsValue, BlobProps, HashNode, IsBlob, Tail, Head;
    var n, load := FdtNode(d, Tail(w), Head(w), overlay), if overlay then d.dtboLoadaddr else d.dtbLoadaddr;
    var description := if overlay then "Flattened Device Tree Overlay blob" else "Flattened Device Tree blob";
    assert n.props + [] == n.props;
    BlobIsDescribed(n, d, description, Head(w), Tail(w), "flat_dt", "", "none", load, "");
    forall dir, slashes, base | IsPath(w, dir, slashes, base)
      ensures Tail(w) == base && Head(w) == if dir == "" then slashes else dir
    {
      PathSplits(dir, slashes, base);
    }
  }

  lemma KernelIsDescribed(d: Settings, file: string, comp: string)
    ensures KernelNode(d, file, comp).name == "kernel-1"
    ensures IsBlob(KernelNode(d, file, comp), d, "Linux kernel", d.deployDir + "/" + file, "kernel", "linux", comp,
                   d.loadaddr, d.entry)
  {
    hide CellsValue, BlobProps, HashNode, IsBlob;
    BlobIsDescribed(KernelNode(d, file, comp), d, "Linux kernel", d.deployDir, file, "kernel", "linux", comp,
                    d.loadaddr, d.entry);
  }

  lemma RamdiskIsDescribed(d: Settings, file: string)
    ensures RamdiskNode(d, file).name == "ramdisk-1"
    ensures IsBlob(RamdiskNode(d, file), d, file, d.deployDir + "/" + file, "ramdisk", "linux", "none",
                   d.rdLoadaddr, d.rdEntry)
  {
    hide CellsValue, BlobProps, HashNode, IsBlob;
    BlobIsDescribed(RamdiskNode(d, file), d, file, d.deployDir, file, "ramdisk", "linux", "none",
                    d.rdLoadaddr, d.rdEntry);
  }

  lemma ScriptIsDescribed(d: Settings, file: string)
    ensures BootscriptNode(d, file).name == "bootscr-" + file
    ensures IsBlob(BootscriptNode(d, file), d, "U-boot script", d.deployDir + "/" + file, "script", "linux",
                   "none", "", "")
  {
    hide CellsValue, BlobProps, HashNode, IsBlob;
    var n := BootscriptNode(d, file);
    assert n.props + [] + [] == n.props;
    BlobIsDescribed(n, d, "U-boot script", d.deployDir, file, "script", "linux", "none", "", "");
  }

  lemma {:induction false} FdtNodeAt(d: Settings, ws: seq<string>, overlay: bool, j: nat)
    requires j < |ws|
    ensures |FdtNodes(d, ws, overlay)| == |ws|
    ensures FdtNodes(d, ws, overlay)[j] == FdtNode(d, Tail(ws[j]), Head(ws[j]), overlay)
    decreases |ws|
  {
    hide FdtNode, Tail, Head;
    if j > 0 {
      FdtNodeAt(d, ws[1..], overlay, j - 1);
    } else if |ws| > 1 {
      FdtNodeAt(d, ws[1..], overlay, 0);
    }
  }

  predicate BringsTrees(i: Image) {
    i.imgtype == Some("fdt") || i.imgtype == Some("fdto") || i.imgtype == Some("fdtapply")
  }

  lemma NodesAreDescribed(d: Settings, t: Tools, p: Plan, i: Image)
    requires AddImage(d, t, p, i).Some?
    ensures |NodesOf(d, i)| == NodeCount(d, i)
    ensures forall j :: 0 <= j < NodeCount(d, i) ==> Describes(d, i, j, NodesOf(d, i)[j])
  {
    hide KernelNode, RamdiskNode, BootscriptNode, FdtNodes, Split, IsBlob, IsDeviceTree, OverlayCommand, AddFdts,
      AddFdt;
    if BringsTrees(i) {
      TreesAreDescribed(d, i);
    } else if IsKind(i, "kernel") {
      KernelIsDescribed(d, Or(i.file, d.kernelDefault), Or(i.comp, "none"));
    } else if IsKind(i, "ramdisk") {
      RamdiskIsDescribed(d, i.recipe + d.machineSuffix + "." + Or(i.fstype, Or(d.initramfsFstype, "")));
    } else {
      ScriptIsDescribed(d, Or(i.file, "None"));
    }
  }

  lemma TreesAreDescribed(d: Settings, i: Image)
    requires BringsTrees(i)
    ensures |NodesOf(d, i)| == NodeCount(d, i)
    ensures forall j :: 0 <= j < NodeCount(d, i) ==> Describes(d, i, j, NodesOf(d, i)[j])
  {
    hide FdtNode, FdtNodes, Split, Tail, Head, IsBlob, IsDeviceTree, Describes;
    var ws, overlay := Added(d, i), IsKind(i, "fdto");
    FdtNodesLength(d, ws, overlay);
    assert NodesOf(d, i) == FdtNodes(d, ws, overlay) && |ws| == NodeCount(d, i);
    forall j | 0 <= j < |ws| ensures Describes(d, i, j, FdtNodes(d, ws, overlay)[j]) {
      FdtNodeAt(d, ws, overlay, j);
      TreeIsDescribed(d, i, j);
    }
  }

  lemma TreeIsDescribed(d: Settings, i: Image, j: nat)
    requires BringsTrees(i) && j < |Added(d, i)|
    ensures Describes(d, i, j, FdtNode(d, Tail(Added(d, i)[j]), Head(Added(d, i)[j]), IsKind(i, "fdto")))
  {
    hide FdtNode, Split, Tail, Head, IsBlob, IsDeviceTree;
    var w := Added(d, i)[j];
    if i.imgtype == Some("fdto") {
      FdtIsDescribed(d, w, true);
    } else {
      FdtIsDescribed(d, w, false);
    }
  }

  lemma FdtNodesLength(d: Settings, ws: seq<string>, overlay: bool)
    ensures |FdtNodes(d, ws, overlay)| == |ws|
  {
    if ws != [] {
      FdtNodeAt(d, ws, overlay, 0);
    }
  }

  ghost predicate AreDescribed(d: Settings, images: seq<Image>) {
    forall k :: 0 <= k < |images| ==> IsDescribed(d, images[k])
  }

  ghost predicate IsDescribed(d: Settings, i: Image) {
    |NodesOf(d, i)| == NodeCount(d, i) && forall j :: 0 <= j < NodeCount(d, i) ==> Describes(d, i, j, NodesOf(d, i)[j])
  }

  lemma {:induction false} AllAreDescribed(d: Settings, t: Tools, p: Plan, images: seq<Image>)
    requires AddImages(d, t, p, images).Some?
    ensures AreDescribed(d, images)
    decreases |images|
  {
    hide AddImage, NodesOf, NodeCount, Describes;
    if images != [] {
      NodesAreDescribed(d, t, p, images[0]);
      assert IsDescribed(d, images[0]);
      hide IsDescribed;
      AllAreDescribed(d, t, AddImage(d, t, p, images[0]).value, images[1..]);
      assert forall k :: 0 < k < |images| ==> images[k] == images[1..][k - 1];
    }
  }

  lemma {:induction false} BeforeOfRest(d: Settings, images: seq<Image>, k: nat)
    requires k < |images|
    ensures NodesBefore(d, images, k + 1) == NodeCount(d, images[0]) + NodesBefore(d, images[1..], k)
    decreases k
  {
    hide NodeCount;
    if k > 0 {
      BeforeOfRest(d, images, k - 1);
    } else {
      assert NodesBefore(d, images, 0) == 0;
    }
  }

  lemma {:induction false} AllNodesAt(d: Settings, images: seq<Image>, k: nat, j: nat)
    requires AreDescribed(d, images) && k < |images| && j < NodeCount(d, images[k])
    ensures NodesBefore(d, images, k) + j < |AllNodes(d, images)|
    ensures AllNodes(d, images)[NodesBefore(d, images, k) + j] == NodesOf(d, images[k])[j]
    decreases |images|
  {
    hide NodesOf, NodeCount, Describes;
    assert IsDescribed(d, images[0]);
    if k > 0 {
      assert forall i :: 0 <= i < |images[1..]| ==> images[1..][i] == images[i + 1];
      AllNodesAt(d, images[1..], k - 1, j);
      BeforeOfRest(d, images, k - 1);
    }
  }

  lemma {:induction false} AllNodesCount(d: Settings, images: seq<Image>)
    requires AreDescribed(d, images)
    ensures |AllNodes(d, images)| == NodesBefore(d, images, |images|)
    decreases |images|
  {
    hide NodesOf, NodeCount, Describes;
    if images != [] {
      assert IsDescribed(d, images[0]);
      assert forall i :: 0 <= i < |images[1..]| ==> images[1..][i] == images[i + 1];
      AllNodesCount(d, images[1..]);
      BeforeOfRest(d, images, |images| - 1);
    }
  }

  /** The frame of every manifest: a description, one address cell, and the two sections. */
  lemma RootIs(d: Settings, t: Tools, images: seq<Image>)
    requires Tree(d, t, images).Some?
    ensures var root := Tree(d, t, images).value;
            && root.name == "/" && |root.kids| == 2
            && root.props == [Property("description", [Str(d.description)]),
                              Property("#address-cells", [Word("<1>")])]
            && root.kids[0].name == "images" && root.kids[0].props == []
            && root.kids[1].name == "configurations"
  {
    hide AddImages, Configurations, Split;
    assert CellsValue("1") == [Word("<1>")] by {
      assert "<" + "1" + ">" == "<1>";
      WordSplits("<1>");
      assert WordToks(["<1>"]) == [Word("<1>")];
    }
    ConfigurationsName(d, t, AddImages(d, t, NO_PLAN, images).value);
  }

  lemma ConfigurationsName(d: Settings, t: Tools, p: Plan)
    requires Configurations(d, t, p).Some?
    ensures Configurations(d, t, p).value.name == "configurations"
  {
  }

  lemma NodesOfTree(d: Settings, t: Tools, images: seq<Image>)
    requires Tree(d, t, images).Some?
    ensures AddImages(d, t, NO_PLAN, images).Some?
    ensures |Tree(d, t, images).value.kids| == 2
    ensures Tree(d, t, images).value.kids[0].kids == AllNodes(d, images)
  {
    hide AddImages, Configurations, AllNodes;
    ImageNodes(d, t, images, AddImages(d, t, NO_PLAN, images).value);
  }

  /** The images section of every manifest: the nodes of its images, in the order of the list, each with
      exactly the properties that its type, its flags and the variables ask for. */
  lemma ImagesAreDescribed(d: Settings, t: Tools, images: seq<Image>, k: nat, j: nat)
    requires Tree(d, t, images).Some? && k < |images| && j < NodeCount(d, images[k])
    ensures |Tree(d, t, images).value.kids| == 2
    ensures var nodes, at := Tree(d, t, images).value.kids[0].kids, NodesBefore(d, images, k) + j;
            && |nodes| == NodesBefore(d, images, |images|)
            && at < |nodes| && Describes(d, images[k], j, nodes[at])
  {
    hide AddImages, AllNodes, NodesOf, NodeCount, Describes, NodesBefore, Tree;
    NodesOfTree(d, t, images);
    AllAreDescribed(d, t, NO_PLAN, images);
    AllNodesCount(d, images);
    AllNodesAt(d, images, k, j);
    assert IsDescribed(d, images[k]);
  }

  // ---- Which files are included ----

  /** A path with a directory and just one slash before the base name. */
  ghost predicate IsPlain(w: string) {
    exists dir, base :: dir != "" && IsPath(w, dir, "/", base)
  }

  /** The file that a device tree's node includes is the very one that was listed, and that fdtget will be
      asked about, if and only if its path is plain. */
  lemma IncludesListed(n: Node, d: Settings, w: string, description: string, load: string)
    requires IsDeviceTree(n, d, w, description, load)
    ensures Property("data", IncbinValue(w)) in n.props <==> IsPlain(w)
  {
    hide CellsValue;
    if dir, base :| dir != "" && IsPath(w, dir, "/", base) {
      assert w == dir + "/" + base;
    } else {
      var dir, slashes, base := PathParts(w);
      assert IsPath(w, dir, slashes, base);
      var path := (if dir == "" then slashes else dir) + "/" + base;
      DataIs(n, d, description, path, load, w);
      if path == w {
        OneSlash(dir, slashes, base);
      }
    }
  }

  lemma DataIs(n: Node, d: Settings, description: string, path: string, load: string, w: string)
    requires IsBlob(n, d, description, path, "flat_dt", "", "none", load, "")
    ensures Property("data", IncbinValue(w)) in n.props <==> path == w
  {
    hide CellsValue;
    var p, q := Property("data", IncbinValue(w)), Property("data", IncbinValue(path));
    DataDiffers();
    assert p.value[1] == Str(w) && q.value[1] == Str(path);
  }

  lemma DataDiffers()
    ensures "data" != "description" && "data" != "type" && "data" != "arch" && "data" != "os" && "data" != "compression"
    ensures "data" != "load" && "data" != "entry"
  {
  }

  lemma OneSlash(dir: string, slashes: string, base: string)
    requires AllSlashes(slashes) && (if dir == "" then slashes else dir) + "/" + base == dir + slashes + base
    ensures dir != "" && slashes == "/"
  {
    assert dir == "" ==> |slashes| + 1 + |base| == |slashes| + |base|;
    assert |slashes| == 1 && slashes[0] in slashes;
  }

  /** Over every manifest: the node of a device tree or overlay includes the file that was listed if and only
      if the path is plain. In particular one without a directory is looked for in the root directory. */
  lemma DeviceTreesAreIncluded(d: Settings, t: Tools, images: seq<Image>, k: nat, j: nat)
    requires Tree(d, t, images).Some? && k < |images| && BringsTrees(images[k]) && j < NodeCount(d, images[k])
    ensures var at := NodesBefore(d, images, k) + j;
            && |Tree(d, t, images).value.kids| == 2 && at < |Tree(d, t, images).value.kids[0].kids|
            && j < |Added(d, images[k])|
            && (Property("data", IncbinValue(Added(d, images[k])[j])) in Tree(d, t, images).value.kids[0].kids[at].props
                <==> IsPlain(Added(d, images[k])[j]))
  {
    hide Tree, NodesBefore, IsDeviceTree, IsPlain, Split;
    ImagesAreDescribed(d, t, images, k, j);
    var i, n := images[k], Tree(d, t, images).value.kids[0].kids[NodesBefore(d, images, k) + j];
    IncludesListedFor(d, i, j, n);
  }

  lemma IncludesListedFor(d: Settings, i: Image, j: nat, n: Node)
    requires BringsTrees(i) && j < NodeCount(d, i) && Describes(d, i, j, n)
    ensures j < |Added(d, i)|
    ensures Property("data", IncbinValue(Added(d, i)[j])) in n.props <==> IsPlain(Added(d, i)[j])
  {
    hide IsDeviceTree, IsPlain, Split;
    var w := Added(d, i)[j];
    if i.imgtype == Some("fdto") {
      IncludesListed(n, d, w, "Flattened Device Tree Overlay blob", d.dtboLoadaddr);
    } else {
      IncludesListed(n, d, w, "Flattened Device Tree blob", d.dtbLoadaddr);
    }
  }

  /** The paths of the default list are plain, those of the kernel's device trees if that directory is given
      without a slash at its end. */
  lemma DefaultPathsArePlain(sysroot: string, deployDir: string, extFiles: seq<string>, name: string)
    requires '/' !in name
    ensures name in extFiles || (deployDir != "" && deployDir[|deployDir| - 1] != '/') ==>
              IsPlain(PathOf(sysroot, deployDir, extFiles, name))
  {
    var boot := "/boot/devicetree";
    assert boot[|boot| - 1] == 'e' && boot + "/" == "/boot/devicetree/";
    assert sysroot + (boot + "/") + name == (sysroot + boot) + "/" + name;
    assert IsPath(sysroot + (boot + "/") + name, sysroot + boot, "/", name);
    if name !in extFiles && deployDir != "" && deployDir[|deployDir| - 1] != '/' {
      assert IsPath(deployDir + "/" + name, deployDir, "/", name);
    }
  }

  // ---- Configurations ----

  predicate IsRamdisk(i: Image) {
    i.imgtype == Some("ramdisk")
  }

  ghost predicate HasRamdisk(images: seq<Image>) {
    exists i :: i in images && IsRamdisk(i)
  }

  /** The image is a boot script, from a file. */
  predicate BringsScript(i: Image, file: string) {
    i.imgtype == Some("bootscript") && i.file == Some(file) && file != ""
  }

  ghost predicate HasScript(images: seq<Image>, file: string) {
    exists i :: i in images && BringsScript(i, file)
  }

  /** The file of the one boot script of the list, "" if there is none. */
  ghost predicate IsScriptOf(images: seq<Image>, script: string) {
    forall file :: file != "" ==> (HasScript(images, file) <==> file == script)
  }

  /** s is a signature over the images of these names. */
  ghost predicate IsSignature(s: Node, d: Settings, names: seq<string>) {
    && s.name == "signature-1" && s.kids == []
    && forall p :: p in s.props <==>
         || p == Property("algo", [Str(d.hashAlgo + "," + d.encryptAlgo)])
         || (d.keyname != "" && p == Property("key-name-hint", [Str(d.keyname)]))
         || p == Property("sign-images", StringsValue(names))
         || p == Property("signer-name", [Str(d.signer)])
         || p == Property("signer-version", [Str(d.signerVersion)])
  }

  ghost predicate IsSigned(n: Node, d: Settings, names: seq<string>) {
    if d.sign then |n.kids| == 1 && IsSignature(n.kids[0], d, names) else n.kids == []
  }

  /** n is configuration number `count`, for a device tree of this base name. */
  ghost predicate IsConf(n: Node, d: Settings, base: string, compatible: string, count: nat, ramdisk: bool,
                         script: string)
  {
    && n.name == d.confPrefix + base
    && (forall p :: p in n.props <==>
          || p == Property("description", [Str(Decimal(count) + " Linux kernel"
                                               + (if base != "" then ", FDT blob" else "")
                                               + (if ramdisk then ", ramdisk" else "")
                                               + (if script != "" then ", u-boot script" else ""))])
          || p == Property("kernel", [Str("kernel-1")])
          || p == Property("fdt", [Str("fdt-" + base)])
          || (ramdisk && p == Property("ramdisk", [Str("ramdisk-1")]))
          || (script != "" && p == Property("bootscr", [Str("bootscr-" + script)]))
          || (compatible != "" && p == Property("compatible", [Str(compatible)])))
    && IsSigned(n, d, ["kernel"] + (if base != "" then ["fdt"] else []) + (if ramdisk then ["ramdisk"] else [])
                      + (if script != "" then ["bootscr"] else []))
  }

  ghost predicate IsOverlayConf(n: Node, d: Settings, base: string, compatible: string) {
    && n.name == base
    && (forall p :: p in n.props <==>
          || p == Property("description", [Str("Device Tree Overlay")])
          || p == Property("fdt", [Str("fdt-" + base)])
          || (compatible != "" && p == Property("compatible", [Str(compatible)])))
    && IsSigned(n, d, ["fdt"])
  }

  /** fdtget works for a path and prints something, the first word of which is this. */
  predicate Prints(t: Tools, w: string, word: string) {
    t.fdtget(w).Output? && |Split(t.fdtget(w).text)| > 0 && Split(t.fdtget(w).text)[0] == word
  }

  predicate FailsOrPrints(t: Tools, w: string, word: string) {
    if t.fdtget(w).Failed? then word == "" else Prints(t, w, word)
  }

  ghost predicate IsConfFor(n: Node, d: Settings, t: Tools, w: string, count: nat, ramdisk: bool, script: string) {
    exists word :: Prints(t, w, word) && IsConf(n, d, Tail(w), word, count, ramdisk, script)
  }

  ghost predicate IsOverlayConfFor(n: Node, d: Settings, t: Tools, w: string) {
    exists word :: FailsOrPrints(t, w, word) && IsOverlayConf(n, d, Tail(w), word)
  }

  lemma SignatureIs(d: Settings, names: seq<string>)
    ensures IsSignature(SignatureNode(d, names), d, names)
  {
    hide StringsValue;
  }

  lemma ConfIs(d: Settings, x: Extras, base: string, compatible: string, count: nat)
    ensures IsConf(ConfNode(d, x, base, compatible, count), d, base, compatible, count, x.ramdisk, x.bootscript)
  {
    hide SignatureNode, IsSignature, Decimal;
    SignatureIs(d, SignImages(x, base));
  }

  lemma OverlayConfIs(d: Settings, base: string, compatible: string)
    ensures IsOverlayConf(OverlayConfNode(d, base, compatible), d, base, compatible)
  {
    hide SignatureNode, IsSignature;
    SignatureIs(d, ["fdt"]);
  }

  predicate RefersTo(x: Extras, file: string) {
    x.bootscript == file
  }

  /** What one image adds to what configurations refer to. */
  lemma ExtrasStep(d: Settings, t: Tools, p: Plan, i: Image)
    requires AddImage(d, t, p, i).Some?
    ensures var x, y := p.extras, AddImage(d, t, p, i).value.extras;
            && (y.ramdisk <==> x.ramdisk || IsRamdisk(i))
            && forall file :: file != "" ==> (RefersTo(y, file) <==> RefersTo(x, file) || BringsScript(i, file))
  {
    hide Tail, Head, Split, OverlayCommand, FdtNode, KernelNode, RamdiskNode, BootscriptNode, AddFdts;
    FdtsKeepExtras(d, p, Added(d, i), IsKind(i, "fdto"));
  }

  /** What configurations refer to grows from x to y over these images. */
  ghost predicate Grows(x: Extras, y: Extras, images: seq<Image>) {
    && (y.ramdisk <==> x.ramdisk || HasRamdisk(images))
    && forall file :: file != "" ==> (RefersTo(y, file) <==> RefersTo(x, file) || HasScript(images, file))
  }

  lemma {:induction false} ExtrasAre(d: Settings, t: Tools, p: Plan, images: seq<Image>)
    requires AddImages(d, t, p, images).Some?
    ensures Grows(p.extras, AddImages(d, t, p, images).value.extras, images)
    decreases |images|
  {
    hide AddImage, Grows, RefersTo;
    if images == [] {
      GrowsByNothing(p.extras, images);
    } else {
      var q := AddImage(d, t, p, images[0]).value;
      ExtrasStep(d, t, p, images[0]);
      ExtrasAre(d, t, q, images[1..]);
      GrowsByOne(p.extras, q.extras, AddImages(d, t, p, images).value.extras, images);
    }
  }

  lemma GrowsByNothing(x: Extras, images: seq<Image>)
    requires images == []
    ensures Grows(x, x, images)
  {
  }

  lemma GrowsByOne(x: Extras, y: Extras, z: Extras, images: seq<Image>)
    requires images != [] && Grows(y, z, images[1..])
    requires y.ramdisk <==> x.ramdisk || IsRamdisk(images[0])
    requires forall file :: file != "" ==>
               (RefersTo(y, file) <==> RefersTo(x, file) || BringsScript(images[0], file))
    ensures Grows(x, z, images)
  {
    hide IsRamdisk, BringsScript, RefersTo;
    assert forall i :: i in images <==> i == images[0] || i in images[1..];
    assert HasRamdisk(images) <==> IsRamdisk(images[0]) || HasRamdisk(images[1..]);
    forall file | file != ""
      ensures RefersTo(z, file) <==> RefersTo(x, file) || HasScript(images, file)
    {
      assert HasScript(images, file) <==> BringsScript(images[0], file) || HasScript(images[1..], file);
    }
  }

  lemma ConfKids(d: Settings, t: Tools, images: seq<Image>)
    requires Tree(d, t, images).Some?
    ensures AddImages(d, t, NO_PLAN, images).Some?
    ensures var p := AddImages(d, t, NO_PLAN, images).value;
            && Configurations(d, t, p).Some? && |Tree(d, t, images).value.kids| == 2
            && Tree(d, t, images).value.kids[1] == Configurations(d, t, p).value
  {
    hide AddImages, Configurations;
  }

  /** The configurations section of every manifest: one configuration for each device tree in order, then
      one for each overlay, each with exactly the properties that the list of images, the variables
      and fdtget ask for. An overlay for which fdtget fails has no compatible string. */
  lemma ConfigurationsAreDescribed(d: Settings, t: Tools, images: seq<Image>, i: nat) returns (script: string)
    requires Tree(d, t, images).Some? && ResultsAreWords(d, images)
    ensures IsScriptOf(images, script) && |Tree(d, t, images).value.kids| == 2
    ensures var confs := Tree(d, t, images).value.kids[1].kids;
            var dtbs, dtbos := DeviceTrees(d, images, false), DeviceTrees(d, images, true);
            && |confs| == |dtbs| + |dtbos|
            && (i < |dtbs| ==> IsConfFor(confs[i], d, t, dtbs[i], i + 1, HasRamdisk(images), script))
            && (|dtbs| <= i < |confs| ==> IsOverlayConfFor(confs[i], d, t, dtbos[i - |dtbs|]))
  {
    hide *;
    ConfKids(d, t, images);
    var p := AddImages(d, t, NO_PLAN, images).value;
    script := p.extras.bootscript;
    ExtrasOfPlan(d, t, images, p);
    ConfigurationAt(d, t, images, p, i);
    var confs := Configurations(d, t, p).value.kids;
    var dtbs, dtbos := DeviceTrees(d, images, false), DeviceTrees(d, images, true);
    if i < |dtbs| {
      ConfOfIs(confs[i], d, t, p.extras, dtbs[i], i + 1);
    } else if i < |confs| {
      OverlayConfOfIs(confs[i], d, t, dtbos[i - |dtbs|]);
    }
  }

  lemma ExtrasOfPlan(d: Settings, t: Tools, images: seq<Image>, p: Plan)
    requires AddImages(d, t, NO_PLAN, images) == Some(p)
    ensures (p.extras.ramdisk <==> HasRamdisk(images)) && IsScriptOf(images, p.extras.bootscript)
  {
    hide AddImages, HasRamdisk, HasScript;
    ExtrasAre(d, t, NO_PLAN, images);
    assert forall file :: RefersTo(p.extras, file) <==> p.extras.bootscript == file;
  }

  lemma ConfOfIs(n: Node, d: Settings, t: Tools, x: Extras, w: string, count: nat)
    requires IsConfOf(n, d, t, x, w, count)
    ensures IsConfFor(n, d, t, w, count, x.ramdisk, x.bootscript)
  {
    hide ConfNode, Split, Tail, IsConf;
    var word := Compatible(t, w, false).value;
    ConfIs(d, x, Tail(w), word, count);
    assert Prints(t, w, word);
  }

  lemma OverlayConfOfIs(n: Node, d: Settings, t: Tools, w: string)
    requires IsOverlayConfOf(n, d, t, w)
    ensures IsOverlayConfFor(n, d, t, w)
  {
    hide OverlayConfNode, Split, Tail, IsOverlayConf;
    var word := Compatible(t, w, true).value;
    OverlayConfIs(d, Tail(w), word);
    assert FailsOrPrints(t, w, word);
  }

  // ---- Which device trees ----

  /** The device trees of one image, by its type. */
  lemma DeviceTreesOfOne(d: Settings, i: Image)
    ensures DeviceTrees(d, [i], false) == if i.imgtype == Some("fdt") then Split(Or(i.file, d.dtbDefault))
                                          else if i.imgtype == Some("fdtapply") then [d.buildDir + "/" + Or(i.name, "")]
                                          else []
    ensures DeviceTrees(d, [i], true) == if i.imgtype == Some("fdto") then Split(Or(i.file, d.dtboDefault)) else []
  {
    hide Split;
    assert [i][1..] == [];
    assert DeviceTrees(d, [], false) == DeviceTrees(d, [], true) == [];
    assert Added(d, i) + [] == Added(d, i);
  }

  /** And of a list: one after the other. */
  lemma {:induction false} DeviceTreesConcat(d: Settings, a: seq<Image>, b: seq<Image>, overlays: bool)
    ensures DeviceTrees(d, a + b, overlays) == DeviceTrees(d, a, overlays) + DeviceTrees(d, b, overlays)
    decreases |a|
  {
    hide Added, IsKind;
    if a == [] {
      assert a + b == b;
    } else {
      assert (a + b)[1..] == a[1..] + b;
      DeviceTreesConcat(d, a[1..], b, overlays);
    }
  }

  // ---- Numbers ----

  /** What a decimal number says. */
  function Number(s: string): nat
    requires AllDigits(s)
  {
    if s == "" then 0 else 10 * Number(s[..|s| - 1]) + (s[|s| - 1] as int - '0' as int)
  }

  predicate AllDigits(s: string) {
    forall i :: 0 <= i < |s| ==> '0' <= s[i] <= '9'
  }

  /** The numbers in descriptions are decimal, without zeros in front. */
  lemma {:induction false} DecimalReads(n: nat)
    ensures AllDigits(Decimal(n)) && Number(Decimal(n)) == n
    ensures Decimal(n) != "" && (n > 0 ==> Decimal(n)[0] != '0')
  {
    var s := Decimal(n);
    if n >= 10 {
      DecimalReads(n / 10);
      assert s[..|s| - 1] == Decimal(n / 10);
    } else {
      assert s[..0] == "";
    }
  }

  // ---- When there is a manifest ----

  /** The file at a listed path: in the deploy directory, if the path names no directory. */
  ghost predicate IsFileAt(file: string, w: string, deployDir: string) {
    exists dir, slashes, base ::
      && IsPath(w, dir, slashes, base)
      && file == (if dir != "" then dir else if slashes != "" then slashes else deployDir) + "/" + base
  }

  /** The command that applies overlays to a device tree: of the words, the first names the device tree and
      the others the overlays; there is none if there are no words. */
  ghost predicate IsApplyCommand(d: Settings, ws: seq<string>, result: string, cmd: string) {
    if ws == [] then cmd == ""
    else
      exists files: seq<string> ::
        && |files| == |ws| && (forall k :: 0 <= k < |ws| ==> IsFileAt(files[k], ws[k], d.deployDir))
        && cmd == Join(["fdtoverlay", "-i", files[0], "-o", result] + files[1..])
  }

  /** Device tree and overlays have the right suffixes. */
  predicate SuffixesFit(ws: seq<string>) {
    forall k :: 0 <= k < |ws| ==> EndsWith(ws[k], if k == 0 then ".dtb" else ".dtbo")
  }

  ghost predicate Applies(d: Settings, t: Tools, i: Image) {
    && i.file.Some? && i.file.value != "" && i.name.Some? && i.name.value != ""
    && SuffixesFit(Split(i.file.value))
    && exists cmd :: IsApplyCommand(d, Split(i.file.value), d.buildDir + "/" + i.name.value, cmd) && t.overlayWorks(cmd)
  }

  function FilesFor(ws: seq<string>, deployDir: string): (files: seq<string>)
    ensures |files| == |ws|
  {
    seq(|ws|, k requires 0 <= k < |ws| => FileFor(ws[k], deployDir))
  }

  function FileFor(w: string, deployDir: string): string {
    (if Head(w) == "" then deployDir else Head(w)) + "/" + Tail(w)
  }

  lemma FileForIs(file: string, w: string, deployDir: string)
    ensures IsFileAt(file, w, deployDir) <==> file == FileFor(w, deployDir)
  {
    hide Head, Tail;
    forall dir, slashes, base | IsPath(w, dir, slashes, base)
      ensures Tail(w) == base && Head(w) == if dir == "" then slashes else dir
    {
      PathSplits(dir, slashes, base);
    }
    var dir, slashes, base := PathParts(w);
    assert IsPath(w, dir, slashes, base);
  }

  lemma EndsWithTail(w: string, suffix: string)
    requires '/' !in suffix
    ensures EndsWith(Tail(w), suffix) <==> EndsWith(w, suffix)
  {
    hide Tail, EndsWith;
    if EndsWith(w, suffix) {
      TailEndsWith(w, suffix);
    }
    if EndsWith(Tail(w), suffix) {
      EndsLikeTail(w, suffix);
    }
  }

  lemma {:induction false} CommandGrows(d: Settings, args: seq<string>, ws: seq<string>, result: string)
    requires args != [] && args[0] == "fdtoverlay"
    ensures OverlayCommand(d, Join(args), ws, result)
         == if forall k :: 0 <= k < |ws| ==> EndsWith(ws[k], ".dtbo") then Some(Join(args + FilesFor(ws, d.deployDir)))
            else None
    decreases |ws|
  {
    hide EndsWith, Head, Tail, Join;
    JoinIsSomething(args);
    if ws == [] {
      assert args + FilesFor(ws, d.deployDir) == args;
    } else {
      var file := FileFor(ws[0], d.deployDir);
      CommandStep(d, args, ws, result);
      hide OverlayCommand, FileFor;
      CommandGrows(d, args + [file], ws[1..], result);
      FilesStep(args, ws, d.deployDir);
      assert forall k :: 0 < k < |ws| ==> ws[k] == ws[1..][k - 1];
      assert forall k :: 0 <= k < |ws[1..]| ==> ws[1..][k] == ws[k + 1];
    }
  }

  lemma CommandStep(d: Settings, args: seq<string>, ws: seq<string>, result: string)
    requires args != [] && Join(args) != "" && ws != []
    ensures OverlayCommand(d, Join(args), ws, result)
         == if EndsWith(ws[0], ".dtbo")
            then OverlayCommand(d, Join(args + [FileFor(ws[0], d.deployDir)]), ws[1..], result) else None
  {
    hide EndsWith, Head, Tail, Join;
    EndsWithTail(ws[0], ".dtbo");
    JoinAppend(args, FileFor(ws[0], d.deployDir));
  }

  lemma FilesStep(args: seq<string>, ws: seq<string>, deployDir: string)
    requires ws != []
    ensures args + [FileFor(ws[0], deployDir)] + FilesFor(ws[1..], deployDir) == args + FilesFor(ws, deployDir)
  {
    hide FileFor;
  }

  lemma {:induction false} JoinIsSomething(args: seq<string>)
    requires args != [] && args[0] == "fdtoverlay"
    ensures Join(args) != ""
    decreases |args|
  {
    var n := |args| - 1;
    assert args == args[..n] + [args[n]];
    JoinAppend(args[..n], args[n]);
  }

  lemma FirstArguments(file: string, result: string)
    ensures "fdtoverlay -i " + file + " -o " + result == Join(["fdtoverlay", "-i", file, "-o", result])
  {
    hide Join;
    JoinFive("fdtoverlay", "-i", file, "-o", result);
    ArgumentTexts();
    Regroup("fdtoverlay" + " " + "-i" + " ", file, " " + "-o" + " ", result);
    Ungroup("fdtoverlay" + " " + "-i" + " " + file, " ", "-o", " ");
  }

  lemma ArgumentTexts()
    ensures "fdtoverlay -i " == "fdtoverlay" + " " + "-i" + " " && " -o " == " " + "-o" + " "
  {
  }

  lemma JoinFive(a: string, b: string, c: string, e: string, f: string)
    ensures Join([a, b, c, e, f]) == a + " " + b + " " + c + " " + e + " " + f
  {
    hide Join;
    assert [] + [a] == [a] && [a] + [b] == [a, b] && [a, b] + [c] == [a, b, c];
    assert [a, b, c] + [e] == [a, b, c, e] && [a, b, c, e] + [f] == [a, b, c, e, f];
    JoinAppend([], a);
    JoinAppend([a], b);
    JoinAppend([a, b], c);
    JoinAppend([a, b, c], e);
    JoinAppend([a, b, c, e], f);
  }

  lemma Ungroup(a: string, b: string, c: string, f: string)
    ensures a + (b + c + f) == a + b + c + f
  {
  }

  lemma Regroup(a: string, b: string, c: string, f: string)
    ensures a + b + c + f == a + b + (c + f)
  {
  }

  /** The command is what it is meant to be, and there is one exactly if the suffixes are right. */
  lemma OverlayCommandIs(d: Settings, ws: seq<string>, result: string)
    ensures OverlayCommand(d, "", ws, result).Some? <==> SuffixesFit(ws)
    ensures forall cmd :: OverlayCommand(d, "", ws, result) == Some(cmd) <==>
              SuffixesFit(ws) && IsApplyCommand(d, ws, result, cmd)
  {
    hide EndsWith, Head, Tail, Join;
    if ws != [] {
      var file, rest := FileFor(ws[0], d.deployDir), ws[1..];
      var args := ["fdtoverlay", "-i", file, "-o", result];
      EndsWithTail(ws[0], ".dtb");
      FirstArguments(file, result);
      CommandGrows(d, args, rest, result);
      assert forall k :: 0 < k < |ws| ==> ws[k] == rest[k - 1];
      assert forall k :: 0 <= k < |rest| ==> rest[k] == ws[k + 1];
      ApplyCommandIs(d, ws, result);
    }
  }

  lemma ApplyCommandIs(d: Settings, ws: seq<string>, result: string)
    requires ws != []
    ensures forall cmd :: IsApplyCommand(d, ws, result, cmd) <==>
              cmd == Join(["fdtoverlay", "-i", FileFor(ws[0], d.deployDir), "-o", result]
                          + FilesFor(ws[1..], d.deployDir))
  {
    hide Head, Tail, Join, FileFor, IsFileAt;
    var files := FilesFor(ws, d.deployDir);
    forall file, k | 0 <= k < |ws| ensures IsFileAt(file, ws[k], d.deployDir) <==> file == FileFor(ws[k], d.deployDir) {
      FileForIs(file, ws[k], d.deployDir);
    }
    assert files[1..] == FilesFor(ws[1..], d.deployDir);
    forall other: seq<string>
      | |other| == |ws| && forall k :: 0 <= k < |ws| ==> IsFileAt(other[k], ws[k], d.deployDir)
      ensures other == files
    {
    }
  }

  /** What one image needs, whatever the others are. */
  ghost predicate WorksAlone(d: Settings, t: Tools, i: Image) {
    || i.imgtype == None || i.imgtype == Some("kernel") || i.imgtype == Some("bootscript")
    || (i.imgtype == Some("fdt") && Or(i.file, d.dtbDefault) != "")
    || (i.imgtype == Some("fdto") && Or(i.file, d.dtboDefault) != "")
    || (i.imgtype == Some("fdtapply") && Applies(d, t, i))
    || (i.imgtype == Some("ramdisk") && d.initramfsFstype.Some?)
  }

  predicate IsScript(i: Image) {
    i.imgtype == Some("bootscript")
  }

  predicate NamesScript(i: Image) {
    IsScript(i) && i.file.Some? && i.file.value != ""
  }

  /** No boot script comes after one that has a file. */
  ghost predicate OneScript(images: seq<Image>) {
    forall k, l :: 0 <= l < k < |images| && NamesScript(images[l]) ==> !IsScript(images[k])
  }

  lemma ImageWorks(d: Settings, t: Tools, p: Plan, i: Image)
    ensures AddImage(d, t, p, i).Some? <==> WorksAlone(d, t, i) && (IsScript(i) ==> p.extras.bootscript == "")
    ensures AddImage(d, t, p, i).Some? ==>
              (AddImage(d, t, p, i).value.extras.bootscript != "" <==> p.extras.bootscript != "" || NamesScript(i))
  {
    hide Head, Split, OverlayCommand, FdtNode, KernelNode, RamdiskNode, BootscriptNode, AddFdts, IsApplyCommand,
      SuffixesFit;
    FdtsKeepExtras(d, p, Added(d, i), IsKind(i, "fdto"));
    if IsKind(i, "fdtapply") && Or(i.file, "") != "" && Or(i.name, "") != "" {
      OverlayCommandIs(d, Split(i.file.value), d.buildDir + "/" + i.name.value);
    }
  }

  lemma {:induction false} ImagesWork(d: Settings, t: Tools, p: Plan, images: seq<Image>)
    ensures AddImages(d, t, p, images).Some?
            <==> && (forall k :: 0 <= k < |images| ==> WorksAlone(d, t, images[k])) && OneScript(images)
                 && (p.extras.bootscript != "" ==> forall k :: 0 <= k < |images| ==> !IsScript(images[k]))
    decreases |images|
  {
    hide AddImage, WorksAlone, IsScript, NamesScript;
    if images != [] {
      var i, rest := images[0], images[1..];
      ImageWorks(d, t, p, i);
      NamesIsScript(i);
      assert forall k :: 0 < k < |images| ==> images[k] == rest[k - 1];
      assert forall k :: 0 <= k < |rest| ==> rest[k] == images[k + 1];
      assert OneScript(images) <==>
             OneScript(rest) && (NamesScript(i) ==> forall k :: 0 <= k < |rest| ==> !IsScript(rest[k]));
      if AddImage(d, t, p, i).Some? {
        ImagesWork(d, t, AddImage(d, t, p, i).value, rest);
      }
    }
  }

  lemma NamesIsScript(i: Image)
    ensures NamesScript(i) ==> IsScript(i)
  {
  }

  /** fdtget works and prints a word. */
  predicate HasCompatible(t: Tools, w: string) {
    t.fdtget(w).Output? && Split(t.fdtget(w).text) != []
  }

  lemma {:induction false} ConfsExist(d: Settings, t: Tools, x: Extras, dtbs: seq<string>, count: nat)
    ensures Confs(d, t, x, dtbs, count).Some? <==> forall w :: w in dtbs ==> HasCompatible(t, w)
    decreases |dtbs|
  {
    hide Split, ConfNode, Tail;
    if dtbs != [] {
      ConfsExist(d, t, x, dtbs[1..], count + 1);
      assert Compatible(t, dtbs[0], false).Some? <==> HasCompatible(t, dtbs[0]);
      hide Compatible, HasCompatible;
      assert forall w :: w in dtbs <==> w == dtbs[0] || w in dtbs[1..];
    }
  }

  lemma {:induction false} OverlayConfsExist(d: Settings, t: Tools, dtbos: seq<string>)
    ensures OverlayConfs(d, t, dtbos).Some? <==>
              forall w :: w in dtbos ==> t.fdtget(w).Failed? || HasCompatible(t, w)
    decreases |dtbos|
  {
    hide Split, OverlayConfNode, Tail;
    if dtbos != [] {
      OverlayConfsExist(d, t, dtbos[1..]);
      assert forall w :: w in dtbos <==> w == dtbos[0] || w in dtbos[1..];
    }
  }

  /** The build makes a manifest if and only if every image works alone, there is at most one boot script
      with a file and none after it, there is a device tree or an overlay, and fdtget works and prints
      something for every device tree, and prints something for every overlay if it works. */
  lemma BuildSucceeds(d: Settings, t: Tools, images: seq<Image>)
    requires ResultsAreWords(d, images)
    ensures var dtbs, dtbos := DeviceTrees(d, images, false), DeviceTrees(d, images, true);
            Tree(d, t, images).Some?
            <==> && (forall k :: 0 <= k < |images| ==> WorksAlone(d, t, images[k])) && OneScript(images)
                 && (dtbs != [] || dtbos != [])
                 && (forall w :: w in dtbs ==> HasCompatible(t, w))
                 && (forall w :: w in dtbos ==> t.fdtget(w).Failed? || HasCompatible(t, w))
  {
    hide AddImages, WorksAlone, OneScript, HasCompatible, Confs, OverlayConfs, DeviceTrees, Split, DefaultProps, Tail;
    ImagesWork(d, t, NO_PLAN, images);
    if AddImages(d, t, NO_PLAN, images).Some? {
      var p := AddImages(d, t, NO_PLAN, images).value;
      DeviceTreesAreKept(d, t, images);
      ConfsExist(d, t, p.extras, DeviceTrees(d, images, false), 1);
      OverlayConfsExist(d, t, DeviceTrees(d, images, true));
    }
  }
}
