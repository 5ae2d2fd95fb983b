/** The functions of fitimage.bbclass that write the manifest, proved to write the intended
    tree: a reader of the finished text recovers exactly that tree, as far as it can be printed. */
module ManifestWriter {
  import opened Wrappers
  import opened Text
  import opened Dts
  import opened Its
  import opened Manifest

  // ---- Image nodes ----

  method EmitHash(d: Settings, fd: Fd)
    requires fd.Valid()
    modifies fd
    ensures fd.Valid() && fd.under == old(fd.under) && fd.top == WithKid(old(fd.top), HashNode(d))
  {
    hide Lex, OpenToks, ArePrintableFrames, IsPrintableFrame;
    fd.OpenNode(3, "hash-1");
    fd.StringProp(4, "algo", d.hashAlgo);
    assert fd.top.props == HashNode(d).props;
    fd.CloseNode(3);
  }

  /** A property that is written only if its variable is set. */
  method EmitOptCells(fd: Fd, name: string, cells: string)
    requires fd.Valid() && fd.top.kids == []
    modifies fd
    ensures fd.Valid() && fd.under == old(fd.under)
    ensures fd.top == old(fd.top).(props := old(fd.top).props + OptCells(name, cells))
  {
    if cells != "" {
      fd.CellsProp(3, name, cells);
    } else {
      assert old(fd.top).props + OptCells(name, cells) == old(fd.top).props;
    }
  }

  /** A property that is written only if there is a value for it. */
  method EmitOptStr(fd: Fd, depth: nat, name: string, s: string)
    requires fd.Valid() && fd.top.kids == []
    modifies fd
    ensures fd.Valid() && fd.under == old(fd.under)
    ensures fd.top == old(fd.top).(props := old(fd.top).props + OptStr(name, s))
  {
    if s != "" {
      fd.StringProp(depth, name, s);
    } else {
      assert old(fd.top).props + OptStr(name, s) == old(fd.top).props;
    }
  }

  method EmitBlobProps(d: Settings, fd: Fd, description: string, dir: string, file: string, kind: string, os: string,
                       comp: string)
    requires fd.Valid() && fd.top.kids == [] && fd.top.props == []
    modifies fd
    ensures fd.Valid() && fd.under == old(fd.under)
    ensures fd.top == old(fd.top).(props := BlobProps(d, description, dir, file, kind, os, comp))
  {
    hide Lex, OpenToks, ArePrintableFrames, IsPrintableFrame, IncbinValue, StringValue, OptStr;
    fd.StringProp(3, "description", description);
    fd.IncbinProp(3, "data", dir + "/" + file);
    fd.StringProp(3, "type", kind);
    fd.StringProp(3, "arch", d.arch);
    EmitOptStr(fd, 3, "os", os);
    fd.StringProp(3, "compression", comp);
    assert fd.top.props == BlobProps(d, description, dir, file, kind, os, comp);
  }

  method EmitSectionKernel(d: Settings, fd: Fd, source: string, comp: string)
    requires fd.Valid()
    modifies fd
    ensures fd.Valid() && fd.under == old(fd.under) && fd.top == WithKid(old(fd.top), KernelNode(d, source, comp))
  {
    hide Lex, OpenToks, ArePrintableFrames, IsPrintableFrame, BlobProps, OptCells, HashNode;
    fd.OpenNode(2, "kernel-1");
    EmitBlobProps(d, fd, "Linux kernel", d.deployDir, source, "kernel", "linux", comp);
    EmitOptCells(fd, "load", d.loadaddr);
    EmitOptCells(fd, "entry", d.entry);
    EmitHash(d, fd);
    assert fd.top.props == KernelNode(d, source, comp).props && fd.top.kids == [HashNode(d)];
    fd.CloseNode(2);
  }

  method EmitSectionDtb(d: Settings, fd: Fd, file: string, dir: string, overlay: bool)
    requires fd.Valid()
    modifies fd
    ensures fd.Valid() && fd.under == old(fd.under) && fd.top == WithKid(old(fd.top), FdtNode(d, file, dir, overlay))
  {
    hide Lex, OpenToks, ArePrintableFrames, IsPrintableFrame, BlobProps, OptCells, HashNode;
    fd.OpenNode(2, "fdt-" + file);
    EmitBlobProps(d, fd, if overlay then "Flattened Device Tree Overlay blob" else "Flattened Device Tree blob",
                  dir, file, "flat_dt", "", "none");
    EmitOptCells(fd, "load", if overlay then d.dtboLoadaddr else d.dtbLoadaddr);
    EmitHash(d, fd);
    assert fd.top.props == FdtNode(d, file, dir, overlay).props && fd.top.kids == [HashNode(d)];
    fd.CloseNode(2);
  }

  method EmitSectionRamdisk(d: Settings, fd: Fd, file: string)
    requires fd.Valid()
    modifies fd
    ensures fd.Valid() && fd.under == old(fd.under) && fd.top == WithKid(old(fd.top), RamdiskNode(d, file))
  {
    hide Lex, OpenToks, ArePrintableFrames, IsPrintableFrame, BlobProps, OptCells, HashNode;
    fd.OpenNode(2, "ramdisk-1");
    EmitBlobProps(d, fd, file, d.deployDir, file, "ramdisk", "linux", "none");
    EmitOptCells(fd, "load", d.rdLoadaddr);
    EmitOptCells(fd, "entry", d.rdEntry);
    EmitHash(d, fd);
    assert fd.top.props == RamdiskNode(d, file).props && fd.top.kids == [HashNode(d)];
    fd.CloseNode(2);
  }

  method EmitSectionBootscript(d: Settings, fd: Fd, file: string)
    requires fd.Valid()
    modifies fd
    ensures fd.Valid() && fd.under == old(fd.under) && fd.top == WithKid(old(fd.top), BootscriptNode(d, file))
  {
    hide Lex, OpenToks, ArePrintableFrames, IsPrintableFrame, BlobProps, HashNode;
    fd.OpenNode(2, "bootscr-" + file);
    EmitBlobProps(d, fd, "U-boot script", d.deployDir, file, "script", "linux", "none");
    EmitHash(d, fd);
    assert fd.top.props == BootscriptNode(d, file).props && fd.top.kids == [HashNode(d)];
    fd.CloseNode(2);
  }

  // ---- Configurations ----

  method EmitSubsectionSignature(d: Settings, fd: Fd, signImages: seq<string>)
    requires fd.Valid()
    modifies fd
    ensures fd.Valid() && fd.under == old(fd.under) && fd.top == WithKid(old(fd.top), SignatureNode(d, signImages))
  {
    hide Lex, OpenToks, ArePrintableFrames, IsPrintableFrame, StringValue, StringsValue, OptStr;
    fd.OpenNode(3, "signature-1");
    fd.StringProp(4, "algo", d.hashAlgo + "," + d.encryptAlgo);
    EmitOptStr(fd, 4, "key-name-hint", d.keyname);
    fd.StringsProp(4, "sign-images", signImages);
    fd.StringProp(4, "signer-name", d.signer);
    fd.StringProp(4, "signer-version", d.signerVersion);
    assert fd.top.props == SignatureNode(d, signImages).props;
    fd.CloseNode(3);
  }

  /** The signature of a configuration, if manifests are to be signed. */
  method EmitSigned(d: Settings, fd: Fd, signImages: seq<string>)
    requires fd.Valid()
    modifies fd
    ensures fd.Valid() && fd.under == old(fd.under)
    ensures fd.top == old(fd.top).(kids := old(fd.top).kids + Signed(d, signImages))
  {
    hide Lex, OpenToks, ArePrintableFrames, IsPrintableFrame, SignatureNode;
    if d.sign {
      EmitSubsectionSignature(d, fd, signImages);
    } else {
      assert old(fd.top).kids + Signed(d, signImages) == old(fd.top).kids;
    }
  }

  /** The properties of a configuration, after its node was opened. */
  method EmitConfProps(d: Settings, fd: Fd, dtb: string, x: Extras, compatible: string, count: nat)
    requires fd.Valid() && fd.top.kids == [] && fd.top.props == []
    modifies fd
    ensures fd.Valid() && fd.under == old(fd.under)
    ensures fd.top == old(fd.top).(props := ConfNode(d, x, dtb, compatible, count).props)
  {
    hide Lex, OpenToks, ArePrintableFrames, IsPrintableFrame, StringValue, OptStr, ConfDescription, Signed, SignImages,
      Fd.Valid, Tabs;
    fd.StringProp(3, "description", ConfDescription(x, dtb, count));
    fd.StringProp(3, "kernel", "kernel-1");
    fd.StringProp(3, "fdt", "fdt-" + dtb);
    EmitStrIf(fd, x.ramdisk, "ramdisk", "ramdisk-1");
    EmitStrIf(fd, x.bootscript != "", "bootscr", "bootscr-" + x.bootscript);
    EmitOptStr(fd, 3, "compatible", compatible);
    assert fd.top.props == ConfNode(d, x, dtb, compatible, count).props;
  }

  /** A property that is written only under a condition. */
  method EmitStrIf(fd: Fd, given: bool, name: string, s: string)
    requires fd.Valid() && fd.top.kids == []
    modifies fd
    ensures fd.Valid() && fd.under == old(fd.under)
    ensures fd.top == old(fd.top).(props := old(fd.top).props + if given then [StrProp(name, s)] else [])
  {
    if given {
      fd.StringProp(3, name, s);
    } else {
      assert old(fd.top).props + [] == old(fd.top).props;
    }
  }

  method EmitSectionConfig(d: Settings, fd: Fd, dtb: string, x: Extras, compatible: string, count: nat)
    requires fd.Valid() && (count == 1 ==> fd.top.kids == [])
    modifies fd
    ensures fd.Valid() && fd.under == old(fd.under)
    ensures var t := old(fd.top);
            fd.top == WithKid(t.(props := t.props + if count == 1 then DefaultProps(d, dtb) else []),
                              ConfNode(d, x, dtb, compatible, count))
  {
    hide Lex, OpenToks, ArePrintableFrames, IsPrintableFrame, StringValue, OptStr, ConfDescription, Signed, SignImages;
    if count == 1 {
      EmitOptStr(fd, 2, "default", if d.defaultConfig != "" then d.defaultConfig else d.confPrefix + dtb);
    }
    fd.OpenNode(2, d.confPrefix + dtb);
    EmitConfProps(d, fd, dtb, x, compatible, count);
    EmitSigned(d, fd, SignImages(x, dtb));
    assert [] + Signed(d, SignImages(x, dtb)) == Signed(d, SignImages(x, dtb));
    fd.CloseNode(2);
  }

  method EmitSectionConfigFdto(d: Settings, fd: Fd, dtb: string, compatible: string)
    requires fd.Valid()
    modifies fd
    ensures fd.Valid() && fd.under == old(fd.under)
    ensures fd.top == WithKid(old(fd.top), OverlayConfNode(d, dtb, compatible))
  {
    hide Lex, OpenToks, ArePrintableFrames, IsPrintableFrame, StringValue, OptStr, Signed;
    fd.OpenNode(2, dtb);
    fd.StringProp(3, "description", "Device Tree Overlay");
    fd.StringProp(3, "fdt", "fdt-" + dtb);
    EmitOptStr(fd, 3, "compatible", compatible);
    assert fd.top.props == OverlayConfNode(d, dtb, compatible).props;
    EmitSigned(d, fd, ["fdt"]);
    assert [] + Signed(d, ["fdt"]) == Signed(d, ["fdt"]);
    fd.CloseNode(2);
  }

  // ---- The loop over the images ----

  /** The device trees of one image: their nodes, and their names at the end of a string. */
  method EmitDtbs(d: Settings, fd: Fd, ws: seq<string>, overlay: bool, list: string, ghost p: Plan)
    returns (grown: string)
    requires fd.Valid() && p.images == fd.top.kids && list == (if overlay then p.dtbos else p.dtbs)
    modifies fd
    ensures var q := AddFdts(d, p, ws, overlay);
            && fd.Valid() && fd.under == old(fd.under) && fd.top == old(fd.top).(kids := q.images)
            && grown == if overlay then q.dtbos else q.dtbs
  {
    hide Lex, OpenToks, ArePrintableFrames, IsPrintableFrame, FdtNode, Tail, Head;
    grown := list;
    ghost var q := p;
    for i := 0 to |ws|
      invariant AddFdts(d, p, ws, overlay) == AddFdts(d, q, ws[i..], overlay)
      invariant fd.Valid() && fd.under == old(fd.under) && fd.top == old(fd.top).(kids := q.images)
      invariant grown == if overlay then q.dtbos else q.dtbs
    {
      var w := ws[i];
      EmitSectionDtb(d, fd, Tail(w), Head(w), overlay);
      grown := grown + " " + w;
      q := AddFdt(d, q, w, overlay);
      assert ws[i..][1..] == ws[i + 1..];
    }
  }

  lemma AddFdtsKeeps(d: Settings, p: Plan, ws: seq<string>, overlay: bool)
    ensures var q := AddFdts(d, p, ws, overlay);
            q.extras == p.extras && (if overlay then q.dtbs == p.dtbs else q.dtbos == p.dtbos)
    decreases |ws|
  {
  }

  /** Builds the fdtoverlay command; `ok` is false if an element has the wrong suffix. */
  method BuildOverlayCommand(d: Settings, ws: seq<string>, result: string) returns (ok: bool, cmd: string)
    ensures OverlayCommand(d, "", ws, result) == if ok then Some(cmd) else None
  {
    cmd := "";
    for i := 0 to |ws|
      invariant OverlayCommand(d, "", ws, result) == OverlayCommand(d, cmd, ws[i..], result)
    {
      var dir, file := Head(ws[i]), Tail(ws[i]);
      if dir == "" {
        dir := d.deployDir;
      }
      if cmd == "" {
        if !EndsWith(file, ".dtb") {
          return false, cmd;
        }
        cmd := "fdtoverlay -i " + (dir + "/" + file) + " -o " + result;
      } else {
        if !EndsWith(file, ".dtbo") {
          return false, cmd;
        }
        cmd := cmd + " " + (dir + "/" + file);
      }
      assert ws[i..][1..] == ws[i + 1..];
    }
    ok := true;
  }

  /** What the loop over the images keeps besides the file. */
  datatype Gathered = Gathered(dtbs: string, dtbos: string, ramdisk: string, bootscript: string)

  ghost predicate Gathers(g: Gathered, p: Plan) {
    && g.dtbs == p.dtbs && g.dtbos == p.dtbos
    && (g.ramdisk != "" <==> p.extras.ramdisk) && g.bootscript == p.extras.bootscript
  }

  /** One round of the loop over the images. */
  method EmitImage(d: Settings, t: Tools, fd: Fd, i: Image, g: Gathered, ghost p: Plan) returns (ok: bool, h: Gathered)
    requires fd.Valid() && p.images == fd.top.kids && Gathers(g, p)
    modifies fd
    ensures ok <==> AddImage(d, t, p, i).Some?
    ensures ok ==> var q := AddImage(d, t, p, i).value;
                   fd.Valid() && fd.under == old(fd.under) && fd.top == old(fd.top).(kids := q.images) && Gathers(h, q)
  {
    hide Lex, OpenToks, ArePrintableFrames, IsPrintableFrame, KernelNode, FdtNode, RamdiskNode, BootscriptNode, Head,
      Tail, Split, OverlayCommand;
    h := g;
    var imgtype := Or(i.imgtype, "kernel");
    if imgtype == "kernel" {
      EmitSectionKernel(d, fd, Or(i.file, d.kernelDefault), Or(i.comp, "none"));
      ok := true;
    } else if imgtype == "fdt" || imgtype == "fdto" {
      var overlay := imgtype == "fdto";
      var files := Or(i.file, if overlay then d.dtboDefault else d.dtbDefault);
      if files == "" {
        return false, h;
      }
      var list := EmitDtbs(d, fd, Split(files), overlay, if overlay then g.dtbos else g.dtbs, p);
      AddFdtsKeeps(d, p, Split(files), overlay);
      h := if overlay then h.(dtbos := list) else h.(dtbs := list);
      ok := true;
    } else if imgtype == "fdtapply" {
      if Or(i.file, "") == "" || Or(i.name, "") == "" {
        return false, h;
      }
      var result := d.buildDir + "/" + i.name.value;
      var cmd;
      ok, cmd := BuildOverlayCommand(d, Split(i.file.value), result);
      if !ok || !t.overlayWorks(cmd) {
        return false, h;
      }
      EmitSectionDtb(d, fd, Tail(result), Head(result), false);
      h := h.(dtbs := g.dtbs + " " + result);
    } else if imgtype == "ramdisk" {
      if d.initramfsFstype.None? {
        return false, h;
      }
      h := h.(ramdisk := "1");
      EmitSectionRamdisk(d, fd, i.recipe + d.machineSuffix + "." + Or(i.fstype, d.initramfsFstype.value));
      ok := true;
    } else if imgtype == "bootscript" {
      if g.bootscript != "" {
        return false, h;
      }
      h := h.(bootscript := Or(i.file, ""));
      EmitSectionBootscript(d, fd, Or(i.file, "None"));
      ok := true;
    } else {
      ok := false;
    }
  }

  /** The loop over the images, from within the open `images` node. */
  method EmitImages(d: Settings, t: Tools, fd: Fd, images: seq<Image>) returns (ok: bool, g: Gathered)
    requires fd.Valid() && fd.top.kids == []
    modifies fd
    ensures ok <==> AddImages(d, t, NO_PLAN, images).Some?
    ensures ok ==> var p := AddImages(d, t, NO_PLAN, images).value;
                   && fd.Valid() && fd.under == old(fd.under) && fd.top == old(fd.top).(kids := p.images)
                   && Gathers(g, p)
  {
    hide Lex, OpenToks, ArePrintableFrames, IsPrintableFrame, AddImage;
    g := Gathered("", "", "", "");
    ghost var p := NO_PLAN;
    for k := 0 to |images|
      invariant AddImages(d, t, NO_PLAN, images) == AddImages(d, t, p, images[k..])
      invariant fd.Valid() && fd.under == old(fd.under) && fd.top == old(fd.top).(kids := p.images)
      invariant Gathers(g, p)
    {
      assert images[k..][0] == images[k] && images[k..][1..] == images[k + 1..];
      ok, g := EmitImage(d, t, fd, images[k], g, p);
      if !ok {
        return;
      }
      p := AddImage(d, t, p, images[k]).value;
    }
    ok := true;
  }

  // ---- The loops over the device trees ----

  function Prepend(a: seq<Node>, o: Option<seq<Node>>): Option<seq<Node>> {
    if o.None? then None else Some(a + o.value)
  }

  lemma ConfsStep(d: Settings, t: Tools, x: Extras, dtbs: seq<string>, i: nat, done: seq<Node>)
    requires i < |dtbs|
    ensures var c := Compatible(t, dtbs[i], false);
            Prepend(done, Confs(d, t, x, dtbs[i..], i + 1))
            == if c.None? then None
               else Prepend(done + [ConfNode(d, x, Tail(dtbs[i]), c.value, i + 1)],
                            Confs(d, t, x, dtbs[i + 1..], i + 2))
  {
    hide ConfNode, Compatible, Tail;
    var ws, c := dtbs[i..], Compatible(t, dtbs[i], false);
    assert ws[0] == dtbs[i] && ws[1..] == dtbs[i + 1..];
    if c.Some? {
      var n, rest := ConfNode(d, x, Tail(ws[0]), c.value, i + 1), Confs(d, t, x, ws[1..], i + 2);
      assert Confs(d, t, x, ws, i + 1) == Prepend([n], rest);
      PrependTwice(done, n, rest);
    }
  }

  lemma PrependTwice(a: seq<Node>, n: Node, o: Option<seq<Node>>)
    ensures Prepend(a, Prepend([n], o)) == Prepend(a + [n], o)
  {
    if o.Some? {
      assert a + ([n] + o.value) == a + [n] + o.value;
    }
  }

  lemma OverlayConfsStep(d: Settings, t: Tools, dtbos: seq<string>, i: nat, done: seq<Node>)
    requires i < |dtbos|
    ensures var c := Compatible(t, dtbos[i], true);
            Prepend(done, OverlayConfs(d, t, dtbos[i..]))
            == if c.None? then None
               else Prepend(done + [OverlayConfNode(d, Tail(dtbos[i]), c.value)], OverlayConfs(d, t, dtbos[i + 1..]))
  {
    hide OverlayConfNode, Compatible, Tail;
    var ws, c := dtbos[i..], Compatible(t, dtbos[i], true);
    assert ws[0] == dtbos[i] && ws[1..] == dtbos[i + 1..];
    if c.Some? {
      var n, rest := OverlayConfNode(d, Tail(ws[0]), c.value), OverlayConfs(d, t, ws[1..]);
      assert OverlayConfs(d, t, ws) == Prepend([n], rest);
      PrependTwice(done, n, rest);
    }
  }

  lemma NoMoreConfs(d: Settings, t: Tools, x: Extras, dtbs: seq<string>, done: seq<Node>)
    ensures Prepend(done, Confs(d, t, x, dtbs[|dtbs|..], |dtbs| + 1)) == Some(done)
  {
    assert dtbs[|dtbs|..] == [] && done + [] == done;
  }

  lemma NoMoreOverlayConfs(d: Settings, t: Tools, dtbos: seq<string>, done: seq<Node>)
    ensures Prepend(done, OverlayConfs(d, t, dtbos[|dtbos|..])) == Some(done)
  {
    assert dtbos[|dtbos|..] == [] && done + [] == done;
  }

  lemma PrependNothing(o: Option<seq<Node>>)
    ensures Prepend([], o) == o
  {
    if o.Some? {
      assert [] + o.value == o.value;
    }
  }

  lemma AppendTwice(a: seq<Node>, b: seq<Node>, n: Node)
    ensures a + b + [n] == a + (b + [n])
  {
  }

  /** One configuration, the first with the default before it. */
  method EmitNextConf(d: Settings, t: Tools, fd: Fd, dtbs: seq<string>, x: Extras, i: nat, ghost done: seq<Node>)
    returns (ok: bool)
    requires fd.Valid() && i < |dtbs| && |done| == i && fd.top.kids == done
    requires fd.top.props == if i == 0 then [] else DefaultProps(d, Tail(dtbs[0]))
    modifies fd
    ensures var c := Compatible(t, dtbs[i], false);
            && (ok <==> c.Some?)
            && (ok ==> fd.Valid() && fd.under == old(fd.under)
                       && fd.top == Frame(old(fd.top).name, DefaultProps(d, Tail(dtbs[0])),
                                          done + [ConfNode(d, x, Tail(dtbs[i]), c.value, i + 1)]))
  {
    hide Lex, OpenToks, ArePrintableFrames, IsPrintableFrame, ConfNode, DefaultProps, Tail, Compatible;
    var c := Compatible(t, dtbs[i], false);
    if c.None? {
      return false;
    }
    assert i == 0 ==> dtbs[i] == dtbs[0];
    ghost var props := fd.top.props;
    assert props + (if i == 0 then DefaultProps(d, Tail(dtbs[i])) else []) == DefaultProps(d, Tail(dtbs[0]));
    EmitSectionConfig(d, fd, Tail(dtbs[i]), x, c.value, i + 1);
    ok := true;
  }

  /** The configurations of the device trees. */
  method EmitDtbConfs(d: Settings, t: Tools, fd: Fd, dtbs: seq<string>, x: Extras) returns (ok: bool)
    requires fd.Valid() && fd.top.kids == [] && fd.top.props == []
    modifies fd
    ensures ok <==> Confs(d, t, x, dtbs, 1).Some?
    ensures ok ==> fd.Valid() && fd.under == old(fd.under)
                   && fd.top == Frame(old(fd.top).name, if dtbs == [] then [] else DefaultProps(d, Tail(dtbs[0])),
                                      Confs(d, t, x, dtbs, 1).value)
  {
    hide Lex, OpenToks, ArePrintableFrames, IsPrintableFrame, ConfNode, DefaultProps, Tail, Compatible, Confs;
    ghost var done := [];
    ghost var all := Confs(d, t, x, dtbs, 1);
    assert dtbs[0..] == dtbs;
    PrependNothing(all);
    for i := 0 to |dtbs|
      invariant |done| == i && fd.Valid() && fd.under == old(fd.under)
      invariant fd.top == Frame(old(fd.top).name, if i == 0 then [] else DefaultProps(d, Tail(dtbs[0])), done)
      invariant all == Prepend(done, Confs(d, t, x, dtbs[i..], i + 1))
    {
      ConfsStep(d, t, x, dtbs, i, done);
      ok := EmitNextConf(d, t, fd, dtbs, x, i, done);
      if !ok {
        return;
      }
      done := done + [ConfNode(d, x, Tail(dtbs[i]), Compatible(t, dtbs[i], false).value, i + 1)];
    }
    NoMoreConfs(d, t, x, dtbs, done);
    ok := true;
  }

  /** The configurations of the overlays. */
  method EmitDtboConfs(d: Settings, t: Tools, fd: Fd, dtbos: seq<string>) returns (ok: bool)
    requires fd.Valid()
    modifies fd
    ensures ok <==> OverlayConfs(d, t, dtbos).Some?
    ensures ok ==> fd.Valid() && fd.under == old(fd.under)
                   && fd.top == old(fd.top).(kids := old(fd.top).kids + OverlayConfs(d, t, dtbos).value)
  {
    hide Lex, OpenToks, ArePrintableFrames, IsPrintableFrame, OverlayConfNode, Tail, Compatible, OverlayConfs;
    ghost var done := [];
    ghost var all, before := OverlayConfs(d, t, dtbos), fd.top.kids;
    assert dtbos[0..] == dtbos && before + done == before;
    PrependNothing(all);
    for i := 0 to |dtbos|
      invariant fd.Valid() && fd.under == old(fd.under) && fd.top == old(fd.top).(kids := before + done)
      invariant all == Prepend(done, OverlayConfs(d, t, dtbos[i..]))
    {
      OverlayConfsStep(d, t, dtbos, i, done);
      var c := Compatible(t, dtbos[i], true);
      if c.None? {
        return false;
      }
      EmitSectionConfigFdto(d, fd, Tail(dtbos[i]), c.value);
      AppendTwice(before, done, OverlayConfNode(d, Tail(dtbos[i]), c.value));
      done := done + [OverlayConfNode(d, Tail(dtbos[i]), c.value)];
    }
    NoMoreOverlayConfs(d, t, dtbos, done);
    ok := true;
  }

  // ---- write_manifest ----

  /** The root's properties and the `images` section. */
  method EmitImagesSection(d: Settings, t: Tools, fd: Fd, images: seq<Image>) returns (ok: bool, g: Gathered)
    requires fd.Valid() && fd.under == [] && fd.top == Frame("/", [], [])
    modifies fd
    ensures ok <==> AddImages(d, t, NO_PLAN, images).Some?
    ensures ok ==> var p := AddImages(d, t, NO_PLAN, images).value;
                   && fd.Valid() && fd.under == []
                   && fd.top == Frame("/", RootProps(d), [ImagesNode(p)]) && Gathers(g, p)
  {
    hide Lex, OpenToks, ArePrintableFrames, IsPrintableFrame, CellsValue, StringValue, AddImages, Gathers;
    fd.StringProp(1, "description", d.description);
    fd.CellsProp(1, "#address-cells", "1");
    assert fd.top.props == RootProps(d);
    fd.OpenNode(1, "images");
    ok, g := EmitImages(d, t, fd, images);
    if !ok {
      return;
    }
    fd.CloseNode(1);
  }

  /** Both kinds of configurations, within the open `configurations` node. */
  method EmitConfs(d: Settings, t: Tools, fd: Fd, dtbs: seq<string>, dtbos: seq<string>, x: Extras) returns (ok: bool)
    requires fd.Valid() && fd.top.kids == [] && fd.top.props == []
    modifies fd
    ensures ok <==> Confs(d, t, x, dtbs, 1).Some? && OverlayConfs(d, t, dtbos).Some?
    ensures ok ==> fd.Valid() && fd.under == old(fd.under)
                   && fd.top == Frame(old(fd.top).name, if dtbs == [] then [] else DefaultProps(d, Tail(dtbs[0])),
                                      Confs(d, t, x, dtbs, 1).value + OverlayConfs(d, t, dtbos).value)
  {
    hide *;
    ok := EmitDtbConfs(d, t, fd, dtbs, x);
    if ok {
      ok := EmitDtboConfs(d, t, fd, dtbos);
    }
  }

  /** The `configurations` section. */
  method EmitConfigurations(d: Settings, t: Tools, fd: Fd, g: Gathered, ghost p: Plan) returns (ok: bool)
    requires fd.Valid() && fd.under == [] && Gathers(g, p)
    modifies fd
    ensures ok <==> Configurations(d, t, p).Some?
    ensures ok ==> fd.Valid() && fd.under == [] && fd.top == WithKid(old(fd.top), Configurations(d, t, p).value)
  {
    var dtbs, dtbos, x := Split(g.dtbs), Split(g.dtbos), Extras(g.ramdisk != "", g.bootscript);
    assert dtbs == Split(p.dtbs) && dtbos == Split(p.dtbos) && x == p.extras;
    ConfigurationsAre(d, t, p, dtbs, dtbos);
    hide *;
    ghost var below := fd.top;
    fd.OpenNode(1, "configurations");
    ok := EmitConfs(d, t, fd, dtbs, dtbos, x);
    if ok {
      assert fd.under == [below];
      ClosedIs(fd.top);
      fd.CloseNode(1);
      ok := |dtbs| + |dtbos| != 0;
    }
  }

  lemma ClosedIs(f: Frame)
    ensures Closed(f) == Node(f.name, f.props, f.kids)
  {
  }

  lemma ConfigurationsAre(d: Settings, t: Tools, p: Plan, dtbs: seq<string>, dtbos: seq<string>)
    requires dtbs == Split(p.dtbs) && dtbos == Split(p.dtbos)
    ensures var confs, overlays := Confs(d, t, p.extras, dtbs, 1), OverlayConfs(d, t, dtbos);
            Configurations(d, t, p)
            == if confs.None? || overlays.None? || |dtbs| + |dtbos| == 0 then None
               else Some(Node("configurations", if dtbs == [] then [] else DefaultProps(d, Tail(dtbs[0])),
                              confs.value + overlays.value))
  {
    hide Confs, OverlayConfs, DefaultProps, Tail, Split;
  }

  /** Writes the manifest; `ok` is false if the build fails. It succeeds exactly if there is an
      intended tree; and then the text reads as that tree if and only if every name, string and
      word of the tree can be printed. */
  method WriteManifest(d: Settings, t: Tools, images: seq<Image>) returns (ok: bool, text: string)
    ensures ok <==> Tree(d, t, images).Some?
    ensures ok ==> (Read(text) == Tree(d, t, images) <==> IsPrintable(Tree(d, t, images).value))
  {
    hide Lex, OpenToks, ArePrintableFrames, IsPrintableFrame, AddImages, Configurations, RootProps, Gathers,
      IsPrintable;
    text := "";
    var fd := new Fd();
    var g;
    ok, g := EmitImagesSection(d, t, fd, images);
    if !ok {
      return;
    }
    ghost var p := AddImages(d, t, NO_PLAN, images).value;
    ok := EmitConfigurations(d, t, fd, g, p);
    if !ok {
      return;
    }
    assert fd.top == Frame("/", RootProps(d), [ImagesNode(p), Configurations(d, t, p).value]);
    fd.CloseRoot();
    text := fd.text;
  }
}
