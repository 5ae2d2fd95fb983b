/** What every manifest has in common, and what it takes for one to be usable. */
module ManifestProps {
  import opened Wrappers
  import opened Text
  import opened Dts
  import opened Its
  import opened Manifest
  import opened FitConf

  // ---- What a list of images asks for ----

  predicate IsKind(i: Image, kind: string) {
    Or(i.imgtype, "kernel") == kind
  }

  /** The device trees that one image adds. */
  function Added(d: Settings, i: Image): seq<string> {
    if IsKind(i, "fdt") then Split(Or(i.file, d.dtbDefault))
    else if IsKind(i, "fdto") then Split(Or(i.file, d.dtboDefault))
    else if IsKind(i, "fdtapply") then [d.buildDir + "/" + Or(i.name, "")]
    else []
  }

  /** All device trees of a list, in its order; only overlays, or only the others. */
  function DeviceTrees(d: Settings, images: seq<Image>, overlays: bool): seq<string>
    decreases |images|
  {
    if images == [] then []
    else (if IsKind(images[0], "fdto") == overlays then Added(d, images[0]) else [])
         + DeviceTrees(d, images[1..], overlays)
  }

  /** The names of device trees made from overlays have no spaces. */
  predicate ResultsAreWords(d: Settings, images: seq<Image>) {
    forall i :: i in images && IsKind(i, "fdtapply") ==> IsWord(d.buildDir + "/" + Or(i.name, ""))
  }

  // ---- The device trees are all kept, in order ----

  lemma {:induction false} FdtsKeepWords(d: Settings, p: Plan, ws: seq<string>, overlay: bool)
    requires forall w :: w in ws ==> IsWord(w)
    ensures var q := AddFdts(d, p, ws, overlay);
            && Split(q.dtbs) == Split(p.dtbs) + (if overlay then [] else ws)
            && Split(q.dtbos) == Split(p.dtbos) + (if overlay then ws else [])
    decreases |ws|
  {
    hide Split, FdtNode, AddFdt, Tail, Head, IsWord;
    ListsEnd(p);
    if ws != [] {
      var q := AddFdt(d, p, ws[0], overlay);
      assert ws[0] in ws && forall w :: w in ws[1..] ==> w in ws;
      FdtKeepsWords(d, p, ws[0], overlay);
      FdtsKeepWords(d, q, ws[1..], overlay);
      assert [ws[0]] + ws[1..] == ws;
      Associate(Split(if overlay then p.dtbos else p.dtbs), [ws[0]], ws[1..]);
      ListsEnd(q);
    }
  }

  lemma ListsEnd(p: Plan)
    ensures Split(p.dtbs) + [] == Split(p.dtbs) && Split(p.dtbos) + [] == Split(p.dtbos)
  {
  }

  lemma FdtKeepsWords(d: Settings, p: Plan, w: string, overlay: bool)
    requires IsWord(w)
    ensures var q := AddFdt(d, p, w, overlay);
            && Split(q.dtbs) == (if overlay then Split(p.dtbs) else Split(p.dtbs) + [w])
            && Split(q.dtbos) == (if overlay then Split(p.dtbos) + [w] else Split(p.dtbos))
  {
    hide Split, FdtNode, Tail, Head;
    SplitAppend(if overlay then p.dtbos else p.dtbs, w);
  }

  lemma Associate(a: seq<string>, b: seq<string>, c: seq<string>)
    ensures a + b + c == a + (b + c)
  {
  }

  lemma ImageKeepsWords(d: Settings, t: Tools, p: Plan, i: Image)
    requires AddImage(d, t, p, i).Some? && ResultsAreWords(d, [i])
    ensures var q := AddImage(d, t, p, i).value;
            && Split(q.dtbs) == Split(p.dtbs) + (if IsKind(i, "fdto") then [] else Added(d, i))
            && Split(q.dtbos) == Split(p.dtbos) + (if IsKind(i, "fdto") then Added(d, i) else [])
  {
    hide Split, FdtNode, KernelNode, RamdiskNode, BootscriptNode, OverlayCommand, AddFdts;
    assert i in [i];
    assert Split(p.dtbs) + [] == Split(p.dtbs) && Split(p.dtbos) + [] == Split(p.dtbos);
    if IsKind(i, "fdt") || IsKind(i, "fdto") {
      var files := Or(i.file, if IsKind(i, "fdt") then d.dtbDefault else d.dtboDefault);
      SplitWords(files);
      FdtsKeepWords(d, p, Split(files), IsKind(i, "fdto"));
    } else if IsKind(i, "fdtapply") {
      SplitAppend(p.dtbs, d.buildDir + "/" + i.name.value);
    }
  }

  lemma {:induction false} ImagesKeepWords(d: Settings, t: Tools, p: Plan, images: seq<Image>)
    requires AddImages(d, t, p, images).Some? && ResultsAreWords(d, images)
    ensures var q := AddImages(d, t, p, images).value;
            && Split(q.dtbs) == Split(p.dtbs) + DeviceTrees(d, images, false)
            && Split(q.dtbos) == Split(p.dtbos) + DeviceTrees(d, images, true)
    decreases |images|
  {
    hide Split, AddImage, Added;
    if images == [] {
      assert Split(p.dtbs) + [] == Split(p.dtbs) && Split(p.dtbos) + [] == Split(p.dtbos);
    } else {
      var i := images[0];
      assert i in images;
      var q := AddImage(d, t, p, i).value;
      ImageKeepsWords(d, t, p, i);
      ImagesKeepWords(d, t, q, images[1..]);
      Associate(Split(p.dtbs), if IsKind(i, "fdto") then [] else Added(d, i), DeviceTrees(d, images[1..], false));
      Associate(Split(p.dtbos), if IsKind(i, "fdto") then Added(d, i) else [], DeviceTrees(d, images[1..], true));
    }
  }

  /** The strings in which device trees are gathered split into exactly those that the images
      list, in the order of the list: none is lost, doubled or moved. */
  lemma DeviceTreesAreKept(d: Settings, t: Tools, images: seq<Image>)
    requires AddImages(d, t, NO_PLAN, images).Some? && ResultsAreWords(d, images)
    ensures var p := AddImages(d, t, NO_PLAN, images).value;
            Split(p.dtbs) == DeviceTrees(d, images, false) && Split(p.dtbos) == DeviceTrees(d, images, true)
  {
    ImagesKeepWords(d, t, NO_PLAN, images);
    assert Split("") == [];
    assert forall list: seq<string> :: [] + list == list;
  }

  // ---- Configurations ----

  /** n is the configuration number `count` of these, for the device tree at this path. */
  predicate IsConfOf(n: Node, d: Settings, t: Tools, x: Extras, dtb: string, count: nat) {
    Compatible(t, dtb, false).Some? && n == ConfNode(d, x, Tail(dtb), Compatible(t, dtb, false).value, count)
  }

  predicate IsOverlayConfOf(n: Node, d: Settings, t: Tools, dtb: string) {
    Compatible(t, dtb, true).Some? && n == OverlayConfNode(d, Tail(dtb), Compatible(t, dtb, true).value)
  }

  lemma {:induction false} ConfAt(d: Settings, t: Tools, x: Extras, dtbs: seq<string>, count: nat, i: nat)
    requires Confs(d, t, x, dtbs, count).Some? && i < |dtbs|
    ensures var cs := Confs(d, t, x, dtbs, count).value;
            |cs| == |dtbs| && IsConfOf(cs[i], d, t, x, dtbs[i], count + i)
    decreases |dtbs|
  {
    hide IsConfOf, Confs;
    FirstConf(d, t, x, dtbs, count);
    ConfsLength(d, t, x, dtbs, count);
    if i > 0 {
      ConfAt(d, t, x, dtbs[1..], count + 1, i - 1);
      assert dtbs[1..][i - 1] == dtbs[i];
    }
  }

  lemma NoConfs(d: Settings, t: Tools, x: Extras, count: nat)
    ensures Confs(d, t, x, [], count) == OverlayConfs(d, t, []) == Some([])
  {
  }

  lemma FirstConf(d: Settings, t: Tools, x: Extras, dtbs: seq<string>, count: nat)
    requires Confs(d, t, x, dtbs, count).Some? && dtbs != []
    ensures Confs(d, t, x, dtbs[1..], count + 1).Some?
    ensures var cs := Confs(d, t, x, dtbs, count).value;
            cs != [] && cs[1..] == Confs(d, t, x, dtbs[1..], count + 1).value
            && IsConfOf(cs[0], d, t, x, dtbs[0], count)
  {
    hide ConfNode, Compatible, Tail;
  }

  lemma {:induction false} ConfsLength(d: Settings, t: Tools, x: Extras, dtbs: seq<string>, count: nat)
    requires Confs(d, t, x, dtbs, count).Some?
    ensures |Confs(d, t, x, dtbs, count).value| == |dtbs|
    decreases |dtbs|
  {
    hide Confs, IsConfOf;
    NoConfs(d, t, x, count);
    if dtbs != [] {
      FirstConf(d, t, x, dtbs, count);
      ConfsLength(d, t, x, dtbs[1..], count + 1);
    }
  }

  lemma {:induction false} OverlayConfsLength(d: Settings, t: Tools, dtbos: seq<string>)
    requires OverlayConfs(d, t, dtbos).Some?
    ensures |OverlayConfs(d, t, dtbos).value| == |dtbos|
    decreases |dtbos|
  {
    hide OverlayConfs, IsOverlayConfOf;
    NoConfs(d, t, Extras(false, ""), 1);
    if dtbos != [] {
      FirstOverlayConf(d, t, dtbos);
      OverlayConfsLength(d, t, dtbos[1..]);
    }
  }

  lemma {:induction false} OverlayConfAt(d: Settings, t: Tools, dtbos: seq<string>, i: nat)
    requires OverlayConfs(d, t, dtbos).Some? && i < |dtbos|
    ensures var cs := OverlayConfs(d, t, dtbos).value;
            |cs| == |dtbos| && IsOverlayConfOf(cs[i], d, t, dtbos[i])
    decreases |dtbos|
  {
    hide IsOverlayConfOf, OverlayConfs;
    FirstOverlayConf(d, t, dtbos);
    OverlayConfsLength(d, t, dtbos);
    if i > 0 {
      OverlayConfAt(d, t, dtbos[1..], i - 1);
      assert dtbos[1..][i - 1] == dtbos[i];
    }
  }

  lemma FirstOverlayConf(d: Settings, t: Tools, dtbos: seq<string>)
    requires OverlayConfs(d, t, dtbos).Some? && dtbos != []
    ensures OverlayConfs(d, t, dtbos[1..]).Some?
    ensures var cs := OverlayConfs(d, t, dtbos).value;
            cs != [] && cs[1..] == OverlayConfs(d, t, dtbos[1..]).value && IsOverlayConfOf(cs[0], d, t, dtbos[0])
  {
    hide OverlayConfNode, Compatible, Tail;
  }

  /** There is one configuration for every device tree, in order, and then one for every overlay. */
  lemma ConfigurationAt(d: Settings, t: Tools, images: seq<Image>, p: Plan, i: nat)
    requires AddImages(d, t, NO_PLAN, images) == Some(p) && Configurations(d, t, p).Some? && ResultsAreWords(d, images)
    ensures var confs := Configurations(d, t, p).value.kids;
            var dtbs, dtbos := DeviceTrees(d, images, false), DeviceTrees(d, images, true);
            && |confs| == |dtbs| + |dtbos|
            && (i < |dtbs| ==> IsConfOf(confs[i], d, t, p.extras, dtbs[i], i + 1))
            && (|dtbs| <= i < |confs| ==> IsOverlayConfOf(confs[i], d, t, dtbos[i - |dtbs|]))
  {
    hide AddImages, Confs, OverlayConfs, IsConfOf, IsOverlayConfOf, Tail, DeviceTrees, Split;
    var dtbs, dtbos := DeviceTrees(d, images, false), DeviceTrees(d, images, true);
    DeviceTreesAreKept(d, t, images);
    ConfsLength(d, t, p.extras, dtbs, 1);
    OverlayConfsLength(d, t, dtbos);
    if i < |dtbs| {
      ConfAt(d, t, p.extras, dtbs, 1, i);
    } else if i - |dtbs| < |dtbos| {
      OverlayConfAt(d, t, dtbos, i - |dtbs|);
    }
  }

  /** A manifest with a device tree has exactly one default configuration, and unless another
      is set it is the first device tree's; but none if that one's name is empty. */
  lemma DefaultIsFirst(d: Settings, t: Tools, images: seq<Image>, p: Plan)
    requires AddImages(d, t, NO_PLAN, images) == Some(p) && Configurations(d, t, p).Some? && ResultsAreWords(d, images)
    ensures var conf, dtbs := Configurations(d, t, p).value, DeviceTrees(d, images, false);
            if dtbs == [] then conf.props == []
            else if d.defaultConfig != "" then conf.props == [StrProp("default", d.defaultConfig)]
            else && conf.kids != []
                 && conf.props == if conf.kids[0].name == "" then [] else [StrProp("default", conf.kids[0].name)]
  {
    hide AddImages, Confs, OverlayConfs, DeviceTrees, Split, Tail;
    DeviceTreesAreKept(d, t, images);
    if DeviceTrees(d, images, false) != [] {
      ConfAt(d, t, p.extras, DeviceTrees(d, images, false), 1, 0);
    }
  }

  // ---- Signatures ----

  predicate NamesImage(name: string) {
    name == "kernel" || name == "fdt" || name == "ramdisk" || name == "bootscr"
  }

  /** The properties that name an image, in order. */
  function ImageProps(ps: seq<Property>): seq<Property> {
    if ps == [] then [] else (if NamesImage(ps[0].name) then [ps[0]] else []) + ImageProps(ps[1..])
  }

  function PropName(p: Property): string { p.name }

  function PropNames(ps: seq<Property>): seq<string> {
    Map(PropName, ps)
  }

  lemma {:induction false} ImagePropsConcat(a: seq<Property>, b: seq<Property>)
    ensures ImageProps(a + b) == ImageProps(a) + ImageProps(b)
    decreases |a|
  {
    if a == [] {
      assert a + b == b;
    } else {
      assert (a + b)[1..] == a[1..] + b;
      ImagePropsConcat(a[1..], b);
    }
  }

  lemma ImagePropsOne(p: Property)
    ensures ImageProps([p]) == if NamesImage(p.name) then [p] else []
  {
    assert ImageProps([p][1..]) == [];
  }

  lemma ImagePropsTwo(p: Property, q: Property)
    ensures ImageProps([p, q]) == ImageProps([p]) + ImageProps([q])
  {
    ImagePropsConcat([p], [q]);
    assert [p] + [q] == [p, q];
  }

  lemma NotImages()
    ensures !NamesImage("description") && !NamesImage("compatible")
  {
  }

  lemma AreImages()
    ensures NamesImage("kernel") && NamesImage("fdt") && NamesImage("ramdisk") && NamesImage("bootscr")
  {
  }

  function OptProp(name: string, s: string, given: bool): seq<Property> {
    if given then [StrProp(name, s)] else []
  }

  lemma ImagePropsOpt(name: string, s: string, given: bool)
    ensures ImageProps(OptProp(name, s, given)) == OptProp(name, s, given && NamesImage(name))
  {
    hide NamesImage;
    ImagePropsOne(StrProp(name, s));
  }

  /** The properties of a configuration that name images. */
  function ConfImages(x: Extras, dtb: string): seq<Property> {
    [StrProp("kernel", "kernel-1"), StrProp("fdt", "fdt-" + dtb)]
    + OptProp("ramdisk", "ramdisk-1", x.ramdisk) + OptProp("bootscr", "bootscr-" + x.bootscript, x.bootscript != "")
  }

  lemma ConfImageProps(d: Settings, x: Extras, dtb: string, c: string, count: nat)
    ensures ImageProps(ConfNode(d, x, dtb, c, count).props) == ConfImages(x, dtb)
  {
    hide StringValue, ConfDescription, NamesImage;
    var text := StrProp("description", ConfDescription(x, dtb, count));
    var k, f := StrProp("kernel", "kernel-1"), StrProp("fdt", "fdt-" + dtb);
    var r := OptProp("ramdisk", "ramdisk-1", x.ramdisk);
    var b := OptProp("bootscr", "bootscr-" + x.bootscript, x.bootscript != "");
    NotImages();
    AreImages();
    ImagePropsOne(text);
    ImagePropsOne(k);
    ImagePropsOne(f);
    ImagePropsOpt("ramdisk", "ramdisk-1", x.ramdisk);
    ImagePropsOpt("bootscr", "bootscr-" + x.bootscript, x.bootscript != "");
    ImagePropsOpt("compatible", c, c != "");
    hide ImageProps;
    ImagePropsTwo(k, f);
    ImagePropsConcat([text], [k, f]);
    var head := [text, k, f];
    assert [text] + [k, f] == head && [] + ([k] + [f]) == [k, f];
    ImagePropsConcat(head, r);
    ImagePropsConcat(head + r, b);
    ImagePropsConcat(head + r + b, OptProp("compatible", c, c != ""));
  }

  lemma OverlayConfImageProps(d: Settings, dtb: string, c: string)
    ensures ImageProps(OverlayConfNode(d, dtb, c).props) == [StrProp("fdt", "fdt-" + dtb)]
  {
    hide StringValue, NamesImage;
    var text, f := StrProp("description", "Device Tree Overlay"), StrProp("fdt", "fdt-" + dtb);
    NotImages();
    AreImages();
    ImagePropsOne(text);
    ImagePropsOne(f);
    ImagePropsOpt("compatible", c, c != "");
    hide ImageProps;
    ImagePropsTwo(text, f);
    ImagePropsConcat([text, f], OptProp("compatible", c, c != ""));
  }

  /** Signature coverage: the signature of a configuration covers exactly the images that the
      configuration names, if and only if its device tree has a base name; that of an
      overlay's configuration always does. */
  lemma SignatureCovers(d: Settings, x: Extras, dtb: string, c: string, count: nat)
    requires d.sign
    ensures ConfNode(d, x, dtb, c, count).kids == [SignatureNode(d, SignImages(x, dtb))]
    ensures SignImages(x, dtb) == PropNames(ImageProps(ConfNode(d, x, dtb, c, count).props)) <==> dtb != ""
    ensures OverlayConfNode(d, dtb, c).kids ==
            [SignatureNode(d, PropNames(ImageProps(OverlayConfNode(d, dtb, c).props)))]
  {
    hide SignatureNode, StringValue, ConfDescription, ImageProps;
    ConfImageProps(d, x, dtb, c, count);
    OverlayConfImageProps(d, dtb, c);
    assert PropNames([StrProp("fdt", "fdt-" + dtb)]) == ["fdt"];
    var named := PropNames(ConfImages(x, dtb));
    assert named == ["kernel", "fdt"] + (if x.ramdisk then ["ramdisk"] else [])
                    + (if x.bootscript != "" then ["bootscr"] else []);
    assert ["kernel"] + ["fdt"] == ["kernel", "fdt"];
    if dtb == "" {
      assert |SignImages(x, dtb)| == |named| - 1;
    }
  }

  /** Lists of different lengths are printed to different values. */
  lemma {:induction false} StringsLength(ss: seq<string>)
    ensures |StringsValue(ss)| == if ss == [] then 0 else 2 * |ss| - 1
    decreases |ss|
  {
    if |ss| > 1 {
      StringsLength(ss[1..]);
    }
  }

  lemma SignaturesDiffer(d: Settings, a: seq<string>, b: seq<string>)
    requires |a| != |b|
    ensures SignatureNode(d, a) != SignatureNode(d, b)
  {
    hide StringsValue, StringValue;
    StringsLength(a);
    StringsLength(b);
    var i := 1 + |OptStr("key-name-hint", d.keyname)|;
    assert SignatureNode(d, a).props[i].value == StringsValue(a);
    assert SignatureNode(d, b).props[i].value == StringsValue(b);
  }

  /** The signature of configuration i covers exactly the images that it names. */
  ghost predicate IsCovered(d: Settings, n: Node) {
    n.kids == [SignatureNode(d, PropNames(ImageProps(n.props)))]
  }

  lemma ConfigurationCovered(d: Settings, t: Tools, images: seq<Image>, p: Plan, i: nat)
    requires AddImages(d, t, NO_PLAN, images) == Some(p) && Configurations(d, t, p).Some? && ResultsAreWords(d, images)
    requires d.sign && i < |Configurations(d, t, p).value.kids|
    ensures var dtbs := DeviceTrees(d, images, false);
            IsCovered(d, Configurations(d, t, p).value.kids[i]) <==> i >= |dtbs| || Tail(dtbs[i]) != ""
  {
    hide *;
    ConfigurationAt(d, t, images, p, i);
    var dtbs, dtbos := DeviceTrees(d, images, false), DeviceTrees(d, images, true);
    var n := Configurations(d, t, p).value.kids[i];
    if i < |dtbs| {
      ConfOfIsCovered(n, d, t, p.extras, dtbs[i], i + 1);
    } else {
      OverlayConfOfIsCovered(n, d, t, dtbos[i - |dtbs|]);
    }
  }

  lemma ConfOfIsCovered(n: Node, d: Settings, t: Tools, x: Extras, w: string, count: nat)
    requires d.sign && IsConfOf(n, d, t, x, w, count)
    ensures IsCovered(d, n) <==> Tail(w) != ""
  {
    hide IsCovered, ConfNode, Compatible, Tail;
    ConfIsCovered(d, x, Tail(w), Compatible(t, w, false).value, count);
  }

  lemma OverlayConfOfIsCovered(n: Node, d: Settings, t: Tools, w: string)
    requires d.sign && IsOverlayConfOf(n, d, t, w)
    ensures IsCovered(d, n)
  {
    hide OverlayConfNode, Compatible, Tail, SignatureNode, ImageProps, PropNames;
    SignatureCovers(d, Extras(false, ""), Tail(w), Compatible(t, w, true).value, 0);
  }

  lemma ConfIsCovered(d: Settings, x: Extras, dtb: string, c: string, count: nat)
    requires d.sign
    ensures IsCovered(d, ConfNode(d, x, dtb, c, count)) <==> dtb != ""
  {
    hide SignatureNode, ImageProps, StringValue, ConfDescription;
    SignatureCovers(d, x, dtb, c, count);
    ConfImageProps(d, x, dtb, c, count);
    if dtb == "" {
      assert |ConfImages(x, dtb)| == |SignImages(x, dtb)| + 1;
      SignaturesDiffer(d, SignImages(x, dtb), PropNames(ConfImages(x, dtb)));
    }
  }

  /** Signature coverage of a whole manifest: with signing on, every configuration is signed over
      exactly the images that it names, if and only if every device tree but overlays has a base
      name. */
  lemma SignaturesCover(d: Settings, t: Tools, images: seq<Image>, p: Plan)
    requires AddImages(d, t, NO_PLAN, images) == Some(p) && Configurations(d, t, p).Some? && ResultsAreWords(d, images)
    requires d.sign
    ensures (forall n :: n in Configurations(d, t, p).value.kids ==> IsCovered(d, n))
            <==> forall w :: w in DeviceTrees(d, images, false) ==> Tail(w) != ""
  {
    hide AddImages, Configurations, DeviceTrees, Tail, IsCovered;
    var confs, dtbs := Configurations(d, t, p).value.kids, DeviceTrees(d, images, false);
    ConfigurationAt(d, t, images, p, 0);
    forall i | 0 <= i < |confs| ensures IsCovered(d, confs[i]) <==> i >= |dtbs| || Tail(dtbs[i]) != "" {
      ConfigurationCovered(d, t, images, p, i);
    }
    if forall n :: n in confs ==> IsCovered(d, n) {
      forall w | w in dtbs ensures Tail(w) != "" {
        var i :| 0 <= i < |dtbs| && dtbs[i] == w;
        assert confs[i] in confs;
      }
    }
    if forall w :: w in dtbs ==> Tail(w) != "" {
      forall n | n in confs ensures IsCovered(d, n) {
        var i :| 0 <= i < |confs| && confs[i] == n;
        assert i < |dtbs| ==> dtbs[i] in dtbs;
      }
    }
  }

  // ---- Image nodes, in list order ----

  /** What an image node is named after. */
  datatype Key = KernelKey | FdtKey(file: string) | RamdiskKey | ScriptKey(file: string)

  function KeyName(k: Key): string {
    match k
    case KernelKey => "kernel-1"
    case FdtKey(file) => "fdt-" + file
    case RamdiskKey => "ramdisk-1"
    case ScriptKey(file) => "bootscr-" + file
  }

  lemma KeyNameIsInjective(a: Key, b: Key)
    ensures KeyName(a) == KeyName(b) <==> a == b
  {
    assert KeyName(a)[0] ==
           (match a case KernelKey => 'k' case FdtKey(_) => 'f' case RamdiskKey => 'r' case ScriptKey(_) => 'b');
    assert KeyName(b)[0] ==
           (match b case KernelKey => 'k' case FdtKey(_) => 'f' case RamdiskKey => 'r' case ScriptKey(_) => 'b');
    assert a.FdtKey? ==> KeyName(a)[4..] == a.file;
    assert b.FdtKey? ==> KeyName(b)[4..] == b.file;
    assert a.ScriptKey? ==> KeyName(a)[8..] == a.file;
    assert b.ScriptKey? ==> KeyName(b)[8..] == b.file;
  }

  function Tails(ws: seq<string>): (ts: seq<string>)
    ensures |ts| == |ws|
  {
    seq(|ws|, i requires 0 <= i < |ws| => Tail(ws[i]))
  }

  function FdtKeys(ts: seq<string>): (ks: seq<Key>)
    ensures |ks| == |ts|
  {
    seq(|ts|, i requires 0 <= i < |ts| => FdtKey(ts[i]))
  }

  function KeysOf(d: Settings, i: Image): seq<Key> {
    if IsKind(i, "kernel") then [KernelKey]
    else if IsKind(i, "ramdisk") then [RamdiskKey]
    else if IsKind(i, "bootscript") then [ScriptKey(Or(i.file, "None"))]
    else FdtKeys(Tails(Added(d, i)))
  }

  /** The image nodes that a list of images asks for, in the order of the list. */
  function ImageKeys(d: Settings, images: seq<Image>): seq<Key>
    decreases |images|
  {
    if images == [] then [] else KeysOf(d, images[0]) + ImageKeys(d, images[1..])
  }

  function NodeName(n: Node): string { n.name }

  function Names(ns: seq<Node>): seq<string> {
    Map(NodeName, ns)
  }

  function KeyNames(ks: seq<Key>): seq<string> {
    Map(KeyName, ks)
  }

  /** The nodes of these device trees: each describes the file at its path. */
  function FdtNodes(d: Settings, ws: seq<string>, overlay: bool): seq<Node>
    decreases |ws|
  {
    if ws == [] then [] else [FdtNode(d, Tail(ws[0]), Head(ws[0]), overlay)] + FdtNodes(d, ws[1..], overlay)
  }

  /** The nodes that one image brings, whatever the others are. */
  function NodesOf(d: Settings, i: Image): seq<Node> {
    if IsKind(i, "kernel") then [KernelNode(d, Or(i.file, d.kernelDefault), Or(i.comp, "none"))]
    else if IsKind(i, "ramdisk") then
      [RamdiskNode(d, i.recipe + d.machineSuffix + "." + Or(i.fstype, Or(d.initramfsFstype, "")))]
    else if IsKind(i, "bootscript") then [BootscriptNode(d, Or(i.file, "None"))]
    else FdtNodes(d, Added(d, i), IsKind(i, "fdto"))
  }

  function AllNodes(d: Settings, images: seq<Image>): seq<Node>
    decreases |images|
  {
    if images == [] then [] else NodesOf(d, images[0]) + AllNodes(d, images[1..])
  }

  lemma AssociateNodes(a: seq<Node>, b: seq<Node>, c: seq<Node>)
    ensures a + b + c == a + (b + c) && a + [] == a
  {
  }

  lemma {:induction false} FdtsAreAdded(d: Settings, p: Plan, ws: seq<string>, overlay: bool)
    ensures AddFdts(d, p, ws, overlay).images == p.images + FdtNodes(d, ws, overlay)
    decreases |ws|
  {
    hide FdtNode, Tail, Head;
    AssociateNodes(p.images, [], []);
    if ws != [] {
      FdtsAreAdded(d, AddFdt(d, p, ws[0], overlay), ws[1..], overlay);
      AssociateNodes(p.images, [FdtNode(d, Tail(ws[0]), Head(ws[0]), overlay)], FdtNodes(d, ws[1..], overlay));
    }
  }

  lemma ImageIsAdded(d: Settings, t: Tools, p: Plan, i: Image)
    requires AddImage(d, t, p, i).Some?
    ensures AddImage(d, t, p, i).value.images == p.images + NodesOf(d, i)
  {
    hide Tail, Head, Split, OverlayCommand, AddFdts, KernelNode, RamdiskNode, BootscriptNode, FdtNode;
    if IsKind(i, "fdt") || IsKind(i, "fdto") {
      FdtsAreAdded(d, p, Added(d, i), IsKind(i, "fdto"));
    } else if IsKind(i, "fdtapply") {
      OneFdt(d, d.buildDir + "/" + i.name.value);
    }
  }

  lemma OneFdt(d: Settings, w: string)
    ensures FdtNodes(d, [w], false) == [FdtNode(d, Tail(w), Head(w), false)]
  {
    hide FdtNode, Tail, Head;
    assert FdtNodes(d, [w][1..], false) == [];
  }

  lemma {:induction false} ImagesAreAdded(d: Settings, t: Tools, p: Plan, images: seq<Image>)
    requires AddImages(d, t, p, images).Some?
    ensures AddImages(d, t, p, images).value.images == p.images + AllNodes(d, images)
    decreases |images|
  {
    hide AddImage, NodesOf;
    AssociateNodes(p.images, [], []);
    if images != [] {
      ImageIsAdded(d, t, p, images[0]);
      ImagesAreAdded(d, t, AddImage(d, t, p, images[0]).value, images[1..]);
      AssociateNodes(p.images, NodesOf(d, images[0]), AllNodes(d, images[1..]));
    }
  }

  lemma {:induction false} FdtNodesAreNamed(d: Settings, ws: seq<string>, overlay: bool)
    ensures Names(FdtNodes(d, ws, overlay)) == KeyNames(FdtKeys(Tails(ws)))
    decreases |ws|
  {
    hide Tail, Head, BlobProps, HashNode, OptCells;
    if ws != [] {
      FdtNodesAreNamed(d, ws[1..], overlay);
      FdtNamesStep(ws);
      MapConcat(NodeName, [FdtNode(d, Tail(ws[0]), Head(ws[0]), overlay)], FdtNodes(d, ws[1..], overlay));
    }
  }

  lemma FdtNamesStep(ws: seq<string>)
    requires ws != []
    ensures KeyNames(FdtKeys(Tails(ws))) == ["fdt-" + Tail(ws[0])] + KeyNames(FdtKeys(Tails(ws[1..])))
  {
    hide Tail, Tails, FdtKeys;
    TailsStep(ws);
    FdtKeysStep(Tail(ws[0]), Tails(ws[1..]));
    MapConcat(KeyName, [FdtKey(Tail(ws[0]))], FdtKeys(Tails(ws[1..])));
  }

  lemma TailsStep(ws: seq<string>)
    requires ws != []
    ensures Tails(ws) == [Tail(ws[0])] + Tails(ws[1..])
  {
    hide Tail;
  }

  lemma FdtKeysStep(t: string, ts: seq<string>)
    ensures FdtKeys([t] + ts) == [FdtKey(t)] + FdtKeys(ts)
  {
  }

  lemma NodesAreNamed(d: Settings, i: Image)
    ensures Names(NodesOf(d, i)) == KeyNames(KeysOf(d, i))
  {
    hide Tail, Head, BlobProps, HashNode, OptCells, FdtNodes;
    FdtNodesAreNamed(d, Added(d, i), IsKind(i, "fdto"));
  }

  lemma {:induction false} AllNodesAreNamed(d: Settings, images: seq<Image>)
    ensures Names(AllNodes(d, images)) == KeyNames(ImageKeys(d, images))
    decreases |images|
  {
    hide NodesOf, KeysOf;
    if images != [] {
      NodesAreNamed(d, images[0]);
      AllNodesAreNamed(d, images[1..]);
      MapConcat(NodeName, NodesOf(d, images[0]), AllNodes(d, images[1..]));
      MapConcat(KeyName, KeysOf(d, images[0]), ImageKeys(d, images[1..]));
    }
  }

  /** The image nodes of a manifest are those of its images, each image's determined by itself, in the
      order of the list; and this is how they are named. */
  lemma ImageNodes(d: Settings, t: Tools, images: seq<Image>, p: Plan)
    requires AddImages(d, t, NO_PLAN, images) == Some(p)
    ensures p.images == AllNodes(d, images) && Names(p.images) == KeyNames(ImageKeys(d, images))
  {
    hide AddImages, ImageKeys, AllNodes;
    ImagesAreAdded(d, t, NO_PLAN, images);
    AllNodesAreNamed(d, images);
    assert [] + AllNodes(d, images) == AllNodes(d, images);
  }

  // ---- References ----

  /** Every one of these properties is a string that names one of the nodes. */
  ghost predicate Resolves(ps: seq<Property>, names: seq<string>) {
    forall p :: p in ps ==> |p.value| == 1 && p.value[0].Str? && p.value[0].s in names
  }

  lemma KeyNamesHave(ks: seq<Key>, k: Key)
    ensures KeyName(k) in KeyNames(ks) <==> k in ks
  {
    if k in ks {
      var i :| 0 <= i < |ks| && ks[i] == k;
      assert KeyNames(ks)[i] == KeyName(k);
    } else if KeyName(k) in KeyNames(ks) {
      var i :| 0 <= i < |ks| && KeyNames(ks)[i] == KeyName(k);
      KeyNameIsInjective(k, ks[i]);
    }
  }

  lemma AddedHasKey(d: Settings, i: Image, w: string)
    requires w in Added(d, i)
    ensures FdtKey(Tail(w)) in KeysOf(d, i)
  {
    hide Split, Tail;
    var ws := Added(d, i);
    var j :| 0 <= j < |ws| && ws[j] == w;
    assert FdtKeys(Tails(ws))[j] == FdtKey(Tail(w));
  }

  lemma {:induction false} DeviceTreesHaveKeys(d: Settings, images: seq<Image>, overlays: bool, w: string)
    requires w in DeviceTrees(d, images, overlays)
    ensures FdtKey(Tail(w)) in ImageKeys(d, images)
    decreases |images|
  {
    hide Added, KeysOf, Tail;
    if IsKind(images[0], "fdto") == overlays && w in Added(d, images[0]) {
      AddedHasKey(d, images[0], w);
    } else {
      DeviceTreesHaveKeys(d, images[1..], overlays, w);
    }
  }

  ghost predicate HasKernel(images: seq<Image>) {
    exists i :: i in images && IsKind(i, "kernel")
  }

  lemma {:induction false} KernelHasKey(d: Settings, images: seq<Image>)
    ensures KernelKey in ImageKeys(d, images) <==> HasKernel(images)
    decreases |images|
  {
    hide Added, Tail;
    if images != [] {
      KernelHasKey(d, images[1..]);
      assert KernelKey in KeysOf(d, images[0]) <==> IsKind(images[0], "kernel");
      assert forall i :: i in images <==> i == images[0] || i in images[1..];
    }
  }

  /** What the configurations may refer to besides device trees has a node. */
  predicate ExtrasHaveKeys(x: Extras, ks: seq<Key>) {
    (x.ramdisk ==> RamdiskKey in ks) && (x.bootscript != "" ==> ScriptKey(x.bootscript) in ks)
  }

  lemma ExtrasOfImage(d: Settings, t: Tools, p: Plan, i: Image, ks: seq<Key>)
    requires AddImage(d, t, p, i).Some? && ExtrasHaveKeys(p.extras, ks)
    ensures ExtrasHaveKeys(AddImage(d, t, p, i).value.extras, ks + KeysOf(d, i))
  {
    hide Tail, Head, Split, OverlayCommand, FdtNode, KernelNode, RamdiskNode, BootscriptNode;
    FdtsKeepExtras(d, p, Added(d, i), IsKind(i, "fdto"));
  }

  lemma {:induction false} FdtsKeepExtras(d: Settings, p: Plan, ws: seq<string>, overlay: bool)
    ensures AddFdts(d, p, ws, overlay).extras == p.extras
    decreases |ws|
  {
    if ws != [] {
      FdtsKeepExtras(d, AddFdt(d, p, ws[0], overlay), ws[1..], overlay);
    }
  }

  lemma {:induction false} ExtrasOfImages(d: Settings, t: Tools, p: Plan, images: seq<Image>, ks: seq<Key>)
    requires AddImages(d, t, p, images).Some? && ExtrasHaveKeys(p.extras, ks)
    ensures ExtrasHaveKeys(AddImages(d, t, p, images).value.extras, ks + ImageKeys(d, images))
    decreases |images|
  {
    hide AddImage, KeysOf;
    if images == [] {
      assert ks + ImageKeys(d, images) == ks;
    } else {
      var more := ks + KeysOf(d, images[0]);
      ExtrasOfImage(d, t, p, images[0], ks);
      ExtrasOfImages(d, t, AddImage(d, t, p, images[0]).value, images[1..], more);
      assert more + ImageKeys(d, images[1..]) == ks + ImageKeys(d, images);
    }
  }

  /** What a configuration of a device tree refers to is there, but for the kernel perhaps. */
  lemma ConfResolves(x: Extras, dtb: string, ks: seq<Key>)
    requires ExtrasHaveKeys(x, ks) && FdtKey(dtb) in ks
    ensures Resolves(ConfImages(x, dtb), KeyNames(ks)) <==> KernelKey in ks
  {
    KeyNamesHave(ks, KernelKey);
    KeyNamesHave(ks, FdtKey(dtb));
    KeyNamesHave(ks, RamdiskKey);
    KeyNamesHave(ks, ScriptKey(x.bootscript));
    hide KeyNames;
    var ps, names := ConfImages(x, dtb), KeyNames(ks);
    assert ps[0] == StrProp("kernel", KeyName(KernelKey)) && ps[1] == StrProp("fdt", KeyName(FdtKey(dtb)));
    assert ps[0] in ps;
    forall p | p in ps && KernelKey in ks ensures |p.value| == 1 && p.value[0].Str? && p.value[0].s in names {
      assert p == ps[0] || p == ps[1] || (x.ramdisk && p == StrProp("ramdisk", KeyName(RamdiskKey)))
             || (x.bootscript != "" && p == StrProp("bootscr", KeyName(ScriptKey(x.bootscript))));
    }
  }

  /** Referential closure: every kernel, fdt, ramdisk and bootscr reference of every configuration
      names an image node of the manifest, if and only if there is no device tree besides
      overlays or there is a kernel. */
  lemma ReferencesResolve(d: Settings, t: Tools, images: seq<Image>, p: Plan)
    requires AddImages(d, t, NO_PLAN, images) == Some(p) && Configurations(d, t, p).Some? && ResultsAreWords(d, images)
    ensures (forall n :: n in Configurations(d, t, p).value.kids ==> Resolves(ImageProps(n.props), Names(p.images)))
            <==> DeviceTrees(d, images, false) == [] || HasKernel(images)
  {
    hide AddImages, Configurations, DeviceTrees, ImageKeys, Resolves, ImageProps, HasKernel, ConfNode, OverlayConfNode,
      Tail;
    var confs, ks := Configurations(d, t, p).value.kids, ImageKeys(d, images);
    var dtbs := DeviceTrees(d, images, false);
    ImageNodes(d, t, images, p);
    KernelHasKey(d, images);
    forall i | 0 <= i < |confs|
      ensures Resolves(ImageProps(confs[i].props), Names(p.images)) <==> i >= |dtbs| || HasKernel(images)
    {
      ConfigurationResolves(d, t, images, p, i);
    }
    ConfigurationAt(d, t, images, p, 0);
    if dtbs != [] {
      assert confs[0] in confs;
    }
  }

  lemma ConfigurationResolves(d: Settings, t: Tools, images: seq<Image>, p: Plan, i: nat)
    requires AddImages(d, t, NO_PLAN, images) == Some(p) && Configurations(d, t, p).Some? && ResultsAreWords(d, images)
    requires i < |Configurations(d, t, p).value.kids|
    ensures Resolves(ImageProps(Configurations(d, t, p).value.kids[i].props), Names(p.images))
            <==> i >= |DeviceTrees(d, images, false)| || HasKernel(images)
  {
    hide AddImages, Configurations, DeviceTrees, ImageKeys, ImageProps, HasKernel, ConfNode, OverlayConfNode, Tail,
      Compatible, Resolves, Names, KeyNames, ConfImages, AllNodes, Map;
    var ks, dtbs, dtbos := ImageKeys(d, images), DeviceTrees(d, images, false), DeviceTrees(d, images, true);
    ImageNodes(d, t, images, p);
    KernelHasKey(d, images);
    ConfigurationAt(d, t, images, p, i);
    if i < |dtbs| {
      var w := dtbs[i];
      DeviceTreesHaveKeys(d, images, false, w);
      ExtrasOfImages(d, t, NO_PLAN, images, []);
      assert [] + ks == ks;
      ConfImageProps(d, p.extras, Tail(w), Compatible(t, w, false).value, i + 1);
      ConfResolves(p.extras, Tail(w), ks);
    } else {
      var w := dtbos[i - |dtbs|];
      DeviceTreesHaveKeys(d, images, true, w);
      OverlayConfImageProps(d, Tail(w), Compatible(t, w, true).value);
      OverlayResolves(Tail(w), ks);
    }
  }

  lemma OverlayResolves(dtb: string, ks: seq<Key>)
    requires FdtKey(dtb) in ks
    ensures Resolves([StrProp("fdt", "fdt-" + dtb)], KeyNames(ks))
  {
    KeyNamesHave(ks, FdtKey(dtb));
  }

  // ---- Unique names ----

  ghost predicate Distinct<T>(s: seq<T>) {
    forall i, j :: 0 <= i < j < |s| ==> s[i] != s[j]
  }

  lemma {:induction false} DistinctCounts<T>(s: seq<T>)
    ensures Distinct(s) <==> forall x :: x in s ==> multiset(s)[x] == 1
    decreases |s|
  {
    if s != [] {
      var r := s[1..];
      DistinctStep(s);
      DistinctCounts(r);
      hide Distinct;
      assert s == [s[0]] + r;
      assert multiset(s) == multiset{s[0]} + multiset(r);
      assert multiset(s)[s[0]] == 1 + multiset(r)[s[0]];
      assert forall x :: x in r ==> x in s && multiset(r)[x] <= multiset(s)[x] && multiset(r)[x] > 0;
    }
  }

  lemma DistinctStep<T>(s: seq<T>)
    requires s != []
    ensures Distinct(s) <==> s[0] !in s[1..] && Distinct(s[1..])
  {
    var r := s[1..];
    assert forall j :: 0 < j < |s| ==> s[j] == r[j - 1] && s[j] in r;
    assert forall j :: 0 <= j < |r| ==> r[j] == s[j + 1];
  }

  lemma DistinctNames(ks: seq<Key>)
    ensures Distinct(KeyNames(ks)) <==> Distinct(ks)
  {
    forall i, j | 0 <= i < j < |ks| ensures KeyNames(ks)[i] == KeyNames(ks)[j] <==> ks[i] == ks[j] {
      KeyNameIsInjective(ks[i], ks[j]);
    }
  }

  function CountKind(images: seq<Image>, kind: string): nat
    decreases |images|
  {
    if images == [] then 0 else (if IsKind(images[0], kind) then 1 else 0) + CountKind(images[1..], kind)
  }

  /** The base names of all device trees, overlays or not, in order. */
  function AllTails(d: Settings, images: seq<Image>): seq<string>
    decreases |images|
  {
    if images == [] then [] else Tails(Added(d, images[0])) + AllTails(d, images[1..])
  }

  /** The files of all boot scripts, in order. */
  function Scripts(images: seq<Image>): seq<string>
    decreases |images|
  {
    if images == [] then []
    else (if IsKind(images[0], "bootscript") then [Or(images[0].file, "None")] else []) + Scripts(images[1..])
  }

  lemma {:induction false} CountFdtKeys(ts: seq<string>)
    ensures forall t :: multiset(FdtKeys(ts))[FdtKey(t)] == multiset(ts)[t]
    ensures forall k: Key :: !k.FdtKey? ==> multiset(FdtKeys(ts))[k] == 0
    decreases |ts|
  {
    if ts != [] {
      CountFdtKeys(ts[1..]);
      assert ts == [ts[0]] + ts[1..];
      assert FdtKeys(ts) == [FdtKey(ts[0])] + FdtKeys(ts[1..]);
    }
  }

  /** How often the images ask for a node. */
  function Copies(d: Settings, images: seq<Image>, k: Key): nat {
    match k
    case KernelKey => CountKind(images, "kernel")
    case RamdiskKey => CountKind(images, "ramdisk")
    case FdtKey(t) => multiset(AllTails(d, images))[t]
    case ScriptKey(f) => multiset(Scripts(images))[f]
  }

  lemma CopiesStep(d: Settings, images: seq<Image>, k: Key)
    requires images != []
    ensures Copies(d, images, k) == multiset(KeysOf(d, images[0]))[k] + Copies(d, images[1..], k)
  {
    hide Added, Tails, FdtKeys;
    CountFdtKeys(Tails(Added(d, images[0])));
    NoTails(d, images[0]);
  }

  lemma NoTails(d: Settings, i: Image)
    ensures IsKind(i, "kernel") || IsKind(i, "ramdisk") || IsKind(i, "bootscript") ==> Tails(Added(d, i)) == []
  {
  }

  lemma {:induction false} CountKeys(d: Settings, images: seq<Image>, k: Key)
    ensures multiset(ImageKeys(d, images))[k] == Copies(d, images, k)
    decreases |images|
  {
    if images != [] {
      hide KeysOf, Copies;
      CountKeys(d, images[1..], k);
      CopiesStep(d, images, k);
    }
  }

  /** Image node names are unique if and only if there is at most one kernel and one ramdisk, no
      two device trees have the same base name, and no two boot scripts the same file. */
  lemma ImageNamesAreUnique(d: Settings, t: Tools, images: seq<Image>, p: Plan)
    requires AddImages(d, t, NO_PLAN, images) == Some(p)
    ensures Distinct(Names(p.images))
            <==> && CountKind(images, "kernel") <= 1 && CountKind(images, "ramdisk") <= 1
                 && Distinct(AllTails(d, images)) && Distinct(Scripts(images))
  {
    hide AddImages, ImageKeys, AllTails, Scripts, Distinct, CountKind;
    var ks, ts, fs := ImageKeys(d, images), AllTails(d, images), Scripts(images);
    ImageNodes(d, t, images, p);
    DistinctNames(ks);
    DistinctCounts(ks);
    DistinctCounts(ts);
    DistinctCounts(fs);
    forall k ensures multiset(ks)[k] == Copies(d, images, k) {
      CountKeys(d, images, k);
    }
    if Distinct(ks) {
      assert forall k :: k !in ks ==> multiset(ks)[k] == 0;
      assert Copies(d, images, KernelKey) <= 1 && Copies(d, images, RamdiskKey) <= 1;
      forall t | t in ts ensures multiset(ts)[t] == 1 {
        assert multiset(ts)[t] == Copies(d, images, FdtKey(t)) <= 1;
      }
      forall f | f in fs ensures multiset(fs)[f] == 1 {
        assert multiset(fs)[f] == Copies(d, images, ScriptKey(f)) <= 1;
      }
    }
    if CountKind(images, "kernel") <= 1 && CountKind(images, "ramdisk") <= 1 && Distinct(ts) && Distinct(fs) {
      forall k | k in ks ensures multiset(ks)[k] == 1 {
        assert multiset(ks)[k] == Copies(d, images, k) > 0;
      }
    }
  }

  // ---- Names of configurations ----

  /** What configuration i is called. */
  lemma ConfigurationName(d: Settings, t: Tools, images: seq<Image>, p: Plan, i: nat)
    requires AddImages(d, t, NO_PLAN, images) == Some(p) && Configurations(d, t, p).Some? && ResultsAreWords(d, images)
    requires i < |Configurations(d, t, p).value.kids|
    ensures var dtbs, dtbos := DeviceTrees(d, images, false), DeviceTrees(d, images, true);
            && |Configurations(d, t, p).value.kids| == |dtbs| + |dtbos|
            && Configurations(d, t, p).value.kids[i].name
               == if i < |dtbs| then d.confPrefix + Tail(dtbs[i]) else Tail(dtbos[i - |dtbs|])
  {
    hide AddImages, Configurations, DeviceTrees, Tail, Compatible;
    ConfigurationAt(d, t, images, p, i);
  }

  /** The names of both kinds, those of the first with the prefix. */
  function NameAt(a: seq<string>, b: seq<string>, prefix: string, i: nat): string
    requires i < |a| + |b|
  {
    if i < |a| then prefix + a[i] else b[i - |a|]
  }

  /** No name is of both kinds, with the prefix and without. */
  ghost predicate NoneOfBoth(a: seq<string>, b: seq<string>, prefix: string) {
    forall x, y :: x in a && y in b ==> y != prefix + x
  }

  /** Names of two kinds are unique if and only if each kind's are and none is of both kinds. */
  lemma DistinctParts(names: seq<string>, a: seq<string>, b: seq<string>, prefix: string)
    requires |names| == |a| + |b|
    requires forall i :: 0 <= i < |names| ==> names[i] == NameAt(a, b, prefix, i)
    ensures Distinct(names) <==> Distinct(a) && Distinct(b) && NoneOfBoth(a, b, prefix)
  {
    PrefixIsInjective(prefix);
    assert forall i, j :: 0 <= i < j < |a| && a[i] != a[j] ==> prefix + a[i] != prefix + a[j];
    if Distinct(names) {
      forall i, j | 0 <= i < j < |a| ensures a[i] != a[j] {
        assert names[i] != names[j];
      }
      forall i, j | 0 <= i < j < |b| ensures b[i] != b[j] {
        assert names[|a| + i] != names[|a| + j];
      }
      forall x, y | x in a && y in b ensures y != prefix + x {
        var i :| 0 <= i < |a| && a[i] == x;
        var j :| 0 <= j < |b| && b[j] == y;
        assert names[i] != names[|a| + j];
      }
    }
    if Distinct(a) && Distinct(b) && NoneOfBoth(a, b, prefix) {
      forall i, j | 0 <= i < j < |names| ensures names[i] != names[j] {
        if i < |a| <= j {
          assert a[i] in a && b[j - |a|] in b;
        }
      }
    }
  }

  lemma PrefixIsInjective(prefix: string)
    ensures forall x: string, y: string :: prefix + x == prefix + y ==> x == y
  {
    forall x: string, y: string | prefix + x == prefix + y ensures x == y {
      assert (prefix + x)[|prefix|..] == x && (prefix + y)[|prefix|..] == y;
    }
  }

  /** The names of configurations are unique if and only if those of device trees have different base
      names, those of overlays too, and no overlay is called what a device tree's is with the
      prefix, which those of overlays do not have. */
  lemma ConfNamesAreUnique(d: Settings, t: Tools, images: seq<Image>, p: Plan)
    requires AddImages(d, t, NO_PLAN, images) == Some(p) && Configurations(d, t, p).Some? && ResultsAreWords(d, images)
    ensures var a, b := Tails(DeviceTrees(d, images, false)), Tails(DeviceTrees(d, images, true));
            Distinct(Names(Configurations(d, t, p).value.kids))
            <==> Distinct(a) && Distinct(b) && NoneOfBoth(a, b, d.confPrefix)
  {
    hide *;
    var confs := Configurations(d, t, p).value.kids;
    var dtbs, dtbos := DeviceTrees(d, images, false), DeviceTrees(d, images, true);
    ConfigurationAt(d, t, images, p, 0);
    var a, b := Tails(dtbs), Tails(dtbos);
    forall i | 0 <= i < |confs| ensures i < |Names(confs)| && Names(confs)[i] == NameAt(a, b, d.confPrefix, i) {
      ConfigurationNameAt(d, t, images, p, i);
    }
    NamesAt(confs);
    DistinctParts(Names(confs), a, b, d.confPrefix);
  }

  lemma ConfigurationNameAt(d: Settings, t: Tools, images: seq<Image>, p: Plan, i: nat)
    requires AddImages(d, t, NO_PLAN, images) == Some(p) && Configurations(d, t, p).Some? && ResultsAreWords(d, images)
    requires i < |Configurations(d, t, p).value.kids|
    ensures var a, b := Tails(DeviceTrees(d, images, false)), Tails(DeviceTrees(d, images, true));
            var names := Names(Configurations(d, t, p).value.kids);
            i < |names| == |a| + |b| && names[i] == NameAt(a, b, d.confPrefix, i)
  {
    hide AddImages, Configurations, DeviceTrees, Tail, Tails, Names;
    ConfigurationName(d, t, images, p, i);
    NamesAt(Configurations(d, t, p).value.kids);
    TailsAt(DeviceTrees(d, images, false));
    TailsAt(DeviceTrees(d, images, true));
  }

  lemma NamesAt(ns: seq<Node>)
    ensures |Names(ns)| == |ns| && forall i :: 0 <= i < |ns| ==> Names(ns)[i] == ns[i].name
  {
  }

  lemma TailsAt(ws: seq<string>)
    ensures forall i :: 0 <= i < |ws| ==> Tails(ws)[i] == Tail(ws[i])
  {
    hide Tail;
  }

  // ---- Bootloader and manifest ----

  /** If some device tree of the list has the base name of the file that the bootloader boots
      with, and the file is given with a directory and has a base name of at most 26
      characters, then the configuration that the bootloader asks for is in the manifest,
      and it names that device tree; and if names of configurations are unique, it is the
      only one of its name. */
  lemma BootloaderFindsConfiguration(d: Settings, t: Tools, images: seq<Image>, p: Plan, fdtFile: string, i: nat)
    requires AddImages(d, t, NO_PLAN, images) == Some(p) && Configurations(d, t, p).Some? && ResultsAreWords(d, images)
    requires d.confPrefix == CONF_PREFIX && '/' in fdtFile && |Tail(fdtFile)| <= ROOM
    requires i < |DeviceTrees(d, images, false)| && Tail(DeviceTrees(d, images, false)[i]) == Tail(fdtFile)
    ensures var confs := Configurations(d, t, p).value.kids;
            && i < |confs| && confs[i].name == FitConfOf(fdtFile)
            && StrProp("fdt", "fdt-" + Tail(fdtFile)) in ImageProps(confs[i].props)
            && (Distinct(Names(confs)) ==>
                  forall j :: 0 <= j < |confs| && confs[j].name == FitConfOf(fdtFile) ==> j == i)
  {
    hide AddImages, Configurations, DeviceTrees, ImageProps, Tail, Compatible, ConfNode, FitConfOf;
    var w, confs := DeviceTrees(d, images, false)[i], Configurations(d, t, p).value.kids;
    ConfigurationAt(d, t, images, p, i);
    ConfigurationName(d, t, images, p, i);
    NamesAgree(fdtFile, w);
    ConfImageProps(d, p.extras, Tail(w), Compatible(t, w, false).value, i + 1);
    assert ConfImages(p.extras, Tail(w))[1] == StrProp("fdt", "fdt-" + Tail(w));
    OnlyOneOfItsName(confs, i);
  }

  lemma OnlyOneOfItsName(ns: seq<Node>, i: nat)
    requires i < |ns|
    ensures Distinct(Names(ns)) ==> forall j :: 0 <= j < |ns| && ns[j].name == ns[i].name ==> j == i
  {
    forall j | Distinct(Names(ns)) && 0 <= j < |ns| && ns[j].name == ns[i].name ensures j == i {
      assert Names(ns)[j] == Names(ns)[i];
    }
  }

  /** The smallest manifest: a kernel and one device tree with a compatible string. */
  lemma SmallestManifest(d: Settings, t: Tools, kernel: Image, fdt: Image, w: string, c: string)
    requires kernel.imgtype == None && fdt.imgtype == Some("fdt") && fdt.file == Some(w)
    requires IsWord(w) && t.fdtget(w) == Output(c) && Split(c) != []
    ensures ResultsAreWords(d, [kernel, fdt]) && DeviceTrees(d, [kernel, fdt], false) == [w]
    ensures Tree(d, t, [kernel, fdt]).Some?
  {
    hide Split, Head, Tail, KernelNode, FdtNode, ConfNode;
    WordSplits(w);
    assert IsKind(kernel, "kernel") && IsKind(fdt, "fdt");
    assert [kernel, fdt][1..] == [fdt] && [fdt][1..] == [];
    assert DeviceTrees(d, [fdt], false) == [w] + DeviceTrees(d, [], false);
    var p := AddImage(d, t, NO_PLAN, kernel).value;
    var q := AddImage(d, t, p, fdt).value;
    assert [w][1..] == [];
    assert AddFdts(d, AddFdt(d, p, w, false), [w][1..], false) == AddFdt(d, p, w, false);
    assert q == AddFdt(d, p, w, false);
    assert AddImages(d, t, NO_PLAN, [kernel, fdt]) == AddImages(d, t, p, [fdt]) == AddImages(d, t, q, []) == Some(q);
    assert q.dtbs == "" + " " + w && q.dtbos == "";
    assert Confs(d, t, q.extras, [w], 1).Some?;
    assert OverlayConfs(d, t, []).Some?;
  }

  lemma WordSplits(w: string)
    requires IsWord(w)
    ensures Split(w) == [w] && Split("" + " " + w) == [w] && Split("") == []
  {
    SplitAppend("", w);
    SplitFromWord(Splitting([], ""), w);
    assert "" + w == w;
  }
}
