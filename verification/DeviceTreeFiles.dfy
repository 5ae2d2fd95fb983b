/** The device trees that are taken when an image lists none (get_dtbs): those of the kernel and
    those of the device tree recipe, each base name once, in order. */
module DeviceTreeFiles {
  import opened Text
  import opened Manifest
  import opened ManifestProps

  // ---- sorted(set(...)) ----

  /** Strings in the order of their characters. */
  predicate Less(a: string, b: string) {
    if b == "" then false else if a == "" then true
    else a[0] < b[0] || (a[0] == b[0] && Less(a[1..], b[1..]))
  }

  /** The strings are the same up to place n, and differ there. */
  predicate DifferAt(a: string, b: string, n: nat) {
    n < |a| && n < |b| && a[..n] == b[..n] && a[n] != b[n]
  }

  /** a is a proper prefix of b, or has the smaller character at the first place where they differ. */
  ghost predicate ComesBefore(a: string, b: string) {
    a < b || exists n: nat :: DifferAt(a, b, n) && a[n] < b[n]
  }

  lemma LessIs(a: string, b: string)
    ensures Less(a, b) <==> ComesBefore(a, b)
  {
    if Less(a, b) {
      LessComesBefore(a, b);
    } else if n: nat :| DifferAt(a, b, n) && a[n] < b[n] {
      SmallerIsLess(a, b, n);
    } else if a < b {
      PrefixIsLess(a, b);
    }
  }

  lemma {:induction false} LessComesBefore(a: string, b: string)
    requires Less(a, b)
    ensures ComesBefore(a, b)
    decreases |a|
  {
    if a != "" && a[0] == b[0] {
      var c, d := a[1..], b[1..];
      assert a == [a[0]] + c && b == [b[0]] + d;
      LessComesBefore(c, d);
      if n: nat :| DifferAt(c, d, n) && c[n] < d[n] {
        assert a[..n + 1] == [a[0]] + c[..n] && b[..n + 1] == [b[0]] + d[..n];
        assert DifferAt(a, b, n + 1);
      }
    } else if a != "" {
      assert DifferAt(a, b, 0);
    }
  }

  lemma {:induction false} SmallerIsLess(a: string, b: string, n: nat)
    requires DifferAt(a, b, n) && a[n] < b[n]
    ensures Less(a, b)
    decreases n
  {
    if n > 0 {
      var c, d := a[1..], b[1..];
      assert a[..n][0] == b[..n][0] && a[..n][1..] == c[..n - 1] && b[..n][1..] == d[..n - 1];
      SmallerIsLess(c, d, n - 1);
    }
  }

  lemma {:induction false} PrefixIsLess(a: string, b: string)
    requires a < b
    ensures Less(a, b)
    decreases |a|
  {
    if a != "" {
      PrefixIsLess(a[1..], b[1..]);
    }
  }

  lemma {:induction false} LessTransitive(a: string, b: string, c: string)
    requires Less(a, b) && Less(b, c)
    ensures Less(a, c)
    decreases |a|
  {
    if a != "" && a[0] == b[0] == c[0] {
      LessTransitive(a[1..], b[1..], c[1..]);
    }
  }

  lemma {:induction false} LessTotal(a: string, b: string)
    ensures Less(a, b) || a == b || Less(b, a)
    decreases |a|
  {
    if a != "" && b != "" && a[0] == b[0] {
      LessTotal(a[1..], b[1..]);
      assert a == [a[0]] + a[1..] && b == [b[0]] + b[1..];
    }
  }

  lemma {:induction false} LessIrreflexive(a: string)
    ensures !Less(a, a)
    decreases |a|
  {
    if a != "" {
      LessIrreflexive(a[1..]);
    }
  }

  ghost predicate Ascending(s: seq<string>) {
    forall i, j :: 0 <= i < j < |s| ==> Less(s[i], s[j])
  }

  function Insert(s: seq<string>, w: string): seq<string> {
    if s == [] then [w]
    else if w == s[0] then s
    else if Less(w, s[0]) then [w] + s
    else [s[0]] + Insert(s[1..], w)
  }

  lemma {:induction false} InsertKeepsOrder(s: seq<string>, w: string)
    requires Ascending(s)
    ensures Ascending(Insert(s, w)) && forall x :: x in Insert(s, w) <==> x in s || x == w
    decreases |s|
  {
    if s != [] {
      LessTotal(w, s[0]);
      var r := Insert(s, w);
      if w != s[0] && Less(w, s[0]) {
        forall j | 0 < j < |s| ensures Less(w, s[j]) {
          LessTransitive(w, s[0], s[j]);
        }
      } else if w != s[0] {
        InsertKeepsOrder(s[1..], w);
        forall j | 0 < j < |r| ensures Less(r[0], r[j]) {
          assert r[j] == Insert(s[1..], w)[j - 1] && r[j] in Insert(s[1..], w);
        }
        assert forall i, j :: 0 < i < j < |r| ==> r[i] == Insert(s[1..], w)[i - 1] && r[j] == Insert(s[1..], w)[j - 1];
      }
    }
  }

  lemma AscendingIsDistinct(s: seq<string>)
    requires Ascending(s)
    ensures Distinct(s)
  {
    forall i, j | 0 <= i < j < |s| ensures s[i] != s[j] {
      LessIrreflexive(s[i]);
    }
  }

  // ---- get_dtbs ----

  function Join(ws: seq<string>): string {
    if ws == [] then "" else if |ws| == 1 then ws[0] else Join(ws[..|ws| - 1]) + " " + ws[|ws| - 1]
  }

  lemma {:induction false} SplitJoin(ws: seq<string>)
    requires forall w :: w in ws ==> IsWord(w)
    ensures Split(Join(ws)) == ws
    decreases |ws|
  {
    if |ws| == 1 {
      assert ws[0] in ws;
      SplitFromWord(Splitting([], ""), ws[0]);
      assert "" + ws[0] == ws[0];
    } else if |ws| > 1 {
      var n := |ws| - 1;
      assert ws[n] in ws;
      SplitJoin(ws[..n]);
      SplitAppend(Join(ws[..n]), ws[n]);
      assert ws[..n] + [ws[n]] == ws;
    }
  }

  function PathOf(sysroot: string, deployDir: string, ext: seq<string>, name: string): string {
    if name in ext then sysroot + "/boot/devicetree/" + name else deployDir + "/" + name
  }

  function PathsOf(sysroot: string, deployDir: string, ext: seq<string>, names: seq<string>): (ps: seq<string>)
    ensures |ps| == |names|
  {
    seq(|names|, i requires 0 <= i < |names| => PathOf(sysroot, deployDir, ext, names[i]))
  }

  /** The base names of those listed with the suffix. */
  ghost predicate ListedIn(kernel: seq<string>, suffix: string, name: string) {
    exists w :: w in kernel && EndsWith(w, suffix) && Tail(w) == name
  }

  predicate InDirectory(ext: seq<string>, suffix: string, name: string) {
    name in ext && EndsWith(name, suffix)
  }

  lemma TailEndsWith(p: string, suffix: string)
    requires EndsWith(p, suffix) && '/' !in suffix
    ensures EndsWith(Tail(p), suffix)
  {
    assert forall i :: |p| - |suffix| <= i < |p| ==> p[i] in p[|p| - |suffix|..];
    assert |suffix| <= |Tail(p)|;
    assert p[|p| - |suffix|..] == Tail(p)[|Tail(p)| - |suffix|..];
  }

  lemma EmptyAscends()
    ensures Ascending([])
  {
  }

  method SortListed(kernel: seq<string>, suffix: string) returns (sorted: seq<string>)
    ensures Ascending(sorted)
    ensures forall x :: x in sorted <==> ListedIn(kernel, suffix, x)
  {
    hide Tail, Less, Insert, Ascending, EndsWith;
    sorted := [];
    EmptyAscends();
    for i := 0 to |kernel|
      invariant Ascending(sorted)
      invariant forall x :: x in sorted <==> ListedIn(kernel[..i], suffix, x)
    {
      assert kernel[..i + 1] == kernel[..i] + [kernel[i]];
      if EndsWith(kernel[i], suffix) {
        InsertKeepsOrder(sorted, Tail(kernel[i]));
        sorted := Insert(sorted, Tail(kernel[i]));
      }
    }
    assert kernel[..|kernel|] == kernel;
  }

  method SortInDirectory(listed: seq<string>, extFiles: seq<string>, suffix: string)
    returns (ext: seq<string>, sorted: seq<string>)
    requires Ascending(listed)
    ensures Ascending(sorted)
    ensures forall x :: x in ext <==> InDirectory(extFiles, suffix, x)
    ensures forall x :: x in sorted <==> x in listed || x in ext
  {
    hide Less, Insert, Ascending, EndsWith;
    ext, sorted := [], listed;
    for i := 0 to |extFiles|
      invariant Ascending(sorted)
      invariant forall x :: x in ext <==> InDirectory(extFiles[..i], suffix, x)
      invariant forall x :: x in sorted <==> x in listed || x in ext
    {
      assert extFiles[..i + 1] == extFiles[..i] + [extFiles[i]];
      if EndsWith(extFiles[i], suffix) {
        ext := ext + [extFiles[i]];
        InsertKeepsOrder(sorted, extFiles[i]);
        sorted := Insert(sorted, extFiles[i]);
      }
    }
    assert extFiles[..|extFiles|] == extFiles;
  }

  /** Ending so means being something with that behind it. */
  lemma EndsWithIs(s: string, suffix: string)
    ensures EndsWith(s, suffix) <==> exists p: string :: s == p + suffix
  {
    if EndsWith(s, suffix) {
      assert s == s[..|s| - |suffix|] + suffix;
    }
  }

  /** Joining puts a blank between words. */
  lemma {:induction false} JoinAppend(ws: seq<string>, w: string)
    ensures Join([]) == "" && Join(ws + [w]) == if ws == [] then w else Join(ws) + " " + w
  {
    assert (ws + [w])[..|ws|] == ws;
  }

  /** What is found, in terms of base names. */
  lemma FoundIs(kernel: seq<string>, extFiles: seq<string>, suffix: string, x: string)
    requires '/' !in suffix
    ensures ListedIn(kernel, suffix, x) || InDirectory(extFiles, suffix, x)
            <==> (exists p: string :: x == p + suffix) && (x in Tails(kernel) || x in extFiles)
  {
    hide Tail, Tails, EndsWith;
    EndsWithIs(x, suffix);
    TailsAt(kernel);
    if w :| w in kernel && EndsWith(w, suffix) && Tail(w) == x {
      TailEndsWith(w, suffix);
      var i :| 0 <= i < |kernel| && kernel[i] == w;
      assert Tails(kernel)[i] == x;
    }
    if EndsWith(x, suffix) && x in Tails(kernel) {
      var i :| 0 <= i < |kernel| && Tails(kernel)[i] == x;
      EndsLikeTail(kernel[i], suffix);
    }
  }

  lemma EndsLikeTail(w: string, suffix: string)
    requires EndsWith(Tail(w), suffix)
    ensures EndsWith(w, suffix)
  {
    var t := Tail(w);
    assert w[|w| - |suffix|..] == w[|w| - |t|..][|t| - |suffix|..];
  }

  /** The device trees found: base names in ascending order, so each once; exactly those with the suffix
      that are the base name of one that the kernel lists, or that the directory holds; taken from
      the directory if it is there. */
  method GetDtbs(kernelDevicetree: string, extFiles: seq<string>, sysroot: string, deployDir: string, suffix: string)
    returns (text: string, names: seq<string>)
    requires '/' !in suffix
    ensures Ascending(names)
    ensures forall x :: x in names <==> ListedIn(Split(kernelDevicetree), suffix, x) || InDirectory(extFiles, suffix, x)
    ensures text == Join(PathsOf(sysroot, deployDir, extFiles, names))
    ensures forall i, j :: 0 <= i < j < |names| ==> ComesBefore(names[i], names[j])
    ensures forall x :: x in names
              <==> (exists p: string :: x == p + suffix) && (x in Tails(Split(kernelDevicetree)) || x in extFiles)
    ensures forall i :: 0 <= i < |names| ==>
              PathsOf(sysroot, deployDir, extFiles, names)[i]
              == (if names[i] in extFiles then sysroot + "/boot/devicetree/" else deployDir + "/") + names[i]
  {
    hide Ascending, Join, Split, ListedIn, InDirectory, ComesBefore, Tails;
    var listed := SortListed(Split(kernelDevicetree), suffix);
    var ext, sorted := SortInDirectory(listed, extFiles, suffix);
    names := sorted;
    forall x | x in names ensures x in ext <==> x in extFiles {
      FoundEndsWith(Split(kernelDevicetree), ext, extFiles, suffix, x);
    }
    var paths := Paths(sysroot, deployDir, ext, sorted, extFiles);
    text := Join(paths);
    AscendingIs(names);
    forall x | true
      ensures x in names
              <==> (exists p: string :: x == p + suffix) && (x in Tails(Split(kernelDevicetree)) || x in extFiles)
    {
      FoundIs(Split(kernelDevicetree), extFiles, suffix, x);
    }
  }

  lemma AscendingIs(s: seq<string>)
    ensures Ascending(s) <==> forall i, j :: 0 <= i < j < |s| ==> ComesBefore(s[i], s[j])
  {
    hide ComesBefore, Less;
    forall i, j | 0 <= i < j < |s| ensures Less(s[i], s[j]) <==> ComesBefore(s[i], s[j]) {
      LessIs(s[i], s[j]);
    }
  }

  lemma PathOfIs(sysroot: string, deployDir: string, ext: seq<string>, extFiles: seq<string>, name: string)
    requires name in ext <==> name in extFiles
    ensures PathOf(sysroot, deployDir, extFiles, name)
         == if name in ext then sysroot + "/boot/devicetree/" + name else deployDir + "/" + name
  {
  }

  method Paths(sysroot: string, deployDir: string, ext: seq<string>, sorted: seq<string>, ghost extFiles: seq<string>)
    returns (paths: seq<string>)
    requires forall x :: x in sorted ==> (x in ext <==> x in extFiles)
    ensures paths == PathsOf(sysroot, deployDir, extFiles, sorted)
  {
    hide PathOf;
    paths := [];
    for i := 0 to |sorted|
      invariant paths == PathsOf(sysroot, deployDir, extFiles, sorted[..i])
    {
      assert sorted[i] in sorted;
      assert sorted[..i + 1] == sorted[..i] + [sorted[i]];
      var path := if sorted[i] in ext then sysroot + "/boot/devicetree/" + sorted[i] else deployDir + "/" + sorted[i];
      PathOfIs(sysroot, deployDir, ext, extFiles, sorted[i]);
      paths := paths + [path];
    }
    assert sorted[..|sorted|] == sorted;
  }

  lemma FoundEndsWith(kernel: seq<string>, ext: seq<string>, extFiles: seq<string>, suffix: string, name: string)
    requires '/' !in suffix
    requires forall x :: x in ext <==> InDirectory(extFiles, suffix, x)
    requires ListedIn(kernel, suffix, name) || name in ext
    ensures name in ext <==> name in extFiles
  {
    if ListedIn(kernel, suffix, name) {
      var w :| w in kernel && EndsWith(w, suffix) && Tail(w) == name;
      TailEndsWith(w, suffix);
    }
  }

  lemma FoundIsWord(kernelDevicetree: string, extFiles: seq<string>, suffix: string, name: string)
    requires '/' !in suffix && suffix != ""
    requires forall f :: f in extFiles ==> IsWord(f) && '/' !in f
    requires ListedIn(Split(kernelDevicetree), suffix, name) || InDirectory(extFiles, suffix, name)
    ensures IsWord(name) && '/' !in name
  {
    if name !in extFiles {
      var w :| w in Split(kernelDevicetree) && EndsWith(w, suffix) && Tail(w) == name;
      SplitWords(kernelDevicetree);
      TailEndsWith(w, suffix);
      assert forall c :: c in w[|w| - |name|..] ==> c in w;
    }
  }

  /** The default list of device trees splits into paths whose base names are the ones found:
      each once, in order. So an image without a file list never brings the same node twice. */
  lemma DefaultTreesAreDistinct(kernelDevicetree: string, extFiles: seq<string>, sysroot: string, deployDir: string,
                                suffix: string, names: seq<string>)
    requires '/' !in suffix && suffix != "" && SpaceFree(sysroot) && SpaceFree(deployDir)
    requires forall f :: f in extFiles ==> IsWord(f) && '/' !in f
    requires Ascending(names)
    requires forall x ::
               x in names <==> ListedIn(Split(kernelDevicetree), suffix, x) || InDirectory(extFiles, suffix, x)
    ensures var paths := Split(Join(PathsOf(sysroot, deployDir, extFiles, names)));
            && paths == PathsOf(sysroot, deployDir, extFiles, names)
            && Tails(paths) == names && Distinct(Tails(paths))
  {
    hide ListedIn, InDirectory, Join, Split, Ascending;
    var paths := PathsOf(sysroot, deployDir, extFiles, names);
    forall i | 0 <= i < |names| ensures IsWord(paths[i]) && Tail(paths[i]) == names[i] {
      assert names[i] in names;
      FoundIsWord(kernelDevicetree, extFiles, suffix, names[i]);
      PathIsWord(sysroot, deployDir, extFiles, names[i]);
    }
    SplitJoin(paths);
    AscendingIsDistinct(names);
    assert Tails(paths) == names;
  }

  /** So an image that lists no files, with the default that get_dtbs finds for it, brings the nodes
      of exactly the device trees found, each once. */
  lemma DefaultImageBrings(d: Settings, i: Image, overlay: bool, kernelDevicetree: string, extFiles: seq<string>,
                           sysroot: string, names: seq<string>)
    requires IsKind(i, if overlay then "fdto" else "fdt") && i.file.None?
    requires SpaceFree(sysroot) && SpaceFree(d.deployDir) && forall f :: f in extFiles ==> IsWord(f) && '/' !in f
    requires Ascending(names)
    requires var suffix := if overlay then "dtbo" else "dtb";
             forall x ::
               x in names <==> ListedIn(Split(kernelDevicetree), suffix, x) || InDirectory(extFiles, suffix, x)
    requires (if overlay then d.dtboDefault else d.dtbDefault) == Join(PathsOf(sysroot, d.deployDir, extFiles, names))
    ensures Tails(Added(d, i)) == names && Distinct(Tails(Added(d, i)))
    ensures KeyNames(KeysOf(d, i)) == KeyNames(FdtKeys(names))
  {
    hide ListedIn, InDirectory, Join, Split, Ascending, PathsOf, KeyNames, FdtKeys, Tails, Distinct;
    var suffix := if overlay then "dtbo" else "dtb";
    assert '/' !in suffix && suffix != "";
    DefaultTreesAreDistinct(kernelDevicetree, extFiles, sysroot, d.deployDir, suffix, names);
  }

  lemma PathIsWord(sysroot: string, deployDir: string, ext: seq<string>, name: string)
    requires IsWord(name) && '/' !in name && SpaceFree(sysroot) && SpaceFree(deployDir)
    ensures IsWord(PathOf(sysroot, deployDir, ext, name)) && Tail(PathOf(sysroot, deployDir, ext, name)) == name
  {
    BootDirIsWord();
    TailIs(PathOf(sysroot, deployDir, ext, name), name);
  }

  lemma BootDirIsWord()
    ensures SpaceFree("/boot/devicetree/")
  {
  }
}
