/** The FIT configuration that the bootloader asks for (board_generate_fit_conf), against the
    name that the manifest gives it. */
module FitConf {
  import opened Text

  const CONF_PREFIX := "conf-"
  const BUFFER_SIZE := 32
  const ROOM := 26  // sizeof(fit_conf) - strlen("conf-") - 1

  function Take(s: string, n: nat): string {
    if |s| <= n then s else s[..n]
  }

  /** The value of fit_conf for a device tree file: its base name after "conf-", cut to fit;
      a file without a directory is taken as it is. */
  function FitConfOf(fdtFile: string): string {
    if '/' in fdtFile then CONF_PREFIX + Take(Tail(fdtFile), ROOM) else fdtFile
  }

  /** The configuration node that the manifest emits for a device tree, by default. */
  function ManifestConf(dtb: string): string {
    CONF_PREFIX + Tail(dtb)
  }

  /** strrchr(s, c): where c occurs last, or -1 for NULL. */
  method Strrchr(s: string, c: char) returns (i: int)
    ensures -1 <= i < |s|
    ensures i >= 0 ==> s[i] == c && c !in s[i + 1..]
    ensures i < 0 <==> c !in s
  {
    i := |s| - 1;
    while i >= 0 && s[i] != c
      invariant -1 <= i < |s|
      invariant c !in s[i + 1..]
    {
      i := i - 1;
    }
  }

  const NUL: char := '\0'

  /** The string that a buffer holds ends at its first NUL. */
  ghost predicate HoldsString(b: seq<char>, s: string) {
    |s| < |b| && s <= b && b[|s|] == NUL && NUL !in s
  }

  /** strncpy(buf + at, src, n): at most n characters, padded with NULs to n. */
  method Strncpy(buf: array<char>, at: nat, src: string, n: nat)
    requires at + n <= buf.Length && NUL !in src
    modifies buf
    ensures forall i :: 0 <= i < buf.Length && !(at <= i < at + n) ==> buf[i] == old(buf[i])
    ensures forall i :: at <= i < at + n ==> buf[i] == if i - at < |src| then src[i - at] else NUL
  {
    var i := 0;
    while i < n
      invariant i <= n
      invariant forall j :: 0 <= j < buf.Length && !(at <= j < at + i) ==> buf[j] == old(buf[j])
      invariant forall j :: at <= j < at + i ==> buf[j] == if j - at < |src| then src[j - at] else NUL
    {
      buf[at + i] := if i < |src| then src[i] else NUL;
      i := i + 1;
    }
  }

  /** The C string in a buffer. */
  method ReadString(buf: array<char>) returns (s: string)
    requires NUL in buf[..]
    ensures HoldsString(buf[..], s)
  {
    var i := 0;
    while buf[i] != NUL
      invariant i < buf.Length && NUL !in buf[..i] && NUL in buf[i..]
      decreases buf.Length - i
    {
      i := i + 1;
    }
    s := buf[..i];
  }

  lemma StringIsUnique(b: seq<char>, s: string, t: string)
    requires HoldsString(b, s) && HoldsString(b, t)
    ensures s == t
  {
    assert forall i :: 0 <= i < |t| ==> b[i] in t;
    assert forall i :: 0 <= i < |s| ==> b[i] in s;
  }

  /** board_generate_fit_conf, for the C string in the environment variable fdt_file. */
  method BoardGenerateFitConf(fdtFile: string) returns (fitConf: string)
    requires NUL !in fdtFile
    ensures fitConf == FitConfOf(fdtFile)
  {
    hide Tail, HoldsString;
    var slash := Strrchr(fdtFile, '/');
    if slash < 0 {
      return fdtFile;
    }
    var base := fdtFile[slash + 1..];
    TailIs(fdtFile, base);
    fitConf := FillBuffer(base);
  }

  /** The buffer: "conf-", then as much of the base name as fits, then NULs. */
  method FillBuffer(base: string) returns (fitConf: string)
    requires NUL !in base
    ensures fitConf == CONF_PREFIX + Take(base, ROOM)
  {
    hide HoldsString, Take;
    var buf := new char[BUFFER_SIZE](_ => NUL);
    buf[0], buf[1], buf[2], buf[3], buf[4] := 'c', 'o', 'n', 'f', '-';
    Strncpy(buf, 5, base, BUFFER_SIZE - 5 - 1);
    assert buf[31] == NUL && buf[..][31] == NUL;
    assert buf[..5] == CONF_PREFIX;
    fitConf := ReadString(buf);
    BufferHolds(buf[..], base);
    StringIsUnique(buf[..], fitConf, CONF_PREFIX + Take(base, ROOM));
  }

  lemma BufferHolds(b: seq<char>, base: string)
    requires |b| == BUFFER_SIZE && NUL !in base && b[..5] == CONF_PREFIX && b[31] == NUL
    requires forall i :: 5 <= i < 5 + ROOM ==> b[i] == if i - 5 < |base| then base[i - 5] else NUL
    ensures HoldsString(b, CONF_PREFIX + Take(base, ROOM))
  {
    var s := CONF_PREFIX + Take(base, ROOM);
    forall i | 0 <= i < |s| ensures s[i] == b[i] && s[i] != NUL {
      if i < 5 {
        assert s[i] == b[..5][i];
      }
    }
  }

  /** For a file and a device tree of the same base name, the bootloader asks for the node that
      the manifest emits exactly if the file is given with a directory and its base name
      has at most 26 characters. */
  lemma NamesAgree(fdtFile: string, dtb: string)
    requires Tail(fdtFile) == Tail(dtb)
    ensures FitConfOf(fdtFile) == ManifestConf(dtb) <==> '/' in fdtFile && |Tail(fdtFile)| <= ROOM
  {
    hide Tail;
    var t := Tail(fdtFile);
    if '/' !in fdtFile {
      TailIs(fdtFile, fdtFile);
      assert |ManifestConf(dtb)| == 5 + |t| && t == fdtFile;
    } else if |t| > ROOM {
      assert |FitConfOf(fdtFile)| == 5 + ROOM && |ManifestConf(dtb)| == 5 + |t|;
    }
  }

  /** Different base names within the bound are different configurations; a longer one asks for
      whatever node has its first 26 characters. */
  lemma NamesAreDistinct(f: string, dtb: string)
    requires '/' in f
    ensures FitConfOf(f) == ManifestConf(dtb) <==> Tail(dtb) == Take(Tail(f), ROOM)
  {
    assert FitConfOf(f)[5..] == Take(Tail(f), ROOM);
    assert ManifestConf(dtb)[5..] == Tail(dtb);
  }
}
