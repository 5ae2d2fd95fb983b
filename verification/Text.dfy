/** Splitting strings into words and paths into head and tail. */
module Text {

  predicate IsSpace(c: char) {
    c == ' ' || '\t' <= c <= '\r' || '\U{1c}' <= c <= '\U{1f}'
  }

  predicate SpaceFree(s: string) {
    forall c :: c in s ==> !IsSpace(c)
  }

  predicate IsWord(s: string) {
    s != "" && SpaceFree(s)
  }

  // ---- str.split() ----

  datatype Splitting = Splitting(words: seq<string>, cur: string) {
    function Add(c: char): Splitting {
      if !IsSpace(c) then Splitting(words, cur + [c]) else Splitting(Words(), "")
    }

    function Words(): seq<string> {
      if cur == "" then words else words + [cur]
    }
  }

  function SplitFrom(st: Splitting, s: string): Splitting
    decreases |s|
  {
    if s == "" then st else SplitFrom(st.Add(s[0]), s[1..])
  }

  /** Python's s.split(). */
  function Split(s: string): seq<string> {
    SplitFrom(Splitting([], ""), s).Words()
  }

  lemma {:induction false} SplitFromConcat(st: Splitting, a: string, b: string)
    ensures SplitFrom(st, a + b) == SplitFrom(SplitFrom(st, a), b)
    decreases |a|
  {
    if a == "" {
      assert a + b == b;
    } else {
      assert (a + b)[1..] == a[1..] + b;
      SplitFromConcat(st.Add(a[0]), a[1..], b);
    }
  }

  lemma {:induction false} SplitFromWord(st: Splitting, w: string)
    requires SpaceFree(w)
    ensures SplitFrom(st, w) == Splitting(st.words, st.cur + w)
    decreases |w|
  {
    if w == "" {
      assert st.cur + w == st.cur;
    } else {
      assert w[0] in w && SpaceFree(w[1..]);
      SplitFromWord(st.Add(w[0]), w[1..]);
      assert st.cur + [w[0]] + w[1..] == st.cur + w;
    }
  }

  /** A list kept as a string, each word put after a space, splits into the same list: nothing
      is lost, doubled or reordered. */
  lemma SplitAppend(list: string, w: string)
    requires IsWord(w)
    ensures Split(list + " " + w) == Split(list) + [w]
  {
    var start := Splitting([], "");
    var st := SplitFrom(start, list);
    SplitFromConcat(start, list, " " + w);
    SplitFromConcat(st, " ", w);
    assert " "[1..] == "";
    assert SplitFrom(st, " ") == Splitting(st.Words(), "");
    SplitFromWord(Splitting(st.Words(), ""), w);
    assert list + " " + w == list + (" " + w);
    assert "" + w == w;
  }

  lemma {:induction false} SplitFromWords(st: Splitting, s: string)
    requires SpaceFree(st.cur) && forall w :: w in st.words ==> IsWord(w)
    ensures SpaceFree(SplitFrom(st, s).cur) && forall w :: w in SplitFrom(st, s).words ==> IsWord(w)
    decreases |s|
  {
    if s != "" {
      SplitFromWords(st.Add(s[0]), s[1..]);
    }
  }

  /** Splitting yields words. */
  lemma SplitWords(s: string)
    ensures forall w :: w in Split(s) ==> IsWord(w)
  {
    SplitFromWords(Splitting([], ""), s);
  }

  /** White space is tab to carriage return, the four separators of files to units, and the blank. */
  lemma SpacesAre(c: char)
    ensures IsSpace(c) <==> c as int in {9, 10, 11, 12, 13, 28, 29, 30, 31, 32}
  {
  }

  predicate IsGap(s: string) {
    forall c :: c in s ==> IsSpace(c)
  }

  /** A text of words with white space before, between and after them. */
  function Laid(gaps: seq<string>, ws: seq<string>): string
    requires |gaps| == |ws| + 1
    decreases |ws|
  {
    if ws == [] then gaps[0] else Laid(gaps[..|ws|], ws[..|ws| - 1]) + ws[|ws| - 1] + gaps[|ws|]
  }

  predicate AreGaps(gaps: seq<string>, ws: seq<string>) {
    && |gaps| == |ws| + 1 && (forall g :: g in gaps ==> IsGap(g))
    && (forall i :: 0 < i < |ws| ==> gaps[i] != "")
  }

  /** Splitting finds exactly the words, however they are laid out. */
  lemma SplitLaid(gaps: seq<string>, ws: seq<string>)
    requires AreGaps(gaps, ws) && forall w :: w in ws ==> IsWord(w)
    ensures Split(Laid(gaps, ws)) == ws
  {
    SplitFromLaid(gaps, ws);
  }

  lemma {:induction false} SplitFromLaid(gaps: seq<string>, ws: seq<string>)
    requires AreGaps(gaps, ws) && forall w :: w in ws ==> IsWord(w)
    ensures var st := SplitFrom(Splitting([], ""), Laid(gaps, ws));
            st.Words() == ws && (ws == [] || gaps[|ws|] != "" ==> st.cur == "")
    decreases |ws|
  {
    hide IsGap, IsWord, IsSpace, SplitFrom;
    var start, n := Splitting([], ""), |ws|;
    if ws == [] {
      SplitFromGap(start, gaps[0]);
    } else {
      var before, w, text := ws[..n - 1], ws[n - 1], Laid(gaps[..n], ws[..n - 1]);
      SplitFromLaid(gaps[..n], before);
      assert w in ws && gaps[n] in gaps;
      var st := SplitFrom(start, text);
      SplitFromConcat(start, text, w);
      SplitFromConcat(start, text + w, gaps[n]);
      OneWord(st, w);
      SplitFromGap(SplitFrom(st, w), gaps[n]);
      assert before + [w] == ws;
    }
  }

  lemma OneWord(st: Splitting, w: string)
    requires st.cur == "" && IsWord(w)
    ensures SplitFrom(st, w) == Splitting(st.words, w) && w != ""
  {
    SplitFromWord(st, w);
    assert "" + w == w;
  }

  lemma {:induction false} SplitFromGap(st: Splitting, g: string)
    requires IsGap(g)
    ensures SplitFrom(st, g).Words() == st.Words() && (g != "" ==> SplitFrom(st, g).cur == "")
    ensures g == "" ==> SplitFrom(st, g) == st
    decreases |g|
  {
    if g != "" {
      assert g[0] in g;
      SplitFromGap(st.Add(g[0]), g[1..]);
    }
  }

  /** What is split off so far, as one string. */
  predicate Has(st: Splitting, c: char) {
    c in st.cur || exists i :: 0 <= i < |st.words| && c in st.words[i]
  }

  lemma AddHas(st: Splitting, c: char, x: char)
    ensures Has(st.Add(c), x) <==> Has(st, x) || (x == c && !IsSpace(c))
  {
    var t := st.Add(c);
    if IsSpace(c) && st.cur != "" {
      assert t.words == st.words + [st.cur];
      assert forall i :: 0 <= i < |st.words| ==> t.words[i] == st.words[i];
      assert t.words[|st.words|] == st.cur;
    }
  }

  lemma {:induction false} SplitFromHas(st: Splitting, s: string, x: char)
    ensures Has(SplitFrom(st, s), x) <==> Has(st, x) || (x in s && !IsSpace(x))
    decreases |s|
  {
    if s != "" {
      hide Has;
      AddHas(st, s[0], x);
      SplitFromHas(st.Add(s[0]), s[1..], x);
      assert x in s <==> x == s[0] || x in s[1..];
    }
  }

  /** Every character but white space is in some word. */
  lemma SplitCovers(s: string)
    ensures forall c :: c in s && !IsSpace(c) ==> exists i :: 0 <= i < |Split(s)| && c in Split(s)[i]
  {
    var start := Splitting([], "");
    var st := SplitFrom(start, s);
    forall c | c in s && !IsSpace(c) ensures exists i :: 0 <= i < |Split(s)| && c in Split(s)[i] {
      SplitFromHas(start, s, c);
      if c in st.cur {
        assert Split(s)[|st.words|] == st.cur;
      } else {
        var i :| 0 <= i < |st.words| && c in st.words[i];
        assert Split(s)[i] == st.words[i];
      }
    }
  }

  // ---- os.path.split() ----

  /** What follows the last slash. */
  function Tail(p: string): (t: string)
    ensures |t| <= |p| && p[|p| - |t|..] == t && '/' !in t
    ensures |t| < |p| ==> p[|p| - |t| - 1] == '/'
  {
    if p == "" || p[|p| - 1] == '/' then "" else Tail(p[..|p| - 1]) + [p[|p| - 1]]
  }

  /** The tail is determined by where the last slash is. */
  lemma TailIs(p: string, t: string)
    requires |t| <= |p| && p[|p| - |t|..] == t && '/' !in t
    requires |t| < |p| ==> p[|p| - |t| - 1] == '/'
    ensures Tail(p) == t
  {
    var u := Tail(p);
    assert forall i :: |p| - |t| <= i < |p| ==> p[i] in p[|p| - |t|..];
    assert forall i :: |p| - |u| <= i < |p| ==> p[i] in p[|p| - |u|..];
  }

  function StripSlashes(p: string): string {
    if p != "" && p[|p| - 1] == '/' then StripSlashes(p[..|p| - 1]) else p
  }

  /** What comes before the tail, without trailing slashes unless it is all slashes. */
  function Head(p: string): string {
    var h := p[..|p| - |Tail(p)|];
    if StripSlashes(h) == "" then h else StripSlashes(h)
  }

  predicate AllSlashes(s: string) {
    forall c :: c in s ==> c == '/'
  }

  /** A path is a directory, slashes and a base name, where the slashes are only missing with the directory.
      The base name is the tail, and the directory is the head; without one, the slashes are. */
  lemma PathSplits(dir: string, slashes: string, base: string)
    requires '/' !in base && AllSlashes(slashes)
    requires dir == "" || (dir[|dir| - 1] != '/' && slashes != "")
    ensures Tail(dir + slashes + base) == base
    ensures Head(dir + slashes + base) == if dir == "" then slashes else dir
  {
    hide Tail, StripSlashes, AllSlashes;
    var h := dir + slashes;
    SlashEnds(dir, slashes);
    BaseIsTail(h, base);
    Strips(dir, slashes);
    assert dir == "" ==> h == slashes;
  }

  lemma BaseIsTail(h: string, base: string)
    requires '/' !in base && (h == "" || h[|h| - 1] == '/')
    ensures Tail(h + base) == base && (h + base)[..|h + base| - |base|] == h
  {
    hide Tail;
    TailIs(h + base, base);
  }

  lemma SlashEnds(dir: string, slashes: string)
    requires AllSlashes(slashes) && (dir == "" || slashes != "")
    ensures var h := dir + slashes; h == "" || h[|h| - 1] == '/'
  {
    if slashes != "" {
      assert slashes[|slashes| - 1] in slashes;
    }
  }

  lemma {:induction false} Strips(dir: string, slashes: string)
    requires AllSlashes(slashes) && (dir == "" || dir[|dir| - 1] != '/')
    ensures StripSlashes(dir + slashes) == dir
    decreases |slashes|
  {
    if slashes == "" {
      assert dir + slashes == dir;
    } else {
      var less, n := slashes[..|slashes| - 1], |slashes| - 1;
      assert slashes[n] in slashes && forall c :: c in less ==> c in slashes;
      assert (dir + slashes)[..|dir + slashes| - 1] == dir + less;
      Strips(dir, less);
    }
  }

  /** Every path is of that form. */
  lemma PathParts(p: string) returns (dir: string, slashes: string, base: string)
    ensures p == dir + slashes + base && '/' !in base && AllSlashes(slashes)
    ensures dir == "" || (dir[|dir| - 1] != '/' && slashes != "")
  {
    base := Tail(p);
    var h := p[..|p| - |base|];
    dir, slashes := SlashesOff(h);
    assert p == h + base;
  }

  lemma {:induction false} SlashesOff(h: string) returns (dir: string, slashes: string)
    ensures h == dir + slashes && AllSlashes(slashes) && (dir == "" || dir[|dir| - 1] != '/')
    decreases |h|
  {
    if h != "" && h[|h| - 1] == '/' {
      dir, slashes := SlashesOff(h[..|h| - 1]);
      slashes := slashes + "/";
      assert h == h[..|h| - 1] + "/";
    } else {
      dir, slashes := h, "";
    }
  }
}
