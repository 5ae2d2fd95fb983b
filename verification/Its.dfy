/** Writing an image tree source file line by line, with a ghost account of the tree that a
    reader will find in what has been written so far. */
module Its {
  import opened Wrappers
  import opened Text
  import opened Dts

  // ---- What lines do to the lexer ----

  /** The indentation of a line. */
  function Tabs(n: nat): (s: string)
    ensures AllSpaces(s)
  {
    seq(n, _ => '\t')
  }

  lemma FeedEquals(l: Lexer)
    requires l.mode.InWord?
    ensures FeedAll(l, " = ") == Lexer(l.Ended() + [Equals], Idle)
  {
    var a, b := l.Feed(' '), Lexer(l.Ended() + [Equals], Idle);
    assert " = "[1..] == "= " && "= "[1..] == " ";
    FeedOne(b, ' ');
    assert FeedAll(l, " = ") == FeedAll(a, "= ") == FeedAll(b, " ");
  }

  /** The rest of a line after something that is not within quotes. */
  lemma FeedLineEnd(l: Lexer, c: char)
    requires !l.mode.InStr? && IsPunct(c)
    ensures FeedAll(l, [c] + "\n") == Lexer(l.Ended() + [Punct(c)], Idle)
  {
    FeedConcat(l, [c], "\n");
    FeedOne(l, c);
    FeedOne(l.Feed(c), '\n');
  }

  /** indent name = */
  lemma FeedPropStart(l: Lexer, indent: string, name: string)
    requires l.mode == Idle && AllSpaces(indent) && IsName(name)
    ensures FeedAll(l, indent + name + " = ") == Lexer(l.toks + [Word(name), Equals], Idle)
  {
    hide FeedAll;
    FeedSpaces(l, indent);
    FeedConcat(l, indent, name);
    FeedName(l, name);
    FeedConcat(l, indent + name, " = ");
    FeedEquals(Lexer(l.toks, InWord(name)));
  }

  /** A property line, given what its value does to the lexer. */
  lemma FeedPropLine(l: Lexer, indent: string, name: string, text: string, after: Lexer, value: seq<Token>)
    requires l.mode == Idle && AllSpaces(indent) && IsName(name)
    requires FeedAll(Lexer(l.toks + [Word(name), Equals], Idle), text) == after && !after.mode.InStr?
    requires after.Ended() == l.toks + [Word(name), Equals] + value
    ensures FeedAll(l, indent + name + " = " + text + ";\n") == Lexer(l.toks + PropToks(Property(name, value)), Idle)
  {
    hide FeedAll, IsName, AllSpaces;
    var start, end := indent + name + " = ", [';'] + "\n";
    FeedPropStart(l, indent, name);
    FeedConcat(l, start, text);
    FeedConcat(l, start + text, end);
    FeedLineEnd(after, ';');
    LineEnd();
    PropToksJoin(l.toks, name, value);
  }

  lemma LineEnd()
    ensures ";\n" == [';'] + "\n"
  {
  }

  lemma PropToksJoin(ts: seq<Token>, name: string, value: seq<Token>)
    ensures ts + [Word(name), Equals] + value + [Semi] == ts + PropToks(Property(name, value))
  {
  }

  function StringValue(s: string): seq<Token> { [Str(s)] }

  function IncbinValue(path: string): seq<Token> { [Word(INCBIN), Str(path), Word(")")] }

  function WordToks(ws: seq<string>): seq<Token> {
    seq(|ws|, i requires 0 <= i < |ws| => Word(ws[i]))
  }

  /** The words within angle brackets. */
  function CellsValue(cells: string): seq<Token> {
    WordToks(Split("<" + cells + ">"))
  }

  function StringsText(ss: seq<string>): string {
    if ss == [] then "" else if |ss| == 1 then Quoted(ss[0]) else Quoted(ss[0]) + ", " + StringsText(ss[1..])
  }

  function StringsValue(ss: seq<string>): seq<Token> {
    if ss == [] then [] else if |ss| == 1 then [Str(ss[0])] else [Str(ss[0]), Word(",")] + StringsValue(ss[1..])
  }

  const INCBIN := "/incbin/("

  lemma IncbinIsName()
    ensures IsName(INCBIN)
  {
    assert forall i :: 0 <= i < |INCBIN| ==> IsWordChar(INCBIN[i]);
  }

  lemma FeedIncbin(l: Lexer, path: string)
    requires l.mode == Idle && IsQuotable(path)
    ensures var after := FeedAll(l, INCBIN + Quoted(path) + ")");
            !after.mode.InStr? && after.Ended() == l.toks + IncbinValue(path)
  {
    hide FeedAll, IsQuotable, IsName, Quoted;
    var b := INCBIN + Quoted(path);
    IncbinIsName();
    FeedName(l, INCBIN);
    FeedConcat(l, INCBIN, Quoted(path));
    FeedQuoted(Lexer(l.toks, InWord(INCBIN)), path);
    FeedConcat(l, b, [')']);
    FeedOne(Lexer(l.toks + [Word(INCBIN)] + [Str(path)], Idle), ')');
    assert l.toks + [Word(INCBIN)] + [Str(path)] + [Word(")")] == l.toks + IncbinValue(path);
  }

  /** The lexer splits words as Split does. */
  lemma {:induction false} FeedWords(l: Lexer, st: Splitting, s: string)
    requires forall c :: c in s ==> IsWordChar(c) || IsSpace(c)
    requires l.mode == (if st.cur == "" then Idle else InWord(st.cur))
    ensures var m, st' := FeedAll(l, s), SplitFrom(st, s);
            && m.mode == (if st'.cur == "" then Idle else InWord(st'.cur))
            && (forall t :: l.toks == t + WordToks(st.words) ==> m.toks == t + WordToks(st'.words))
    decreases |s|
  {
    if s != "" {
      assert s[0] in s;
      var m, st' := l.Feed(s[0]), st.Add(s[0]);
      forall t | l.toks == t + WordToks(st.words) ensures m.toks == t + WordToks(st'.words) {
        assert WordToks(st.words + [st.cur]) == WordToks(st.words) + [Word(st.cur)];
      }
      FeedWords(m, st', s[1..]);
    }
  }

  /** A string that can stand between angle brackets. */
  predicate IsCells(s: string) {
    forall c :: c in s ==> IsWordChar(c) || IsSpace(c)
  }

  lemma FeedCells(l: Lexer, cells: string)
    requires l.mode == Idle && IsCells(cells)
    ensures var after := FeedAll(l, "<" + cells + ">");
            !after.mode.InStr? && after.Ended() == l.toks + CellsValue(cells)
  {
    var s, start := "<" + cells + ">", Splitting([], "");
    FeedWords(l, start, s);
    var st := SplitFrom(start, s);
    assert l.toks == l.toks + WordToks([]);
    assert WordToks(st.words + [st.cur]) == WordToks(st.words) + [Word(st.cur)];
  }

  lemma FeedComma(l: Lexer)
    requires l.mode == Idle
    ensures FeedAll(l, ", ") == Lexer(l.toks + [Word(",")], Idle)
  {
    FeedOne(l, ',');
    FeedConcat(l, ",", " ");
    FeedOne(Lexer(l.toks, InWord(",")), ' ');
    assert "," + " " == ", ";
  }

  lemma {:induction false} FeedStrings(l: Lexer, ss: seq<string>)
    requires l.mode == Idle && forall s :: s in ss ==> IsQuotable(s)
    ensures FeedAll(l, StringsText(ss)) == Lexer(l.toks + StringsValue(ss), Idle)
    decreases |ss|
  {
    if ss == [] {
      assert l.toks + [] == l.toks;
    } else {
      hide FeedAll, IsQuotable;
      var q := Quoted(ss[0]);
      FeedQuoted(l, ss[0]);
      if |ss| > 1 {
        var l1 := Lexer(l.toks + [Str(ss[0])], Idle);
        var l2 := Lexer(l1.toks + [Word(",")], Idle);
        FeedComma(l1);
        FeedConcat(l, q, ", ");
        FeedConcat(l, q + ", ", StringsText(ss[1..]));
        FeedStrings(l2, ss[1..]);
        assert l2.toks + StringsValue(ss[1..]) == l.toks + StringsValue(ss);
      }
    }
  }

  lemma FeedOpenLine(l: Lexer, indent: string, name: string)
    requires l.mode == Idle && AllSpaces(indent) && IsName(name)
    ensures FeedAll(l, indent + name + " {\n") == Lexer(l.toks + [Word(name), Open], Idle)
  {
    hide FeedAll;
    FeedSpaces(l, indent);
    FeedConcat(l, indent, name);
    FeedName(l, name);
    var w := Lexer(l.toks, InWord(name));
    FeedConcat(l, indent + name, " {\n");
    FeedConcat(w, " ", "{\n");
    assert " " + "{\n" == " {\n" && ['{'] + "\n" == "{\n";
    FeedOne(w, ' ');
    FeedLineEnd(w.Feed(' '), '{');
    assert l.toks + [Word(name)] + [Open] == l.toks + [Word(name), Open];
  }

  lemma FeedCloseLine(l: Lexer, indent: string)
    requires l.mode == Idle && AllSpaces(indent)
    ensures FeedAll(l, indent + "};\n") == Lexer(l.toks + [Close, Semi], Idle)
  {
    hide FeedAll;
    FeedSpaces(l, indent);
    FeedConcat(l, indent, "};\n");
    FeedConcat(l, "}", ";\n");
    assert "}" + ";\n" == "};\n" && [';'] + "\n" == ";\n";
    FeedOne(l, '}');
    FeedLineEnd(l.Feed('}'), ';');
    assert l.toks + [Close] + [Semi] == l.toks + [Close, Semi];
  }

  // ---- Nodes under construction ----

  /** A node that has been opened and not yet closed. */
  datatype Frame = Frame(name: string, props: seq<Property>, kids: seq<Node>)

  function FrameToks(f: Frame): seq<Token> {
    [Word(f.name), Open] + PropsToks(f.props) + KidsToks(f.kids)
  }

  function StackToks(st: seq<Frame>): seq<Token> {
    if st == [] then [] else StackToks(st[..|st| - 1]) + FrameToks(st[|st| - 1])
  }

  /** The tokens written so far, when `top` is open within the frames of `under`. */
  function OpenToks(under: seq<Frame>, top: Frame): seq<Token> {
    PREAMBLE + StackToks(under) + FrameToks(top)
  }

  function Closed(f: Frame): Node {
    Node(f.name, f.props, f.kids)
  }

  function WithProp(f: Frame, p: Property): Frame {
    f.(props := f.props + [p])
  }

  function WithKid(f: Frame, n: Node): Frame {
    f.(kids := f.kids + [n])
  }

  lemma OpenToksProp(under: seq<Frame>, top: Frame, p: Property)
    requires top.kids == []
    ensures OpenToks(under, WithProp(top, p)) == OpenToks(under, top) + PropToks(p)
  {
    PropsToksAppend(top.props, p);
    assert FrameToks(WithProp(top, p)) == FrameToks(top) + PropToks(p);
  }

  lemma OpenToksPush(under: seq<Frame>, top: Frame, name: string)
    ensures OpenToks(under + [top], Frame(name, [], [])) == OpenToks(under, top) + [Word(name), Open]
  {
    assert (under + [top])[..|under|] == under;
    assert FrameToks(Frame(name, [], [])) == [Word(name), Open];
    assert StackToks(under + [top]) == StackToks(under) + FrameToks(top);
  }

  lemma OpenToksPop(under: seq<Frame>, below: Frame, top: Frame)
    ensures OpenToks(under, WithKid(below, Closed(top))) == OpenToks(under + [below], top) + [Close, Semi]
  {
    var n := Closed(top);
    KidsToksAppend(below.kids, n);
    assert (under + [below])[..|under|] == under;
    assert NodeToks(n) == FrameToks(top) + [Close, Semi];
    FrameToksKid(below, n);
    assert StackToks(under + [below]) == StackToks(under) + FrameToks(below);
    AssociateFive(PREAMBLE, StackToks(under), FrameToks(below), FrameToks(top), [Close, Semi]);
  }

  lemma FrameToksKid(f: Frame, n: Node)
    ensures FrameToks(WithKid(f, n)) == FrameToks(f) + NodeToks(n)
  {
    KidsToksAppend(f.kids, n);
  }

  lemma AssociateFive(a: seq<Token>, b: seq<Token>, c: seq<Token>, d: seq<Token>, e: seq<Token>)
    ensures a + b + (c + (d + e)) == a + (b + c) + d + e
  {
  }

  const PREAMBLE := [Word("/dts-v1/"), Semi]

  // ---- What is printable among nodes under construction ----

  ghost predicate IsPrintableFrame(f: Frame) {
    IsName(f.name) && ArePrintableProps(f.props) && ArePrintable(f.kids)
  }

  ghost predicate ArePrintableFrames(fs: seq<Frame>) {
    forall f :: f in fs ==> IsPrintableFrame(f)
  }

  lemma PrintableProp(f: Frame, p: Property)
    ensures IsPrintableFrame(WithProp(f, p)) <==> IsPrintableFrame(f) && IsPrintableProp(p)
  {
    hide IsPrintableProp, IsName;
    var ps := f.props + [p];
    assert p in ps && forall q :: q in f.props ==> q in ps;
  }

  lemma PrintableKid(f: Frame, n: Node)
    ensures IsPrintableFrame(WithKid(f, n)) <==> IsPrintableFrame(f) && IsPrintable(n)
  {
    hide IsPrintable, IsPrintableProp, IsName;
    var ns := f.kids + [n];
    assert n in ns && forall m :: m in f.kids ==> m in ns;
  }

  lemma PrintableClosed(f: Frame)
    ensures IsPrintable(Closed(f)) <==> IsPrintableFrame(f)
  {
  }

  lemma PrintablePush(under: seq<Frame>, top: Frame)
    ensures ArePrintableFrames(under + [top]) <==> ArePrintableFrames(under) && IsPrintableFrame(top)
  {
    hide IsPrintableFrame;
    var fs := under + [top];
    assert top in fs && forall f :: f in under ==> f in fs;
  }

  lemma PrintableNew(name: string)
    ensures IsPrintableFrame(Frame(name, [], [])) <==> IsName(name)
  {
  }

  /** If a value can be printed, so can the text that it is printed from. */
  ghost predicate IsPrintableValue(v: seq<Token>) {
    forall t :: t in v ==> IsPrintableToken(t)
  }

  lemma PrintableString(s: string)
    requires IsPrintableValue(StringValue(s))
    ensures IsQuotable(s)
  {
    assert Str(s) in StringValue(s);
  }

  lemma PrintableIncbin(path: string)
    requires IsPrintableValue(IncbinValue(path))
    ensures IsQuotable(path)
  {
    var v := IncbinValue(path);
    assert v[1] == Str(path) && v[1] in v;
  }

  lemma {:induction false} PrintableStrings(ss: seq<string>)
    requires IsPrintableValue(StringsValue(ss))
    ensures forall s :: s in ss ==> IsQuotable(s)
    decreases |ss|
  {
    hide IsQuotable;
    if ss != [] {
      var v := StringsValue(ss);
      assert v[0] == Str(ss[0]) && v[0] in v;
      if |ss| > 1 {
        assert v == [Str(ss[0]), Word(",")] + StringsValue(ss[1..]);
        assert forall t :: t in StringsValue(ss[1..]) ==> t in v;
        PrintableStrings(ss[1..]);
      }
    }
  }

  lemma PrintableCells(cells: string)
    requires IsPrintableValue(CellsValue(cells))
    ensures IsCells(cells)
  {
    hide IsSpace;
    var s := "<" + cells + ">";
    SplitCovers(s);
    forall c | c in cells ensures IsWordChar(c) || IsSpace(c) {
      assert c in s;
      if !IsSpace(c) {
        var i :| 0 <= i < |Split(s)| && c in Split(s)[i];
        var t := CellsValue(cells)[i];
        assert t == Word(Split(s)[i]) && t in CellsValue(cells);
      }
    }
  }

  /** The manifest file. If all names and values written can be printed, a reader finds in its text
      the nodes that are still open, one within the other: `top` is the innermost. */
  class Fd {
    var text: string
    ghost var under: seq<Frame>
    ghost var top: Frame

    ghost predicate IsClean()
      reads this
    {
      ArePrintableFrames(under) && IsPrintableFrame(top)
    }

    ghost predicate Valid()
      reads this
    {
      IsClean() ==> Lex(text) == Lexer(OpenToks(under, top), Idle)
    }

    /** The version tag and the opened root node. */
    constructor ()
      ensures Valid() && under == [] && top == Frame("/", [], [])
      ensures text == "/dts-v1/;\n\n" + "/ {\n"
    {
      text := "/dts-v1/;\n\n" + "/ {\n";
      under := [];
      top := Frame("/", [], []);
      new;
      LexPreamble();
    }

    method Write(s: string)
      modifies this`text
      ensures text == old(text) + s
    {
      text := text + s;
    }

    method OpenNode(depth: nat, name: string)
      requires Valid()
      modifies this
      ensures Valid() && under == old(under) + [old(top)] && top == Frame(name, [], [])
      ensures text == old(text) + (Tabs(depth) + name + " {\n")
    {
      hide Lex, OpenToks, IsName, ArePrintableFrames, IsPrintableFrame, Tabs;
      ghost var before := text;
      Write(Tabs(depth) + name + " {\n");
      PrintablePush(under, top);
      PrintableNew(name);
      if IsClean() && IsName(name) {
        LexMore(before, Tabs(depth) + name + " {\n");
        FeedOpenLine(Lex(before), Tabs(depth), name);
        OpenToksPush(under, top, name);
      }
      under, top := under + [top], Frame(name, [], []);
    }

    method CloseNode(depth: nat)
      requires Valid() && under != []
      modifies this
      ensures Valid() && under == old(under)[..|old(under)| - 1]
      ensures top == WithKid(old(under)[|old(under)| - 1], Closed(old(top)))
      ensures text == old(text) + (Tabs(depth) + "};\n")
    {
      hide Lex, OpenToks, ArePrintableFrames, IsPrintableFrame, IsPrintable, Tabs;
      ghost var before, rest, below := text, under[..|under| - 1], under[|under| - 1];
      Write(Tabs(depth) + "};\n");
      assert rest + [below] == under;
      PrintablePush(rest, below);
      PrintableClosed(top);
      PrintableKid(below, Closed(top));
      if IsClean() {
        LexMore(before, Tabs(depth) + "};\n");
        FeedCloseLine(Lex(before), Tabs(depth));
        OpenToksPop(rest, below, top);
      }
      under, top := rest, WithKid(below, Closed(top));
    }

    /** Closes the root node, and with it the file: the text reads as the tree if and only if all
        of the tree can be printed. */
    method CloseRoot()
      requires Valid() && under == [] && top.name == "/"
      modifies this`text
      ensures Read(text) == Some(Closed(top)) <==> IsPrintable(Closed(top))
      ensures text == old(text) + "};\n"
    {
      hide Lex, IsPrintableFrame, IsPrintable, Read, NodeToks;
      ghost var before := text;
      Write("};\n");
      PrintableClosed(top);
      if IsPrintable(Closed(top)) {
        LexMore(before, "};\n");
        assert "" + "};\n" == "};\n";
        FeedCloseLine(Lex(before), "");
        RootToks(top);
        ReadInverts(text, Closed(top));
      }
      if Read(text) == Some(Closed(top)) {
        ReadIsPrintable(text);
      }
    }

    /** Writes one property line whose value is given as text and as the tokens it stands for. */
    method WriteProp(depth: nat, name: string, value: string, ghost toks: seq<Token>, ghost after: Lexer)
      requires Valid() && top.kids == []
      requires IsClean() && IsPrintableValue(toks) ==>
                 var l := Lex(text).toks + [Word(name), Equals];
                 FeedAll(Lexer(l, Idle), value) == after && !after.mode.InStr? && after.Ended() == l + toks
      modifies this
      ensures Valid() && under == old(under) && top == WithProp(old(top), Property(name, toks))
      ensures text == old(text) + (Tabs(depth) + name + " = " + value + ";\n")
    {
      ghost var before := text;
      Write(Tabs(depth) + name + " = " + value + ";\n");
      hide Lex, OpenToks, IsName, ArePrintableFrames, IsPrintableFrame, FeedAll, Tabs, IsPrintableToken;
      PrintableProp(top, Property(name, toks));
      if IsClean() && IsPrintableProp(Property(name, toks)) {
        LexMore(before, Tabs(depth) + name + " = " + value + ";\n");
        FeedPropLine(Lex(before), Tabs(depth), name, value, after, toks);
        OpenToksProp(under, top, Property(name, toks));
      }
      top := WithProp(top, Property(name, toks));
    }

    method StringProp(depth: nat, name: string, s: string)
      requires Valid() && top.kids == []
      modifies this
      ensures Valid() && under == old(under) && top == WithProp(old(top), Property(name, StringValue(s)))
      ensures text == old(text) + (Tabs(depth) + name + " = " + ("\"" + s + "\"") + ";\n")
    {
      hide Lex, OpenToks, IsQuotable, FeedAll, ArePrintableFrames, IsPrintableFrame;
      ghost var l := Lexer(Lex(text).toks + [Word(name), Equals], Idle);
      if IsPrintableValue(StringValue(s)) {
        PrintableString(s);
        FeedQuoted(l, s);
      }
      WriteProp(depth, name, Quoted(s), StringValue(s), FeedAll(l, Quoted(s)));
    }

    method IncbinProp(depth: nat, name: string, path: string)
      requires Valid() && top.kids == []
      modifies this
      ensures Valid() && under == old(under) && top == WithProp(old(top), Property(name, IncbinValue(path)))
      ensures text == old(text) + (Tabs(depth) + name + " = " + ("/incbin/(" + ("\"" + path + "\"") + ")") + ";\n")
    {
      hide Lex, OpenToks, IsQuotable, FeedAll, ArePrintableFrames, IsPrintableFrame, IncbinValue;
      ghost var l := Lexer(Lex(text).toks + [Word(name), Equals], Idle);
      if IsPrintableValue(IncbinValue(path)) {
        PrintableIncbin(path);
        FeedIncbin(l, path);
      }
      WriteProp(depth, name, INCBIN + Quoted(path) + ")", IncbinValue(path),
                FeedAll(l, INCBIN + Quoted(path) + ")"));
    }

    method CellsProp(depth: nat, name: string, cells: string)
      requires Valid() && top.kids == []
      modifies this
      ensures Valid() && under == old(under) && top == WithProp(old(top), Property(name, CellsValue(cells)))
      ensures text == old(text) + (Tabs(depth) + name + " = " + ("<" + cells + ">") + ";\n")
    {
      hide Lex, OpenToks, IsCells, FeedAll, ArePrintableFrames, IsPrintableFrame, CellsValue;
      ghost var l := Lexer(Lex(text).toks + [Word(name), Equals], Idle);
      if IsPrintableValue(CellsValue(cells)) {
        PrintableCells(cells);
        FeedCells(l, cells);
      }
      WriteProp(depth, name, "<" + cells + ">", CellsValue(cells), FeedAll(l, "<" + cells + ">"));
    }

    method StringsProp(depth: nat, name: string, ss: seq<string>)
      requires Valid() && top.kids == []
      modifies this
      ensures Valid() && under == old(under) && top == WithProp(old(top), Property(name, StringsValue(ss)))
      ensures text == old(text) + (Tabs(depth) + name + " = " + StringsText(ss) + ";\n")
    {
      hide Lex, OpenToks, IsQuotable, FeedAll, ArePrintableFrames, IsPrintableFrame, StringsValue;
      ghost var l := Lexer(Lex(text).toks + [Word(name), Equals], Idle);
      if IsPrintableValue(StringsValue(ss)) {
        PrintableStrings(ss);
        FeedStrings(l, ss);
      }
      WriteProp(depth, name, StringsText(ss), StringsValue(ss), FeedAll(l, StringsText(ss)));
    }
  }

  lemma LexMore(before: string, line: string)
    ensures Lex(before + line) == FeedAll(Lex(before), line)
  {
    hide FeedAll;
    FeedConcat(Lexer([], Idle), before, line);
  }

  lemma RootToks(top: Frame)
    ensures OpenToks([], top) + [Close, Semi] == PREAMBLE + NodeToks(Closed(top))
  {
    assert StackToks([]) == [];
    assert NodeToks(Closed(top)) == FrameToks(top) + [Close, Semi];
  }

  lemma TagIsName()
    ensures IsName("/dts-v1/")
  {
    var tag := "/dts-v1/";
    assert forall i :: 0 <= i < |tag| ==> IsWordChar(tag[i]);
  }

  lemma TagLine()
    ensures "/dts-v1/;\n\n" == "/dts-v1/" + (";\n" + "\n")
  {
  }

  lemma LexVersionTag()
    ensures Lex("/dts-v1/;\n\n") == Lexer(PREAMBLE, Idle)
  {
    hide FeedAll, IsName;
    var l, tag := Lexer([], Idle), "/dts-v1/";
    var w := Lexer([], InWord(tag));
    TagIsName();
    TagLine();
    LineEnd();
    FeedName(l, tag);
    FeedConcat(l, tag, ";\n" + "\n");
    FeedConcat(w, ";\n", "\n");
    FeedLineEnd(w, ';');
    assert w.Ended() + [Semi] == PREAMBLE;
    FeedSpaces(Lexer(PREAMBLE, Idle), "\n");
  }

  lemma LexPreamble()
    ensures Lex("/dts-v1/;\n\n" + "/ {\n") == Lexer(OpenToks([], Frame("/", [], [])), Idle)
  {
    hide FeedAll;
    LexVersionTag();
    FeedConcat(Lexer([], Idle), "/dts-v1/;\n\n", "/ {\n");
    FeedOpenLine(Lexer(PREAMBLE, Idle), "", "/");
    assert "" + "/" + " {\n" == "/ {\n";
    assert OpenToks([], Frame("/", [], [])) == PREAMBLE + [Word("/"), Open];
  }
}
