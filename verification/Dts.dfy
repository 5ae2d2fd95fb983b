/** Reading device tree source, as far as node syntax goes (section 6.3 of the Devicetree
    Specification v0.4): a lexer that looks at one character at a time, and a parser. Strings are
    kept as they are spelled between the quotes. */
module Dts {
  import opened Wrappers
  import opened Text

  // ---- Tokens ----

  datatype Token = Open | Close | Semi | Equals | Word(w: string) | Str(s: string)

  datatype Mode = Idle | InWord(w: string) | InStr(s: string)

  predicate IsPunct(c: char) {
    c == '{' || c == '}' || c == ';' || c == '='
  }

  function Punct(c: char): Token {
    if c == '{' then Open else if c == '}' then Close else if c == ';' then Semi else Equals
  }

  /** How far a string has been spelled: whether a backslash is waiting for the character that it
      escapes, or a quote has ended the string. */
  datatype Spelling = Plain | Escape | Quote {
    function Next(c: char): Spelling {
      match this
      case Plain => if c == '\\' then Escape else if c == '"' then Quote else Plain
      case Escape => Plain
      case Quote => Quote
    }
  }

  function Spelled(s: string): Spelling {
    if s == "" then Plain else Spelled(s[..|s| - 1]).Next(s[|s| - 1])
  }

  datatype Lexer = Lexer(toks: seq<Token>, mode: Mode) {

    /** The tokens read so far, with a word that ends here. */
    function Ended(): seq<Token> {
      if mode.InWord? then toks + [Word(mode.w)] else toks
    }

    function Feed(c: char): Lexer {
      match mode
      case InStr(s) =>
        if Spelled(s).Next(c) == Quote then Lexer(toks + [Str(s)], Idle) else Lexer(toks, InStr(s + [c]))
      case _ =>
        if IsSpace(c) then Lexer(Ended(), Idle)
        else if IsPunct(c) then Lexer(Ended() + [Punct(c)], Idle)
        else if c == '"' then Lexer(Ended(), InStr(""))
        else Lexer(toks, InWord(if mode.InWord? then mode.w + [c] else [c]))
    }
  }

  function FeedAll(l: Lexer, s: string): Lexer
    decreases |s|
  {
    if s == "" then l else FeedAll(l.Feed(s[0]), s[1..])
  }

  function Lex(s: string): Lexer {
    FeedAll(Lexer([], Idle), s)
  }

  lemma {:induction false} FeedConcat(l: Lexer, a: string, b: string)
    ensures FeedAll(l, a + b) == FeedAll(FeedAll(l, a), b)
    decreases |a|
  {
    if a == "" {
      assert a + b == b;
    } else {
      assert (a + b)[1..] == a[1..] + b;
      FeedConcat(l.Feed(a[0]), a[1..], b);
    }
  }

  predicate IsWordChar(c: char) {
    !IsSpace(c) && !IsPunct(c) && c != '"'
  }

  /** A string that can stand as a name. */
  predicate IsName(s: string) {
    s != "" && forall c :: c in s ==> IsWordChar(c)
  }

  /** A string that can stand between quotes: every quote and backslash in it is escaped. */
  predicate IsQuotable(s: string) {
    Spelled(s) == Plain
  }

  predicate AllSpaces(s: string) {
    forall c :: c in s ==> IsSpace(c)
  }

  lemma {:induction false} FeedSpaces(l: Lexer, s: string)
    requires AllSpaces(s) && l.mode == Idle
    ensures FeedAll(l, s) == l
    decreases |s|
  {
    if s != "" {
      assert s[0] in s;
      FeedSpaces(l.Feed(s[0]), s[1..]);
    }
  }

  lemma {:induction false} FeedWordChars(l: Lexer, w: string, s: string)
    requires l.mode == InWord(w) && forall c :: c in s ==> IsWordChar(c)
    ensures FeedAll(l, s) == Lexer(l.toks, InWord(w + s))
    decreases |s|
  {
    if s == "" {
      assert w + s == w;
    } else {
      assert s[0] in s;
      FeedWordChars(l.Feed(s[0]), w + [s[0]], s[1..]);
      assert w + [s[0]] + s[1..] == w + s;
    }
  }

  lemma FeedName(l: Lexer, s: string)
    requires IsName(s) && l.mode == Idle
    ensures FeedAll(l, s) == Lexer(l.toks, InWord(s))
  {
    assert s[0] in s;
    FeedWordChars(l.Feed(s[0]), [s[0]], s[1..]);
    assert [s[0]] + s[1..] == s;
  }

  lemma SpelledNothing()
    ensures Spelled("") == Plain
  {
  }

  lemma SpelledStep(s: string, c: char)
    ensures Spelled(s + [c]) == Spelled(s).Next(c)
  {
    assert (s + [c])[..|s|] == s;
  }

  /** Once ended, always ended. */
  lemma {:induction false} SpelledPrefix(a: string, b: string)
    requires Spelled(a) == Quote
    ensures Spelled(a + b) == Quote
    decreases |b|
  {
    if b == "" {
      assert a + b == a;
    } else {
      var n := |b| - 1;
      SpelledPrefix(a, b[..n]);
      SpelledStep(a + b[..n], b[n]);
      assert a + b[..n] + [b[n]] == a + b;
    }
  }

  lemma {:induction false} FeedStrChars(l: Lexer, t: string, s: string)
    requires l.mode == InStr(t) && Spelled(t + s) != Quote
    ensures FeedAll(l, s) == Lexer(l.toks, InStr(t + s))
    decreases |s|
  {
    if s == "" {
      assert t + s == t;
    } else {
      hide Spelled;
      assert t + [s[0]] + s[1..] == t + s;
      SpelledStep(t, s[0]);
      if Spelled(t + [s[0]]) == Quote {
        SpelledPrefix(t + [s[0]], s[1..]);
      }
      FeedStrChars(l.Feed(s[0]), t + [s[0]], s[1..]);
    }
  }

  lemma FeedOne(l: Lexer, c: char)
    ensures FeedAll(l, [c]) == l.Feed(c)
  {
    assert [c][1..] == "";
    assert FeedAll(l.Feed(c), "") == l.Feed(c);
  }

  function Quoted(s: string): string { "\"" + s + "\"" }

  /** A quoted string is one token, whether or not a word comes right before it. */
  lemma FeedQuoted(l: Lexer, s: string)
    requires IsQuotable(s) && !l.mode.InStr?
    ensures FeedAll(l, Quoted(s)) == Lexer(l.Ended() + [Str(s)], Idle)
  {
    hide FeedAll, Spelled;
    var q, end := l.Feed('"'), s + "\"";
    FeedOne(l, '"');
    assert "\"" + s + "\"" == ['"'] + end && "" + s == s;
    FeedConcat(l, ['"'], end);
    FeedConcat(q, s, ['"']);
    SpelledNothing();
    FeedStrChars(q, "", s);
    FeedOne(Lexer(q.toks, InStr(s)), '"');
  }

  // ---- What a lexer can yield ----

  predicate CanBeRead(t: Token) {
    match t
    case Word(w) => IsName(w)
    case Str(s) => IsQuotable(s)
    case _ => true
  }

  ghost predicate AllRead(ts: seq<Token>) {
    forall t :: t in ts ==> CanBeRead(t)
  }

  predicate ModeOk(m: Mode) {
    match m
    case Idle => true
    case InWord(w) => IsName(w)
    case InStr(s) => Spelled(s) != Quote
  }

  lemma FeedReads(l: Lexer, c: char)
    requires AllRead(l.toks) && ModeOk(l.mode)
    ensures AllRead(l.Feed(c).toks) && ModeOk(l.Feed(c).mode)
  {
    hide Spelled;
    SpelledNothing();
    if l.mode.InStr? {
      SpelledStep(l.mode.s, c);
    }
  }

  lemma {:induction false} FeedAllReads(l: Lexer, s: string)
    requires AllRead(l.toks) && ModeOk(l.mode)
    ensures AllRead(FeedAll(l, s).toks)
    decreases |s|
  {
    if s != "" {
      hide AllRead, ModeOk;
      FeedReads(l, s[0]);
      FeedAllReads(l.Feed(s[0]), s[1..]);
    }
  }

  /** The printer writes texts between quotes as they are. They are read back if and only if every quote
      and backslash in them is escaped. */
  lemma QuotedReadsBack(l: Lexer, s: string)
    requires l.mode == Idle && AllRead(l.toks)
    ensures FeedAll(l, Quoted(s)) == Lexer(l.toks + [Str(s)], Idle) <==> IsQuotable(s)
  {
    hide IsQuotable, FeedAll;
    FeedAllReads(l, Quoted(s));
    if IsQuotable(s) {
      FeedQuoted(l, s);
    } else {
      assert Str(s) in l.toks + [Str(s)] && !CanBeRead(Str(s));
    }
  }

  // ---- Trees ----

  datatype Property = Property(name: string, value: seq<Token>)

  /** A node: its properties come before its children. */
  datatype Node = Node(name: string, props: seq<Property>, kids: seq<Node>)

  predicate IsValue(v: seq<Token>) {
    forall t :: t in v ==> t.Word? || t.Str?
  }

  predicate IsPrintableToken(t: Token) {
    (t.Word? || t.Str?) && CanBeRead(t)
  }

  predicate IsPrintableProp(p: Property) {
    IsName(p.name) && forall t :: t in p.value ==> IsPrintableToken(t)
  }

  ghost predicate ArePrintableProps(ps: seq<Property>) {
    forall p :: p in ps ==> IsPrintableProp(p)
  }

  /** Every name in the tree can stand as a name, every string between quotes, and every other word
      of a value as a word. */
  ghost predicate IsPrintable(n: Node) {
    IsName(n.name) && ArePrintableProps(n.props) && forall k :: k in n.kids ==> IsPrintable(k)
  }

  ghost predicate ArePrintable(ns: seq<Node>) {
    forall n :: n in ns ==> IsPrintable(n)
  }

  function PropToks(p: Property): seq<Token> {
    [Word(p.name), Equals] + p.value + [Semi]
  }

  function PropsToks(ps: seq<Property>): seq<Token> {
    if ps == [] then [] else PropToks(ps[0]) + PropsToks(ps[1..])
  }

  function NodeToks(n: Node): (t: seq<Token>)
    decreases n, 1
  {
    [Word(n.name), Open] + PropsToks(n.props) + KidsToks(n.kids) + [Close, Semi]
  }

  function KidsToks(ns: seq<Node>): seq<Token>
    decreases ns, 0
  {
    if ns == [] then [] else NodeToks(ns[0]) + KidsToks(ns[1..])
  }

  lemma {:induction false} PropsToksAppend(ps: seq<Property>, p: Property)
    ensures PropsToks(ps + [p]) == PropsToks(ps) + PropToks(p)
    decreases |ps|
  {
    if ps == [] {
      assert PropsToks([p]) == PropToks(p) + PropsToks([]);
    } else {
      assert (ps + [p])[1..] == ps[1..] + [p];
      PropsToksAppend(ps[1..], p);
    }
  }

  lemma {:induction false} KidsToksAppend(ns: seq<Node>, n: Node)
    ensures KidsToks(ns + [n]) == KidsToks(ns) + NodeToks(n)
    decreases |ns|
  {
    if ns == [] {
      assert KidsToks([n]) == NodeToks(n) + KidsToks([]);
    } else {
      assert (ns + [n])[1..] == ns[1..] + [n];
      KidsToksAppend(ns[1..], n);
    }
  }

  // ---- The parser ----

  /** What was parsed, and the tokens that follow it. */
  datatype Parsed<T> = Parsed(value: T, rest: seq<Token>)

  /** The tokens up to the next semicolon, which must all belong to a value. */
  function ParseValue(t: seq<Token>): (r: Option<Parsed<seq<Token>>>)
    ensures r.Some? ==> |r.value.rest| < |t|
  {
    if t == [] then None
    else if t[0] == Semi then Some(Parsed([], t[1..]))
    else if t[0].Word? || t[0].Str? then
      var r := ParseValue(t[1..]);
      if r.Some? then Some(Parsed([t[0]] + r.value.value, r.value.rest)) else None
    else None
  }

  function ParseProps(t: seq<Token>): (r: Option<Parsed<seq<Property>>>)
    ensures r.Some? ==> |r.value.rest| <= |t|
    decreases |t|
  {
    if |t| >= 2 && t[0].Word? && t[1] == Equals then
      var v := ParseValue(t[2..]);
      if v.None? then None
      else
        var r := ParseProps(v.value.rest);
        if r.None? then None
        else Some(Parsed([Property(t[0].w, v.value.value)] + r.value.value, r.value.rest))
    else Some(Parsed([], t))
  }

  function ParseNode(t: seq<Token>): (r: Option<Parsed<Node>>)
    ensures r.Some? ==> |r.value.rest| < |t|
    decreases |t|, 0
  {
    if |t| >= 2 && t[0].Word? && t[1] == Open then
      var ps := ParseProps(t[2..]);
      if ps.None? then None
      else
        var ks := ParseKids(ps.value.rest);
        if ks.None? then None
        else
          var rest := ks.value.rest;
          if |rest| >= 2 && rest[0] == Close && rest[1] == Semi
          then Some(Parsed(Node(t[0].w, ps.value.value, ks.value.value), rest[2..]))
          else None
    else None
  }

  function ParseKids(t: seq<Token>): (r: Option<Parsed<seq<Node>>>)
    ensures r.Some? ==> |r.value.rest| <= |t|
    decreases |t|, 1
  {
    if |t| >= 2 && t[0].Word? && t[1] == Open then
      var n := ParseNode(t);
      if n.None? then None
      else
        var r := ParseKids(n.value.rest);
        if r.None? then None else Some(Parsed([n.value.value] + r.value.value, r.value.rest))
    else Some(Parsed([], t))
  }

  /** A device tree source file: the version tag, then the root node and nothing else. */
  function Read(text: string): Option<Node> {
    var l := Lex(text);
    if l.mode != Idle || |l.toks| < 2 || l.toks[..2] != [Word("/dts-v1/"), Semi] then None
    else
      var r := ParseNode(l.toks[2..]);
      if r.Some? && r.value.rest == [] && r.value.value.name == "/" then Some(r.value.value) else None
  }

  lemma {:induction false} ParseValueInverts(v: seq<Token>, rest: seq<Token>)
    requires IsValue(v)
    ensures ParseValue(v + [Semi] + rest) == Some(Parsed(v, rest))
    decreases |v|
  {
    var t := v + [Semi] + rest;
    if v == [] {
      assert t[1..] == rest;
    } else {
      assert v[0] in v;
      assert t[1..] == v[1..] + [Semi] + rest;
      ParseValueInverts(v[1..], rest);
      assert [v[0]] + v[1..] == v;
    }
  }

  /** What can follow the properties of a node. */
  predicate EndsProps(t: seq<Token>) {
    |t| >= 2 ==> !t[0].Word? || t[1] != Equals
  }

  lemma ParsePropInverts(p: Property, more: seq<Token>, ps: seq<Property>, rest: seq<Token>)
    requires IsValue(p.value) && ParseProps(more) == Some(Parsed(ps, rest))
    ensures ParseProps(PropToks(p) + more) == Some(Parsed([p] + ps, rest))
  {
    var t := PropToks(p) + more;
    assert t[0] == Word(p.name) && t[1] == Equals;
    assert t[2..] == p.value + [Semi] + more;
    ParseValueInverts(p.value, more);
  }

  lemma {:induction false} ParsePropsInverts(ps: seq<Property>, rest: seq<Token>)
    requires ArePrintableProps(ps) && EndsProps(rest)
    ensures ParseProps(PropsToks(ps) + rest) == Some(Parsed(ps, rest))
    decreases |ps|
  {
    if ps == [] {
      assert PropsToks(ps) + rest == rest;
    } else {
      hide ParseProps, PropToks, IsName, IsQuotable;
      var more := PropsToks(ps[1..]) + rest;
      assert ps[0] in ps;
      assert PropsToks(ps) + rest == PropToks(ps[0]) + more;
      ParsePropsInverts(ps[1..], rest);
      ParsePropInverts(ps[0], more, ps[1..], rest);
      assert [ps[0]] + ps[1..] == ps;
    }
  }

  /** What can follow the children of a node. */
  predicate EndsKids(t: seq<Token>) {
    |t| >= 1 && t[0] == Close
  }

  lemma {:induction false} ParseNodeInverts(n: Node, rest: seq<Token>)
    requires IsPrintable(n)
    ensures ParseNode(NodeToks(n) + rest) == Some(Parsed(n, rest))
    decreases n, 1
  {
    hide ParseProps, PropsToks, ParseValue;
    var t := NodeToks(n) + rest;
    var tail := [Close, Semi] + rest;
    var kids := KidsToks(n.kids) + tail;
    assert t[2..] == PropsToks(n.props) + kids;
    KidsEndProps(n.kids, tail);
    ParsePropsInverts(n.props, kids);
    ParseKidsInverts(n.kids, tail);
    assert tail[2..] == rest;
  }

  lemma KidsEndProps(ns: seq<Node>, tail: seq<Token>)
    requires EndsKids(tail)
    ensures EndsProps(KidsToks(ns) + tail)
  {
    if ns != [] {
      var t := KidsToks(ns) + tail;
      assert t[1] == NodeToks(ns[0])[1] == Open;
    }
  }

  lemma {:induction false} ParseKidsInverts(ns: seq<Node>, tail: seq<Token>)
    requires ArePrintable(ns) && EndsKids(tail)
    ensures ParseKids(KidsToks(ns) + tail) == Some(Parsed(ns, tail))
    decreases ns, 0
  {
    var t := KidsToks(ns) + tail;
    if ns == [] {
      assert t == tail;
    } else {
      var more := KidsToks(ns[1..]) + tail;
      assert ns[0] in ns;
      assert t == NodeToks(ns[0]) + more;
      ParseNodeInverts(ns[0], more);
      ParseKidsInverts(ns[1..], tail);
      assert t[0] == Word(ns[0].name) && t[1] == Open;
      assert [ns[0]] + ns[1..] == ns;
    }
  }

  /** A text whose tokens are those of a tree reads as that tree. */
  lemma {:induction false} ReadInverts(text: string, root: Node)
    requires IsPrintable(root) && root.name == "/"
    requires Lex(text) == Lexer([Word("/dts-v1/"), Semi] + NodeToks(root), Idle)
    ensures Read(text) == Some(root)
  {
    var toks := Lex(text).toks;
    assert toks[2..] == NodeToks(root) + [];
    ParseNodeInverts(root, []);
  }

  // ---- Whatever is read is printable ----

  lemma {:induction false} ParsedValue(t: seq<Token>)
    requires AllRead(t) && ParseValue(t).Some?
    ensures AllRead(ParseValue(t).value.rest)
    ensures forall v :: v in ParseValue(t).value.value ==> IsPrintableToken(v)
    decreases |t|
  {
    hide CanBeRead;
    if t[0] != Semi {
      assert t[0] in t && AllRead(t[1..]);
      ParsedValue(t[1..]);
    }
  }

  lemma {:induction false} ParsedProps(t: seq<Token>)
    requires AllRead(t) && ParseProps(t).Some?
    ensures AllRead(ParseProps(t).value.rest) && ArePrintableProps(ParseProps(t).value.value)
    decreases |t|
  {
    hide ParseValue, IsName, IsQuotable;
    if |t| >= 2 && t[0].Word? && t[1] == Equals {
      assert t[0] in t && AllRead(t[2..]);
      ParsedValue(t[2..]);
      ParsedProps(ParseValue(t[2..]).value.rest);
    }
  }

  lemma {:induction false} ParsedNode(t: seq<Token>)
    requires AllRead(t) && ParseNode(t).Some?
    ensures AllRead(ParseNode(t).value.rest) && IsPrintable(ParseNode(t).value.value)
    decreases |t|, 0
  {
    hide ParseProps, IsName, IsQuotable;
    assert t[0] in t && AllRead(t[2..]);
    ParsedProps(t[2..]);
    ParsedKids(ParseProps(t[2..]).value.rest);
  }

  lemma {:induction false} ParsedKids(t: seq<Token>)
    requires AllRead(t) && ParseKids(t).Some?
    ensures AllRead(ParseKids(t).value.rest) && ArePrintable(ParseKids(t).value.value)
    decreases |t|, 1
  {
    hide IsPrintable;
    if |t| >= 2 && t[0].Word? && t[1] == Open {
      ParsedNode(t);
      ParsedKids(ParseNode(t).value.rest);
    }
  }

  /** Whatever text is read as a tree, the tree is printable. */
  lemma ReadIsPrintable(text: string)
    requires Read(text).Some?
    ensures IsPrintable(Read(text).value)
  {
    hide ParseNode, IsPrintable, CanBeRead;
    var l := Lex(text);
    FeedAllReads(Lexer([], Idle), text);
    assert AllRead(l.toks[2..]);
    ParsedNode(l.toks[2..]);
  }
}
