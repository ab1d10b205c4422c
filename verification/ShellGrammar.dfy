/** The language of the shell (the usage of HW3/sh.c): lines as users write them, with any white space,
    redirections anywhere among the arguments, and no parentheses but their own; and what each line
    means. The parser accepts every such line and gives it that meaning. */
module ShellGrammar {
  import opened ShellParser

  // Lines.

  datatype Direction = Input | Output | Append

  /** A word, or a redirection, in the order of the text. */
  datatype Item = Arg(w: string) | To(d: Direction, file: string)

  datatype Simple = Plain(items: seq<Item>) | Group(line: Line, after: seq<Item>)

  datatype Pipeline = One(s: Simple) | Piped(s: Simple, rest: Pipeline)

  /** A pipeline followed by any number of &, and possibly ; and another line. */
  datatype Line = Last(p: Pipeline, amps: nat) | Then(p: Pipeline, amps: nat, rest: Line)

  function Words(items: seq<Item>): seq<string> {
    if items == [] then [] else (if items[0].Arg? then [items[0].w] else []) + Words(items[1..])
  }

  function Tos(items: seq<Item>): seq<Item> {
    if items == [] then [] else (if items[0].To? then [items[0]] else []) + Tos(items[1..])
  }

  predicate ItemOk(it: Item) {
    IsToken(if it.Arg? then it.w else it.file)
  }

  /** Proper words, at most nine arguments to a command, nothing but redirections after a group. */
  predicate SimpleOk(s: Simple) {
    match s
    case Plain(items) => |Words(items)| < MAXARGS && forall i :: 0 <= i < |items| ==> ItemOk(items[i])
    case Group(line, after) => LineOk(line) && forall i :: 0 <= i < |after| ==> after[i].To? && ItemOk(after[i])
  }

  predicate PipelineOk(p: Pipeline) {
    SimpleOk(p.s) && (p.Piped? ==> PipelineOk(p.rest))
  }

  predicate LineOk(l: Line) {
    PipelineOk(l.p) && (l.Then? ==> LineOk(l.rest))
  }

  // What a line means.

  /** The redirections apply in the order of the text: the last one is outermost. */
  function Redirected(c: Cmd, tos: seq<Item>): Cmd {
    if tos == [] then c
    else
      var last := tos[|tos| - 1];
      var inner := Redirected(c, tos[..|tos| - 1]);
      if last.Arg? then inner else Redir(inner, last.file, if last.d.Input? then In else Out)
  }

  function Amped(c: Cmd, n: nat): Cmd {
    if n == 0 then c else Back(Amped(c, n - 1))
  }

  function SimpleMeaning(s: Simple): Cmd {
    match s
    case Plain(items) => Redirected(Exec(Words(items)), Tos(items))
    case Group(line, after) => Redirected(Meaning(line), after)
  }

  function PipelineMeaning(p: Pipeline): Cmd {
    match p
    case One(s) => SimpleMeaning(s)
    case Piped(s, rest) => Pipe(SimpleMeaning(s), PipelineMeaning(rest))
  }

  /** & binds a whole pipeline, and ; the rest of the line. */
  function Meaning(l: Line): Cmd {
    var first := Amped(PipelineMeaning(l.p), l.amps);
    match l
    case Last(_, _) => first
    case Then(_, _, rest) => List(first, Meaning(rest))
  }

  // How a line is spelled: symbols, then text.

  datatype Sym = Word(w: string) | Less | Greater | More | Bar | Amp | Semi | Open | Close

  function Arrow(d: Direction): Sym {
    match d
    case Input => Less
    case Output => Greater
    case Append => More
  }

  /** The symbols of some items, followed by more. */
  function ItemSyms(items: seq<Item>, more: seq<Sym>): seq<Sym> {
    if items == [] then more else OneItem(items[0], ItemSyms(items[1..], more))
  }

  function OneItem(it: Item, more: seq<Sym>): seq<Sym> {
    match it
    case Arg(w) => [Word(w)] + more
    case To(d, file) => [Arrow(d)] + ([Word(file)] + more)
  }

  function SimpleSyms(s: Simple, more: seq<Sym>): seq<Sym> {
    match s
    case Plain(items) => ItemSyms(items, more)
    case Group(line, after) => [Open] + LineSyms(line, [Close] + ItemSyms(after, more))
  }

  function PipelineSyms(p: Pipeline, more: seq<Sym>): seq<Sym> {
    match p
    case One(s) => SimpleSyms(s, more)
    case Piped(s, rest) => SimpleSyms(s, [Bar] + PipelineSyms(rest, more))
  }

  function AmpSyms(n: nat, more: seq<Sym>): seq<Sym> {
    if n == 0 then more else [Amp] + AmpSyms(n - 1, more)
  }

  function LineSyms(l: Line, more: seq<Sym>): seq<Sym> {
    match l
    case Last(p, amps) => PipelineSyms(p, AmpSyms(amps, more))
    case Then(p, amps, rest) => PipelineSyms(p, AmpSyms(amps, [Semi] + LineSyms(rest, more)))
  }

  function SymText(s: Sym): (t: string)
    ensures !s.Word? ==> t != []
  {
    match s
    case Word(w) => w
    case Less => "<"
    case Greater => ">"
    case More => ">>"
    case Bar => "|"
    case Amp => "&"
    case Semi => ";"
    case Open => "("
    case Close => ")"
  }

  predicate White(g: string) {
    forall i :: 0 <= i < |g| ==> IsSpace(g[i])
  }

  /** A symbol and the white space before it. */
  datatype Spaced = Spaced(gap: string, sym: Sym)

  function Text(toks: seq<Spaced>, tail: string): string {
    if toks == [] then tail else toks[0].gap + (SymText(toks[0].sym) + Text(toks[1..], tail))
  }

  /** Symbols that would run into each other without white space. */
  predicate Clash(s: Sym, t: Sym) {
    (s.Word? && t.Word?) || (s.Greater? && (t.Greater? || t.More?))
  }

  predicate Spelled(toks: seq<Spaced>) {
    && (forall i :: 0 <= i < |toks| ==> White(toks[i].gap) && (toks[i].sym.Word? ==> IsToken(toks[i].sym.w)))
    && (forall i :: 0 < i < |toks| && Clash(toks[i - 1].sym, toks[i].sym) ==> toks[i].gap != [])
  }

  function Syms(toks: seq<Spaced>): (ss: seq<Sym>)
    ensures |ss| == |toks|
  {
    seq(|toks|, i requires 0 <= i < |toks| => toks[i].sym)
  }

  /** The input t, after white space, is a text of these symbols. */
  ghost predicate At(t: string, ss: seq<Sym>) {
    exists toks: seq<Spaced>, tail: string :: Syms(toks) == ss && Spelled(toks) && White(tail) && Skip(t) == Skip(Text(toks, tail))
  }

  // Reading symbols.

  lemma {:induction false} SkipWhite(g: string, t: string)
    requires White(g)
    ensures Skip(g + t) == Skip(t)
  {
    if g == [] {
      assert g + t == t;
    } else {
      assert (g + t)[1..] == g[1..] + t;
      SkipWhite(g[1..], t);
    }
  }

  lemma SkipTwice(t: string)
    ensures Skip(Skip(t)) == Skip(t)
  {
  }

  lemma AllWhite(g: string)
    requires White(g)
    ensures Skip(g) == []
  {
    SkipWhite(g, []);
    assert g + [] == g;
  }

  lemma AtSkip(t: string, ss: seq<Sym>)
    requires At(t, ss)
    ensures At(Skip(t), ss)
  {
    SkipTwice(t);
  }

  lemma AtEnd(t: string)
    requires At(t, [])
    ensures Skip(t) == [] && GetToken(t) == Token('\0', 0, []) && forall s :: !Peek(t, s)
  {
    var toks: seq<Spaced>, tail: string :| Syms(toks) == [] && Spelled(toks) && White(tail) && Skip(t) == Skip(Text(toks, tail));
    AllWhite(tail);
  }

  function Kind(s: Sym): char {
    match s
    case Word(_) => 'a'
    case More => '+'
    case _ => SymText(s)[0]
  }

  /** What follows a symbol does not run into it. */
  lemma Ends(toks: seq<Spaced>, tail: string)
    requires toks != [] && Spelled(toks) && White(tail)
    ensures var rest := Text(toks[1..], tail);
            && (toks[0].sym.Word? ==> rest == [] || !IsWord(rest[0]))
            && (toks[0].sym.Greater? ==> rest == [] || rest[0] != '>')
  {
    var rest := Text(toks[1..], tail);
    if |toks| > 1 {
      var next := toks[1];
      assert toks[1..][0] == next;
      if next.gap != [] {
        assert rest[0] == next.gap[0];
      } else {
        assert rest == SymText(next.sym) + Text(toks[1..][1..], tail);
        assert !Clash(toks[0].sym, next.sym);
        if next.sym.Word? {
          assert rest[0] == next.sym.w[0];
        }
      }
    }
  }

  lemma FrontOf(s: Sym, rest: string)
    requires s.Word? ==> IsToken(s.w) && (rest == [] || !IsWord(rest[0]))
    requires s.Greater? ==> rest == [] || rest[0] != '>'
    ensures var t := SymText(s) + rest;
            && Skip(t) == t && t != [] && t[0] == SymText(s)[0]
            && GetToken(t) == Token(Kind(s), |SymText(s)|, Skip(rest)) && t[..|SymText(s)|] == SymText(s)
  {
    var t := SymText(s) + rest;
    if s.Word? {
      TokenWord(s.w, rest);
    } else {
      assert t[0] == SymText(s)[0];
      assert t[|SymText(s)|..] == rest;
      if s.More? {
        assert t[1] == '>';
      }
    }
  }

  lemma TokenSkips(t: string)
    ensures GetToken(Skip(t)) == GetToken(t) && forall s :: Peek(Skip(t), s) == Peek(t, s)
  {
    SkipTwice(t);
  }

  lemma SpelledRest(toks: seq<Spaced>, s: Sym, rest: seq<Sym>)
    requires Syms(toks) == [s] + rest && Spelled(toks)
    ensures toks != [] && toks[0].sym == s && Syms(toks[1..]) == rest && Spelled(toks[1..])
  {
    assert Syms(toks)[0] == s;
    assert forall i :: 0 <= i < |rest| ==> Syms(toks[1..])[i] == Syms(toks)[i + 1] == ([s] + rest)[i + 1];
  }

  /** The next symbol, as gettoken and peek see it. */
  lemma Next(t: string, s: Sym, rest: seq<Sym>)
    requires At(t, [s] + rest)
    ensures GetToken(t).kind == Kind(s) && At(GetToken(t).rest, rest)
    ensures GetToken(t).length <= |Skip(t)| && Skip(t)[..GetToken(t).length] == SymText(s)
    ensures SymText(s) != [] && forall set_ :: Peek(t, set_) <==> SymText(s)[0] in set_
    ensures |GetToken(t).rest| < |t| && (s.Word? ==> IsToken(s.w))
  {
    var toks: seq<Spaced>, tail: string :| Syms(toks) == [s] + rest && Spelled(toks) && White(tail) && Skip(t) == Skip(Text(toks, tail));
    SpelledRest(toks, s, rest);
    var after := Text(toks[1..], tail);
    Ends(toks, tail);
    FrontOf(s, after);
    SkipWhite(toks[0].gap, SymText(s) + after);
    TokenSkips(t);
    assert Skip(t) == SymText(s) + after;
    hide Spelled, IsToken, IsWord, Syms, Clash, GetToken, SymText, Text, White, Kind;
    SkipTwice(after);
    assert GetToken(t).rest == Skip(after);
    hide Skip;
  }

  // Parsing.

  /** Where a command may end. */
  predicate StopsHere(ss: seq<Sym>) {
    ss == [] || ss[0].Bar? || ss[0].Amp? || ss[0].Semi? || ss[0].Close?
  }

  predicate NoArrow(ss: seq<Sym>) {
    ss == [] || (!ss[0].Less? && !ss[0].Greater? && !ss[0].More?)
  }

  /** What peek finds at the front. */
  lemma PeekAt(t: string, ss: seq<Sym>)
    requires At(t, ss)
    ensures Peek(t, {'('}) <==> ss != [] && ss[0].Open?
    ensures Peek(t, {')'}) <==> ss != [] && ss[0].Close?
    ensures Peek(t, {'|'}) <==> ss != [] && ss[0].Bar?
    ensures Peek(t, {'&'}) <==> ss != [] && ss[0].Amp?
    ensures Peek(t, {';'}) <==> ss != [] && ss[0].Semi?
    ensures Peek(t, {'<', '>'}) <==> !NoArrow(ss)
    ensures Peek(t, {'|', ')', '&', ';'}) <==> ss != [] && StopsHere(ss)
  {
    if ss == [] {
      AtEnd(t);
    } else {
      assert ss == [ss[0]] + ss[1..];
      Next(t, ss[0], ss[1..]);
      assert ss[0].Word? ==> IsWord(SymText(ss[0])[0]);
      hide Peek, At;
    }
  }

  function AsRedirection(it: Item): Redirection
    requires it.To?
  {
    Redirection(it.file, if it.d.Input? then In else Out)
  }

  function AsRedirections(tos: seq<Item>): seq<Redirection>
    requires forall i :: 0 <= i < |tos| ==> tos[i].To?
  {
    if tos == [] then [] else [AsRedirection(tos[0])] + AsRedirections(tos[1..])
  }

  lemma {:induction false} RedirsAt(t: string, tos: seq<Item>, more: seq<Sym>)
    requires forall i :: 0 <= i < |tos| ==> tos[i].To?
    requires At(t, ItemSyms(tos, more)) && NoArrow(more)
    ensures var r := ParseRedirs(t); r.Ok? && r.value == AsRedirections(tos) && At(r.rest, more)
    decreases |tos|
  {
    PeekAt(t, ItemSyms(tos, more));
    if tos == [] {
      AtSkip(t, more);
    } else {
      var it, after := tos[0], ItemSyms(tos[1..], more);
      var op := GetToken(t);
      hide Peek, GetToken, Skip, At, SymText;
      Next(t, Arrow(it.d), [Word(it.file)] + after);
      Next(op.rest, Word(it.file), after);
      assert SymText(Word(it.file)) == it.file by {
        WordText(it.file);
      }
      KindOf(it.d);
      RedirsStep(t);
      RedirsAt(GetToken(op.rest).rest, tos[1..], more);
      hide ParseRedirs;
    }
  }

  lemma WordText(w: string)
    ensures SymText(Word(w)) == w && Kind(Word(w)) == 'a'
  {
  }

  lemma KindOf(d: Direction)
    ensures Kind(Arrow(d)) == '<' <==> d.Input?
  {
  }

  /** The number of redirections at the front. */
  function Lead(items: seq<Item>): (k: nat)
    ensures k <= |items| && (forall i :: 0 <= i < k ==> items[i].To?) && (k < |items| ==> items[k].Arg?)
  {
    if items == [] || items[0].Arg? then 0 else 1 + Lead(items[1..])
  }

  lemma {:induction false} JoinItems(tos: seq<Item>, rest: seq<Item>, more: seq<Sym>)
    requires forall i :: 0 <= i < |tos| ==> tos[i].To?
    ensures ItemSyms(tos + rest, more) == ItemSyms(tos, ItemSyms(rest, more))
    ensures Words(tos + rest) == Words(rest) && Tos(tos + rest) == tos + Tos(rest)
    decreases |tos|
  {
    hide OneItem;
    if tos == [] {
      assert tos + rest == rest;
    } else {
      var all := tos + rest;
      assert all[0] == tos[0] && all[1..] == tos[1..] + rest;
      JoinItems(tos[1..], rest, more);
      assert Words(all) == Words(all[1..]);
      assert Tos(all) == [tos[0]] + Tos(all[1..]);
      assert tos == [tos[0]] + tos[1..];
    }
  }

  /** Redirections at the front, then an argument or the end. */
  lemma SplitItems(items: seq<Item>, more: seq<Sym>) returns (tos: seq<Item>, rest: seq<Item>)
    ensures items == tos + rest && (rest == [] || rest[0].Arg?) && |rest| <= |items| && forall i :: 0 <= i < |tos| ==> tos[i].To?
    ensures ItemSyms(items, more) == ItemSyms(tos, ItemSyms(rest, more)) && Words(items) == Words(rest)
    ensures (forall i :: 0 <= i < |Tos(rest)| ==> Tos(rest)[i].To?) && (forall i :: 0 <= i < |Tos(items)| ==> Tos(items)[i].To?)
    ensures AsRedirections(Tos(items)) == AsRedirections(tos) + AsRedirections(Tos(rest))
  {
    var k := Lead(items);
    tos, rest := items[..k], items[k..];
    assert items == tos + rest;
    JoinItems(tos, rest, more);
    TosOnly(rest);
    AsRedirectionsConcat(tos, Tos(rest));
  }

  lemma {:induction false} TosOnly(items: seq<Item>)
    ensures forall i :: 0 <= i < |Tos(items)| ==> Tos(items)[i].To?
  {
    if items != [] {
      TosOnly(items[1..]);
    }
  }

  lemma {:induction false} AsRedirectionsConcat(a: seq<Item>, b: seq<Item>)
    requires (forall i :: 0 <= i < |a| ==> a[i].To?) && (forall i :: 0 <= i < |b| ==> b[i].To?)
    ensures AsRedirections(a + b) == AsRedirections(a) + AsRedirections(b)
  {
    if a == [] {
      assert a + b == b;
    } else {
      assert (a + b)[1..] == a[1..] + b;
      AsRedirectionsConcat(a[1..], b);
    }
  }

  lemma ItemsFront(items: seq<Item>, more: seq<Sym>)
    requires items != [] && items[0].Arg?
    ensures ItemSyms(items, more) == [Word(items[0].w)] + ItemSyms(items[1..], more)
    ensures Words(items) == [items[0].w] + Words(items[1..]) && Tos(items) == Tos(items[1..])
  {
  }

  lemma NoArrowYet(items: seq<Item>, more: seq<Sym>)
    requires (items == [] || items[0].Arg?) && StopsHere(more)
    ensures NoArrow(ItemSyms(items, more))
  {
  }

  lemma NoItems(more: seq<Sym>)
    ensures ItemSyms([], more) == more && Words([]) == [] && Tos([]) == [] && AsRedirections(Tos([])) == []
  {
  }

  lemma NoArgsAt(t: string, argc: nat, more: seq<Sym>)
    requires StopsHere(more) && At(t, more)
    ensures var r := ParseArgs(t, argc); r.Ok? && r.value == ShellParser.Simple([], []) && At(r.rest, more)
  {
    PeekAt(t, more);
    if more == [] {
      AtEnd(t);
    } else {
      AtSkip(t, more);
    }
  }

  /** An argument, the redirections tos, and the rest. */
  lemma ArgAt(t: string, w: string, argc: nat, tos: seq<Item>, rest: seq<Sym>)
    requires At(t, [Word(w)] + ItemSyms(tos, rest)) && NoArrow(rest) && argc + 1 < MAXARGS && forall i :: 0 <= i < |tos| ==> tos[i].To?
    ensures var reds := ParseRedirs(GetToken(t).rest);
            && reds.Ok? && reds.value == AsRedirections(tos) && At(reds.rest, rest)
            && var more := ParseArgs(reds.rest, argc + 1);
               ParseArgs(t, argc) == if more.Panic? then Panic
                                     else Ok(ShellParser.Simple([w] + more.value.argv, AsRedirections(tos) + more.value.redirs), more.rest)
  {
    PeekAt(t, [Word(w)] + ItemSyms(tos, rest));
    hide Peek, GetToken, Skip, At, SymText, IsToken, ParseArgs, ParseRedirs, ItemSyms, AsRedirections, NoArrow;
    Next(t, Word(w), ItemSyms(tos, rest));
    WordText(w);
    RedirsAt(GetToken(t).rest, tos, rest);
    ArgsStep(t, argc);
  }

  /** Items that begin with an argument, or none. */
  lemma {:induction false} ArgsAt(t: string, items: seq<Item>, argc: nat, more: seq<Sym>)
    requires (items == [] || items[0].Arg?) && StopsHere(more) && argc + |Words(items)| < MAXARGS
    requires At(t, ItemSyms(items, more))
    ensures forall i :: 0 <= i < |Tos(items)| ==> Tos(items)[i].To?
    ensures var r := ParseArgs(t, argc);
            r.Ok? && r.value == ShellParser.Simple(Words(items), AsRedirections(Tos(items))) && At(r.rest, more)
    decreases |items|
  {
    hide Peek, GetToken, Skip, At, ParseArgs, ParseRedirs, ItemSyms, Words, Tos, AsRedirections, NoArrow, StopsHere;
    TosOnly(items);
    if items == [] {
      NoItems(more);
      NoArgsAt(t, argc, more);
    } else {
      ItemsFront(items, more);
      var tos, rest := SplitItems(items[1..], more);
      NoArrowYet(rest, more);
      ArgAt(t, items[0].w, argc, tos, ItemSyms(rest, more));
      ArgsAt(ParseRedirs(GetToken(t).rest).rest, rest, argc + 1, more);
    }
  }

  /** Wrapping in the order of the list is the same as wrapping from the outside. */
  lemma {:induction false} WrapRedirected(c: Cmd, tos: seq<Item>)
    requires forall i :: 0 <= i < |tos| ==> tos[i].To?
    ensures Wrap(c, AsRedirections(tos)) == Redirected(c, tos)
    decreases |tos|
  {
    if tos != [] {
      var n := |tos| - 1;
      WrapRedirected(c, tos[..n]);
      AsRedirectionsConcat(tos[..n], [tos[n]]);
      assert tos == tos[..n] + [tos[n]];
      assert AsRedirections([tos[n]]) == [AsRedirection(tos[n])];
      WrapSnoc(c, AsRedirections(tos[..n]), AsRedirection(tos[n]));
    }
  }

  lemma NotOpen(items: seq<Item>, more: seq<Sym>)
    requires StopsHere(more)
    ensures var ss := ItemSyms(items, more); ss != [] ==> !ss[0].Open?
  {
  }

  lemma PlainAt(t: string, items: seq<Item>, more: seq<Sym>)
    requires SimpleOk(Plain(items)) && StopsHere(more) && At(t, ItemSyms(items, more))
    ensures var r := ParseExec(t); r.Ok? && r.value == SimpleMeaning(Plain(items)) && At(r.rest, more)
  {
    hide Peek, GetToken, Skip, At, SymText, IsToken, ParseArgs, ParseRedirs, ItemSyms, Words, Tos, AsRedirections, Redirected, Wrap, NoArrow, StopsHere, ItemOk, ParseBlock;
    NotOpen(items, more);
    PeekAt(t, ItemSyms(items, more));
    var tos, rest := SplitItems(items, more);
    WrapRedirected(Exec(Words(items)), Tos(items));
    NoArrowYet(rest, more);
    RedirsAt(t, tos, ItemSyms(rest, more));
    ArgsAt(ParseRedirs(t).rest, rest, 0, more);
  }

  lemma {:induction false} SimpleAt(t: string, s: Simple, more: seq<Sym>)
    requires SimpleOk(s) && StopsHere(more) && At(t, SimpleSyms(s, more))
    ensures var r := ParseExec(t); r.Ok? && r.value == SimpleMeaning(s) && At(r.rest, more)
    decreases s
  {
    match s
    case Plain(items) => PlainAt(t, items, more);
    case Group(line, after) =>
      var tail := [Close] + ItemSyms(after, more);
      PeekAt(t, SimpleSyms(s, more));
      Next(t, Open, LineSyms(line, tail));
      var inside := GetToken(t).rest;
      LineAt(inside, line, tail);
      var closed := ParseLine(inside).rest;
      PeekAt(closed, tail);
      Next(closed, Close, ItemSyms(after, more));
      RedirsAt(GetToken(closed).rest, after, more);
      WrapRedirected(Meaning(line), after);
      hide Peek, GetToken, Skip, At, SymText, IsToken, ParseLine, ParseRedirs;
      assert ParseExec(t) == ParseBlock(t);
  }

  lemma {:induction false} PipelineAt(t: string, p: Pipeline, more: seq<Sym>)
    requires PipelineOk(p) && StopsHere(more) && (more != [] ==> !more[0].Bar?) && At(t, PipelineSyms(p, more))
    ensures var r := ParsePipe(t); r.Ok? && r.value == PipelineMeaning(p) && At(r.rest, more)
    decreases p
  {
    hide Peek, GetToken, Skip, At, SymText, IsToken, ParseExec;
    var after := if p.One? then more else [Bar] + PipelineSyms(p.rest, more);
    SimpleAt(t, p.s, after);
    var left := ParseExec(t);
    PeekAt(left.rest, after);
    AtSkip(left.rest, after);
    if p.Piped? {
      Next(left.rest, Bar, PipelineSyms(p.rest, more));
      PipelineAt(GetToken(left.rest).rest, p.rest, more);
    }
  }

  lemma {:induction false} AmpedBack(c: Cmd, n: nat)
    ensures Amped(Back(c), n) == Back(Amped(c, n))
  {
    if n > 0 {
      AmpedBack(c, n - 1);
    }
  }

  lemma {:induction false} BacksAt(c: Cmd, t: string, n: nat, more: seq<Sym>)
    requires At(t, AmpSyms(n, more)) && (more != [] ==> !more[0].Amp?)
    ensures var r := ParseBacks(c, t); r.value == Amped(c, n) && At(r.rest, more)
    decreases n
  {
    hide Peek, GetToken, Skip, At, SymText, IsToken;
    PeekAt(t, AmpSyms(n, more));
    if n == 0 {
      AtSkip(t, more);
    } else {
      Next(t, Amp, AmpSyms(n - 1, more));
      BacksAt(Back(c), GetToken(t).rest, n - 1, more);
      AmpedBack(c, n - 1);
    }
  }

  /** Every line, in any context where one may end, is parsed to its meaning. */
  lemma {:induction false} LineAt(t: string, l: Line, more: seq<Sym>)
    requires LineOk(l) && (more == [] || more[0].Close?) && At(t, LineSyms(l, more))
    ensures var r := ParseLine(t); r.Ok? && r.value == Meaning(l) && At(r.rest, more)
    decreases l
  {
    hide Peek, GetToken, Skip, At, SymText, IsToken, ParsePipe, ParseBacks;
    var after := if l.Last? then more else [Semi] + LineSyms(l.rest, more);
    PipelineAt(t, l.p, AmpSyms(l.amps, after));
    var first := ParsePipe(t);
    BacksAt(first.value, first.rest, l.amps, after);
    var left := ParseBacks(first.value, first.rest);
    PeekAt(left.rest, after);
    AtSkip(left.rest, after);
    if l.Then? {
      Next(left.rest, Semi, LineSyms(l.rest, more));
      LineAt(GetToken(left.rest).rest, l.rest, more);
    }
  }

  /** The shell understands its language: every line, however it is spaced, parses to its meaning. */
  lemma LanguageParses(l: Line, toks: seq<Spaced>, tail: string)
    requires LineOk(l) && Syms(toks) == LineSyms(l, []) && Spelled(toks) && White(tail)
    ensures ParseCmd(Text(toks, tail)) == Ok(Meaning(l), [])
  {
    var t := Text(toks, tail);
    assert At(t, LineSyms(l, []));
    LineAt(t, l, []);
    AtEnd(ParseLine(t).rest);
  }

  // The parser accepts nothing else.

  predicate NoNul(t: string) {
    forall i :: 0 <= i < |t| ==> t[i] != '\0'
  }

  function SymAt(t: string): (s: Sym)
    requires t != [] && !IsSpace(t[0]) && t[0] != '\0'
    ensures |SymText(s)| <= |t| && t[..|SymText(s)|] == SymText(s) && SymText(s) != []
  {
    if t[0] == '<' then Less
    else if t[0] == '>' then if |t| > 1 && t[1] == '>' then More else Greater
    else if t[0] == '|' then Bar
    else if t[0] == '&' then Amp
    else if t[0] == ';' then Semi
    else if t[0] == '(' then Open
    else if t[0] == ')' then Close
    else Word(t[..WordLength(t)])
  }

  lemma SkipPrefix(t: string) returns (g: string)
    ensures White(g) && g + Skip(t) == t
  {
    if t == [] || !IsSpace(t[0]) {
      g := [];
    } else {
      var h := SkipPrefix(t[1..]);
      g := [t[0]] + h;
      assert g + Skip(t) == [t[0]] + (h + Skip(t[1..]));
    }
  }

  lemma SymEnds(t: string)
    requires t != [] && !IsSpace(t[0]) && t[0] != '\0'
    ensures var s := SymAt(t); var u := t[|SymText(s)|..];
            && (s.Word? ==> IsToken(s.w) && (u == [] || !IsWord(u[0])))
            && (s.Greater? ==> u == [] || u[0] != '>')
  {
    if SymAt(t).Word? {
      assert IsWord(t[0]);
    }
  }

  /** Text that goes on with u, after a symbol that u does not run into. */
  lemma NoClash(s: Sym, toks: seq<Spaced>, tail: string, u: string)
    requires Text(toks, tail) == u && Spelled(toks)
    requires s.Word? ==> u == [] || !IsWord(u[0])
    requires s.Greater? ==> u == [] || u[0] != '>'
    ensures toks != [] && Clash(s, toks[0].sym) ==> toks[0].gap != []
  {
    if toks != [] && toks[0].gap == [] {
      var x := toks[0].sym;
      var rest := Text(toks[1..], tail);
      assert u == SymText(x) + rest;
      if x.Word? {
        assert u[0] == x.w[0];
      }
    }
  }

  /** Every line is a text of symbols. */
  lemma {:induction false} Lex(t: string) returns (toks: seq<Spaced>, tail: string)
    requires NoNul(t)
    ensures Spelled(toks) && White(tail) && Text(toks, tail) == t
    decreases |t|
  {
    hide Spelled, Clash, SymText, IsWord, IsToken, SymAt, Text;
    var g := SkipPrefix(t);
    var x := Skip(t);
    if x == [] {
      NoText(g);
      toks, tail := [], g;
      assert g + [] == g;
    } else {
      assert t[|g|] == x[0];
      SymEnds(x);
      var s := SymAt(x);
      var u := x[|SymText(s)|..];
      assert x == SymText(s) + u;
      assert forall i :: 0 <= i < |u| ==> u[i] == t[|g| + |SymText(s)| + i];
      var more;
      more, tail := Lex(u);
      NoClash(s, more, tail, u);
      toks := [Spaced(g, s)] + more;
      SpelledCons(Spaced(g, s), more);
      TextCons(Spaced(g, s), more, tail);
    }
  }

  lemma NoText(tail: string)
    ensures Text([], tail) == tail && Spelled([])
  {
  }

  lemma TextCons(x: Spaced, toks: seq<Spaced>, tail: string)
    ensures Text([x] + toks, tail) == x.gap + (SymText(x.sym) + Text(toks, tail))
  {
    assert ([x] + toks)[1..] == toks;
  }

  lemma SpelledCons(x: Spaced, toks: seq<Spaced>)
    requires Spelled(toks) && White(x.gap) && (x.sym.Word? ==> IsToken(x.sym.w))
    requires toks != [] && Clash(x.sym, toks[0].sym) ==> toks[0].gap != []
    ensures Spelled([x] + toks)
  {
    hide White, IsToken, Clash;
    var all := [x] + toks;
    forall i | 0 < i < |all| && Clash(all[i - 1].sym, all[i].sym) ensures all[i].gap != [] {
      assert all[i] == toks[i - 1];
      assert i > 1 ==> all[i - 1] == toks[i - 2];
    }
  }

  /** Symbols, kinds and ends. */
  lemma Front(t: string, ss: seq<Sym>)
    requires At(t, ss)
    ensures ss == [] <==> GetToken(t).kind == '\0'
    ensures ss != [] ==> GetToken(t).kind == Kind(ss[0]) && At(GetToken(t).rest, ss[1..]) && |GetToken(t).rest| < |t|
    ensures ss != [] ==> GetToken(t).length <= |Skip(t)| && Skip(t)[..GetToken(t).length] == SymText(ss[0])
    ensures GetToken(t).kind == 'a' <==> ss != [] && ss[0].Word?
    ensures ss != [] && ss[0].Word? ==> IsToken(ss[0].w)
  {
    hide At, GetToken, Skip;
    if ss == [] {
      AtEnd(t);
    } else {
      assert ss == [ss[0]] + ss[1..];
      Next(t, ss[0], ss[1..]);
    }
  }

  lemma {:induction false} RedirsOnly(t: string, ss: seq<Sym>) returns (tos: seq<Item>, more: seq<Sym>)
    requires At(t, ss) && ParseRedirs(t).Ok?
    ensures (forall i :: 0 <= i < |tos| ==> tos[i].To? && ItemOk(tos[i])) && ss == ItemSyms(tos, more) && NoArrow(more)
    ensures ParseRedirs(t).value == AsRedirections(tos) && At(ParseRedirs(t).rest, more)
    decreases |t|
  {
    hide At, GetToken, Skip, Peek, SymText, IsToken;
    PeekAt(t, ss);
    if NoArrow(ss) {
      AtSkip(t, ss);
      tos, more := [], ss;
    } else {
      Front(t, ss);
      var op := GetToken(t);
      Front(op.rest, ss[1..]);
      var file := ss[1].w;
      WordText(file);
      RedirsStep(t);
      hide ParseRedirs;
      var rest;
      rest, more := RedirsOnly(GetToken(op.rest).rest, ss[1..][1..]);
      var d := if ss[0].Less? then Input else if ss[0].Greater? then Output else Append;
      KindOf(d);
      tos := [To(d, file)] + rest;
      assert tos[1..] == rest && ss == [Arrow(d)] + ([Word(file)] + ss[1..][1..]);
    }
  }

  ghost predicate AllOk(items: seq<Item>) {
    forall i :: 0 <= i < |items| ==> ItemOk(items[i])
  }

  lemma ArgJoin(w: string, tos: seq<Item>, rest: seq<Item>, more: seq<Sym>) returns (items: seq<Item>)
    requires IsToken(w) && AllOk(tos) && AllOk(rest) && forall i :: 0 <= i < |tos| ==> tos[i].To?
    ensures items == [Arg(w)] + (tos + rest) && AllOk(items)
    ensures ItemSyms(items, more) == [Word(w)] + ItemSyms(tos, ItemSyms(rest, more))
    ensures Words(items) == [w] + Words(rest)
    ensures (forall i :: 0 <= i < |Tos(rest)| ==> Tos(rest)[i].To?) && (forall i :: 0 <= i < |Tos(items)| ==> Tos(items)[i].To?)
    ensures AsRedirections(Tos(items)) == AsRedirections(tos) + AsRedirections(Tos(rest))
  {
    hide IsToken;
    items := [Arg(w)] + (tos + rest);
    assert items[1..] == tos + rest;
    ItemsFront(items, more);
    JoinItems(tos, rest, more);
    TosOnly(rest);
    AsRedirectionsConcat(tos, Tos(rest));
    assert Tos(items) == tos + Tos(rest);
  }

  lemma {:induction false} ArgsOnly(t: string, ss: seq<Sym>, argc: nat) returns (items: seq<Item>, more: seq<Sym>)
    requires At(t, ss) && argc < MAXARGS && ParseArgs(t, argc).Ok?
    ensures AllOk(items) && (items == [] || items[0].Arg?) && ss == ItemSyms(items, more) && StopsHere(more)
    ensures forall i :: 0 <= i < |Tos(items)| ==> Tos(items)[i].To?
    ensures ParseArgs(t, argc).value == ShellParser.Simple(Words(items), AsRedirections(Tos(items))) && At(ParseArgs(t, argc).rest, more)
    ensures argc + |Words(items)| < MAXARGS
    decreases |t|
  {
    hide At, GetToken, Skip, Peek, SymText, IsToken, ParseRedirs, ItemSyms, Words, Tos, AsRedirections, AllOk;
    PeekAt(t, ss);
    Front(t, ss);
    if ss == [] || StopsHere(ss) {
      items, more := [], ss;
      NoItems(ss);
      NoneOk();
      hide ParseArgs;
      NoArgsAt(t, argc, ss);
    } else {
      var w := ss[0].w;
      WordText(w);
      var tos, after := RedirsOnly(GetToken(t).rest, ss[1..]);
      ArgsStep(t, argc);
      var rest;
      rest, more := ArgsOnly(ParseRedirs(GetToken(t).rest).rest, after, argc + 1);
      hide ParseArgs;
      TosOk(tos);
      items := ArgJoin(w, tos, rest, more);
      assert ss == [Word(w)] + ss[1..];
    }
  }

  lemma NoneOk()
    ensures AllOk([])
  {
  }

  lemma TosOk(tos: seq<Item>)
    requires forall i :: 0 <= i < |tos| ==> tos[i].To? && ItemOk(tos[i])
    ensures AllOk(tos)
  {
  }

  lemma PlainOnly(t: string, ss: seq<Sym>) returns (s: Simple, more: seq<Sym>)
    requires At(t, ss) && !Peek(t, {'('}) && ParseExec(t).Ok?
    ensures SimpleOk(s) && ss == SimpleSyms(s, more) && StopsHere(more)
    ensures ParseExec(t).value == SimpleMeaning(s) && At(ParseExec(t).rest, more)
  {
    hide At, GetToken, Skip, Peek, SymText, IsToken, ParseRedirs, ParseArgs, ItemSyms, Words, Tos, AsRedirections, AllOk, Redirected, Wrap, ItemOk;
    var tos, after := RedirsOnly(t, ss);
    var rest;
    rest, more := ArgsOnly(ParseRedirs(t).rest, after, 0);
    var items := LeadJoin(tos, rest, more);
    s := Plain(items);
    WrapRedirected(Exec(Words(items)), Tos(items));
    PlainOk(items);
  }

  lemma LeadJoin(tos: seq<Item>, rest: seq<Item>, more: seq<Sym>) returns (items: seq<Item>)
    requires AllOk(rest) && forall i :: 0 <= i < |tos| ==> tos[i].To? && ItemOk(tos[i])
    ensures items == tos + rest && AllOk(items) && Words(items) == Words(rest)
    ensures ItemSyms(items, more) == ItemSyms(tos, ItemSyms(rest, more))
    ensures (forall i :: 0 <= i < |Tos(rest)| ==> Tos(rest)[i].To?) && (forall i :: 0 <= i < |Tos(items)| ==> Tos(items)[i].To?)
    ensures AsRedirections(Tos(items)) == AsRedirections(tos) + AsRedirections(Tos(rest))
  {
    hide ItemOk;
    items := tos + rest;
    JoinItems(tos, rest, more);
    TosOnly(rest);
    AsRedirectionsConcat(tos, Tos(rest));
  }

  lemma PlainOk(items: seq<Item>)
    requires AllOk(items) && |Words(items)| < MAXARGS
    ensures SimpleOk(Plain(items))
  {
  }

  lemma {:induction false} SimpleOnly(t: string, ss: seq<Sym>) returns (s: Simple, more: seq<Sym>)
    requires At(t, ss) && ParseExec(t).Ok?
    ensures SimpleOk(s) && ss == SimpleSyms(s, more) && NoArrow(more)
    ensures ParseExec(t).value == SimpleMeaning(s) && At(ParseExec(t).rest, more)
    decreases |t|, 2
  {
    hide At, GetToken, Skip, SymText, IsToken, ParseRedirs, ParseArgs, ItemSyms, Redirected, Wrap, ItemOk, ParseLine;
    PeekAt(t, ss);
    if !Peek(t, {'('}) {
      s, more := PlainOnly(t, ss);
    } else {
      hide Peek;
      Front(t, ss);
      var inside := GetToken(t).rest;
      var line, close := LineOnly(inside, ss[1..]);
      var closed := ParseLine(inside).rest;
      PeekAt(closed, close);
      Front(closed, close);
      var after;
      after, more := RedirsOnly(GetToken(closed).rest, close[1..]);
      WrapRedirected(Meaning(line), after);
      s := Group(line, after);
      assert close == [Close] + close[1..] && ss == [Open] + ss[1..];
      assert ParseExec(t) == ParseBlock(t);
    }
  }

  lemma {:induction false} PipelineOnly(t: string, ss: seq<Sym>) returns (p: Pipeline, more: seq<Sym>)
    requires At(t, ss) && ParsePipe(t).Ok?
    ensures PipelineOk(p) && ss == PipelineSyms(p, more) && (more != [] ==> !more[0].Bar?)
    ensures ParsePipe(t).value == PipelineMeaning(p) && At(ParsePipe(t).rest, more)
    decreases |t|, 3
  {
    hide At, GetToken, Skip, Peek, SymText, IsToken, ParseExec;
    var s, after := SimpleOnly(t, ss);
    var left := ParseExec(t);
    PeekAt(left.rest, after);
    AtSkip(left.rest, after);
    if after == [] || !after[0].Bar? {
      p, more := One(s), after;
    } else {
      Front(left.rest, after);
      var rest;
      rest, more := PipelineOnly(GetToken(left.rest).rest, after[1..]);
      p := Piped(s, rest);
      assert after == [Bar] + after[1..];
    }
  }

  lemma {:induction false} BacksOnly(c: Cmd, t: string, ss: seq<Sym>) returns (n: nat, more: seq<Sym>)
    requires At(t, ss)
    ensures ss == AmpSyms(n, more) && (more != [] ==> !more[0].Amp?)
    ensures ParseBacks(c, t).value == Amped(c, n) && At(ParseBacks(c, t).rest, more)
    decreases |t|
  {
    hide At, GetToken, Skip, Peek, SymText, IsToken;
    PeekAt(t, ss);
    if ss == [] || !ss[0].Amp? {
      AtSkip(t, ss);
      n, more := 0, ss;
    } else {
      Front(t, ss);
      var m;
      m, more := BacksOnly(Back(c), GetToken(t).rest, ss[1..]);
      AmpedBack(c, m);
      n := m + 1;
      assert ss == [Amp] + ss[1..];
    }
  }

  lemma {:induction false} LineOnly(t: string, ss: seq<Sym>) returns (l: Line, more: seq<Sym>)
    requires At(t, ss) && ParseLine(t).Ok?
    ensures LineOk(l) && ss == LineSyms(l, more)
    ensures ParseLine(t).value == Meaning(l) && At(ParseLine(t).rest, more)
    decreases |t|, 4
  {
    hide At, GetToken, Skip, Peek, SymText, IsToken, ParsePipe, ParseBacks;
    var p, amps := PipelineOnly(t, ss);
    var first := ParsePipe(t);
    var n, after := BacksOnly(first.value, first.rest, amps);
    var left := ParseBacks(first.value, first.rest);
    PeekAt(left.rest, after);
    AtSkip(left.rest, after);
    if after == [] || !after[0].Semi? {
      l, more := Last(p, n), after;
    } else {
      Front(left.rest, after);
      var rest;
      rest, more := LineOnly(GetToken(left.rest).rest, after[1..]);
      l := Then(p, n, rest);
      assert after == [Semi] + after[1..];
    }
  }

  /** t is a spelling of the line l. */
  ghost predicate Spells(t: string, l: Line) {
    LineOk(l) && exists toks: seq<Spaced>, tail: string :: Syms(toks) == LineSyms(l, []) && Spelled(toks) && White(tail) && Text(toks, tail) == t
  }

  /** The shell parses exactly its language: a C string is accepted with a tree if and only if it spells
      a line that means this tree. All others stop the shell. */
  lemma LanguageIff(t: string, c: Cmd)
    requires NoNul(t)
    ensures ParseCmd(t) == Ok(c, []) <==> exists l :: Spells(t, l) && Meaning(l) == c
  {
    hide LineOk, LineSyms, Spelled, White, Text, Meaning, ParseLine;
    if ParseCmd(t) == Ok(c, []) {
      var toks, tail := Lex(t);
      assert At(t, Syms(toks));
      var l, more := LineOnly(t, Syms(toks));
      var rest := ParseLine(t).rest;
      Front(rest, more);
      assert more == [] by {
        NothingLeft(rest, more);
      }
      assert Spells(t, l);
    }
    forall l | Spells(t, l) && Meaning(l) == c ensures ParseCmd(t) == Ok(c, []) {
      var toks: seq<Spaced>, tail: string :| Syms(toks) == LineSyms(l, []) && Spelled(toks) && White(tail) && Text(toks, tail) == t;
      LanguageParses(l, toks, tail);
    }
  }

  lemma NothingLeft(t: string, ss: seq<Sym>)
    requires At(t, ss) && Skip(t) == []
    ensures ss == []
  {
    if ss != [] {
      assert ss == [ss[0]] + ss[1..];
      Next(t, ss[0], ss[1..]);
    }
  }
}
