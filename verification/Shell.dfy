/** HW3/sh.c as it runs: recursive descent over a shared cursor, producing a tree
    of pointers into the line, and nulterminate, which cuts the words out in place. */
module Shell {
  import opened Basics
  import opened ShellParser

  /** A word as a pair of pointers (q, eq) into the line. */
  datatype Span = Span(q: nat, eq: nat)

  datatype Node =
    | ExecNode(argv: seq<Span>)
    | RedirNode(cmd: Node, file: Span, mode: Mode)
    | PipeNode(left: Node, right: Node)
    | ListNode(left: Node, right: Node)
    | BackNode(cmd: Node)

  datatype RedirSpan = RedirSpan(file: Span, mode: Mode)

  /** A maximal run of word characters. */
  ghost predicate IsSpan(text: string, s: Span) {
    && s.q < s.eq <= |text|
    && (forall i :: s.q <= i < s.eq ==> IsWord(text[i]))
    && (s.eq < |text| ==> !IsWord(text[s.eq]))
  }

  ghost predicate AreSpans(text: string, ss: seq<Span>) {
    forall i :: 0 <= i < |ss| ==> IsSpan(text, ss[i])
  }

  ghost predicate AreRedirSpans(text: string, rs: seq<RedirSpan>) {
    forall i :: 0 <= i < |rs| ==> IsSpan(text, rs[i].file)
  }

  /** Every word of the tree is a maximal run of word characters of the line. */
  ghost predicate Delimited(text: string, n: Node) {
    match n
    case ExecNode(argv) => AreSpans(text, argv)
    case RedirNode(cmd, file, _) => Delimited(text, cmd) && IsSpan(text, file)
    case PipeNode(l, r) => Delimited(text, l) && Delimited(text, r)
    case ListNode(l, r) => Delimited(text, l) && Delimited(text, r)
    case BackNode(cmd) => Delimited(text, cmd)
  }

  function Text(text: string, s: Span): string {
    if s.q <= s.eq <= |text| then text[s.q..s.eq] else []
  }

  function Texts(text: string, ss: seq<Span>): (r: seq<string>)
    ensures |r| == |ss|
  {
    seq(|ss|, i requires 0 <= i < |ss| => Text(text, ss[i]))
  }

  function Redirections(text: string, rs: seq<RedirSpan>): (r: seq<Redirection>)
    ensures |r| == |rs|
  {
    seq(|rs|, i requires 0 <= i < |rs| => Redirection(Text(text, rs[i].file), rs[i].mode))
  }

  /** The command tree that a tree of pointers stands for. */
  function Tree(text: string, n: Node): Cmd {
    match n
    case ExecNode(argv) => Exec(Texts(text, argv))
    case RedirNode(cmd, file, mode) => Redir(Tree(text, cmd), Text(text, file), mode)
    case PipeNode(l, r) => Pipe(Tree(text, l), Tree(text, r))
    case ListNode(l, r) => List(Tree(text, l), Tree(text, r))
    case BackNode(cmd) => Back(Tree(text, cmd))
  }

  lemma DropDrop(text: string, a: nat, b: nat)
    requires a + b <= |text|
    ensures text[a..][b..] == text[a + b..]
  {
  }

  lemma DropTake(text: string, a: nat, n: nat)
    requires a + n <= |text|
    ensures text[a..][..n] == text[a..a + n]
  {
  }

  datatype Lexeme = Lexeme(kind: char, length: nat)

  /** The token that starts right here. */
  function TokenHere(s: string): (r: Lexeme)
    ensures r.length <= |s|
  {
    if s == [] || s[0] == '\0' then Lexeme('\0', 0)
    else if IsOp(s[0]) then Lexeme(s[0], 1)
    else if s[0] == '>' then if |s| > 1 && s[1] == '>' then Lexeme('+', 2) else Lexeme('>', 1)
    else Lexeme('a', WordLength(s))
  }

  lemma TokenSplit(t: string)
    ensures var here := TokenHere(Skip(t));
            ShellParser.GetToken(t) == Token(here.kind, here.length, Skip(Skip(t)[here.length..]))
  {
  }

  lemma SkipSkip(t: string)
    ensures Skip(Skip(t)) == Skip(t)
  {
  }

  lemma SpanHere(text: string, q: nat)
    requires q <= |text| && Skip(text[q..]) == text[q..]
    ensures var here := TokenHere(text[q..]);
            here.kind == 'a' ==> IsSpan(text, Span(q, q + here.length))
  {
    var s := text[q..];
    assert forall i :: 0 <= i < |s| ==> s[i] == text[q + i];
  }

  class Parser {
    const text: string
    var ps: nat

    constructor (text: string)
      ensures this.text == text && ps == 0
    {
      this.text := text;
      ps := 0;
    }

    /** The remaining input. */
    function Rest(): string
      reads this
    {
      if ps <= |text| then text[ps..] else []
    }

    /** The loops of gettoken and peek over white space. */
    method SkipSpaces()
      requires ps <= |text|
      modifies this
      ensures old(ps) <= ps <= |text| && Rest() == Skip(old(Rest()))
    {
      while ps < |text| && IsSpace(text[ps])
        invariant old(ps) <= ps <= |text| && Skip(Rest()) == Skip(old(Rest()))
      {
        DropDrop(text, ps, 1);
        ps := ps + 1;
      }
    }

    /** The loop of gettoken over the characters of a word. */
    method SkipWord()
      requires ps <= |text|
      modifies this
      ensures old(ps) <= ps <= |text| && ps == old(ps) + WordLength(old(Rest()))
    {
      while ps < |text| && IsWord(text[ps])
        invariant old(ps) <= ps <= |text|
        invariant WordLength(old(Rest())) == ps - old(ps) + WordLength(Rest())
      {
        DropDrop(text, ps, 1);
        ps := ps + 1;
      }
    }

    /** The switch of gettoken. */
    method Scan() returns (kind: char)
      requires ps <= |text|
      modifies this
      ensures kind == TokenHere(old(Rest())).kind && ps == old(ps) + TokenHere(old(Rest())).length
    {
      if ps == |text| || text[ps] == '\0' {
        kind := '\0';
      } else if IsOp(text[ps]) {
        kind := text[ps];
        ps := ps + 1;
      } else if text[ps] == '>' {
        kind := '>';
        ps := ps + 1;
        if ps < |text| && text[ps] == '>' {
          kind := '+';
          ps := ps + 1;
        }
      } else {
        kind := 'a';
        SkipWord();
      }
    }

    /** gettoken */
    method GetToken() returns (kind: char, word: Span)
      requires ps <= |text|
      modifies this
      ensures old(ps) <= ps <= |text|
      ensures var t := ShellParser.GetToken(old(Rest()));
              && kind == t.kind && Rest() == t.rest
              && word.eq == word.q + t.length <= |text|
              && t.length <= |Skip(old(Rest()))| && text[word.q..word.eq] == Skip(old(Rest()))[..t.length]
      ensures kind == 'a' ==> IsSpan(text, word)
      ensures kind != '\0' ==> old(ps) < ps
    {
      hide IsSpan, TokenHere, Skip, ShellParser.GetToken;
      TokenSplit(Rest());
      SkipSkip(Rest());
      SkipSpaces();
      var q := ps;
      SpanHere(text, q);
      kind := Scan();
      word := Span(q, ps);
      DropDrop(text, q, ps - q);
      DropTake(text, q, ps - q);
      SkipSpaces();
    }

    /** peek */
    method Peek(toks: set<char>) returns (b: bool)
      requires ps <= |text|
      modifies this
      ensures old(ps) <= ps <= |text| && Rest() == Skip(old(Rest()))
      ensures b == ShellParser.Peek(old(Rest()), toks)
      ensures b == (ps < |text| && text[ps] in toks)
    {
      SkipSpaces();
      b := ps < |text| && text[ps] in toks;
    }

    /** parseredirs: the redirections read, in order. */
    method ParseRedirs() returns (r: Option<seq<RedirSpan>>)
      requires ps <= |text|
      modifies this
      ensures old(ps) <= ps <= |text|
      ensures var spec := ShellParser.ParseRedirs(old(Rest()));
              && (r.None? <==> spec.Panic?)
              && (r.Some? ==> AreRedirSpans(text, r.value) && spec == Ok(Redirections(text, r.value), Rest()))
    {
      hide Skip, ShellParser.Peek, ShellParser.GetToken, ShellParser.ParseRedirs, IsSpan, AreRedirSpans, Redirections, Prefixed;
      var reds := [];
      ghost var spec := ShellParser.ParseRedirs(Rest());
      PeekSkips(Rest(), {'<', '>'});
      NoRedirs(text, spec);
      var more := Peek({'<', '>'});
      while more
        invariant old(ps) <= ps <= |text| && AreRedirSpans(text, reds)
        invariant more == ShellParser.Peek(Rest(), {'<', '>'}) && Rest() == Skip(Rest())
        invariant spec == Prefixed(Redirections(text, reds), ShellParser.ParseRedirs(Rest()))
        decreases |text| - ps
      {
        ghost var here := Rest();
        var op, _ := GetToken();
        var kind, file := GetToken();
        if kind != 'a' {
          NoFile(here, Redirections(text, reds));
          return None;
        }
        RedirsStep(here);
        var red := RedirSpan(file, if op == '<' then In else Out);
        Extend(text, reds, red);
        SpanText(text, file);
        PrefixedMore(Redirections(text, reds), Redirection(Text(text, file), red.mode), ShellParser.ParseRedirs(Rest()));
        reds := reds + [red];
        PeekSkips(Rest(), {'<', '>'});
        more := Peek({'<', '>'});
      }
      LastRedir(Redirections(text, reds), Rest());
      return Some(reds);
    }

    /** Where the argument loop of parseexec stands. */
    ghost predicate ReadSoFar(spec: Parse<Simple>, argv: seq<Span>, reds: seq<RedirSpan>)
      reads this
    {
      && AreSpans(text, argv) && AreRedirSpans(text, reds) && |argv| < MAXARGS && Rest() == Skip(Rest())
      && spec == WithArgs(Texts(text, argv), Redirections(text, reds), ShellParser.ParseArgs(Rest(), |argv|))
    }

    /** One turn of the argument loop: an argument and the redirections after it, or the end
        of the line, or a panic. */
    method ArgTurn(argv: seq<Span>, reds: seq<RedirSpan>, ghost spec: Parse<Simple>)
      returns (ok: bool, more: bool, argv': seq<Span>, reds': seq<RedirSpan>)
      requires ps <= |text| && ReadSoFar(spec, argv, reds) && !ShellParser.Peek(Rest(), {'|', ')', '&', ';'})
      modifies this
      ensures old(ps) <= ps <= |text|
      ensures !ok ==> spec.Panic?
      ensures ok && !more ==> AreSpans(text, argv') && AreRedirSpans(text, reds') &&
                              spec == Ok(Simple(Texts(text, argv'), Redirections(text, reds')), Rest())
      ensures ok && more ==> old(ps) < ps && ReadSoFar(spec, argv', reds')
    {
      hide Skip, ShellParser.Peek, ShellParser.GetToken, ShellParser.ParseRedirs, ShellParser.ParseArgs;
      hide IsSpan, AreRedirSpans, AreSpans, Redirections, Texts, WithArgs;
      ghost var here := Rest();
      argv', reds' := argv, reds;
      var kind, word := GetToken();
      if kind == '\0' {
        LastArg(text, argv, reds, here);
        return true, false, argv', reds';
      }
      if kind != 'a' || |argv| + 1 >= MAXARGS {
        BadArg(here, Texts(text, argv), Redirections(text, reds), |argv|);
        return false, false, argv', reds';
      }
      var rs := ParseRedirs();
      if rs.None? {
        BadRedir(here, Texts(text, argv), Redirections(text, reds), |argv|);
        return false, false, argv', reds';
      }
      ArgsStep(here, |argv|);
      SpanText(text, word);
      ExtendArgs(text, argv, word, reds, rs.value, ShellParser.ParseArgs(Rest(), |argv| + 1));
      ArgsSkip(Rest(), |argv| + 1);
      SkipSpaces();
      return true, true, argv + [word], reds + rs.value;
    }

    /** The argument loop of parseexec. */
    method ParseArgs() returns (r: Option<(seq<Span>, seq<RedirSpan>)>)
      requires ps <= |text|
      modifies this
      ensures old(ps) <= ps <= |text|
      ensures var spec := ShellParser.ParseArgs(old(Rest()), 0);
              && (r.None? <==> spec.Panic?)
              && (r.Some? ==> AreSpans(text, r.value.0) && AreRedirSpans(text, r.value.1) &&
                              spec == Ok(Simple(Texts(text, r.value.0), Redirections(text, r.value.1)), Rest()))
    {
      hide Skip, ShellParser.Peek, ShellParser.GetToken, ShellParser.ParseRedirs, ShellParser.ParseArgs;
      hide IsSpan, AreRedirSpans, AreSpans, Redirections, Texts, WithArgs;
      var argv, reds: seq<RedirSpan> := [], [];
      ghost var spec := ShellParser.ParseArgs(Rest(), 0);
      ArgsSkip(Rest(), 0);
      NoArgs(text, spec);
      var stop := Peek({'|', ')', '&', ';'});
      while !stop
        invariant old(ps) <= ps <= |text| && ReadSoFar(spec, argv, reds)
        invariant stop == ShellParser.Peek(Rest(), {'|', ')', '&', ';'})
        decreases |text| - ps
      {
        var ok, more;
        ok, more, argv, reds := ArgTurn(argv, reds, spec);
        if !ok {
          return None;
        }
        if !more {
          return Some((argv, reds));
        }
        ArgsSkip(Rest(), |argv|);
        stop := Peek({'|', ')', '&', ';'});
      }
      LastArg(text, argv, reds, Rest());
      return Some((argv, reds));
    }

    /** parseexec */
    method ParseExec() returns (r: Option<Node>)
      requires ps <= |text|
      modifies this
      ensures old(ps) <= ps <= |text| && Matches(text, ShellParser.ParseExec(old(Rest())), r, Rest())
      decreases |text| - ps, 2
    {
      hide Skip, ShellParser.Peek, ShellParser.GetToken, ShellParser.ParseRedirs, ShellParser.ParseArgs, ShellParser.ParseBlock;
      ghost var t := Rest();
      PeekSkips(t, {'('});
      ExecSkip(t);
      var paren := Peek({'('});
      if paren {
        r := ParseBlock();
        return;
      }
      var reds := ParseRedirs();
      if reds.None? {
        return None;
      }
      var args := ParseArgs();
      if args.None? {
        return None;
      }
      hide Redirections, Texts, AreSpans, AreRedirSpans;
      var all := reds.value + args.value.1;
      RedirsAppend(text, reds.value, args.value.1);
      WrapTree(text, ExecNode(args.value.0), all);
      return Some(WrapNode(ExecNode(args.value.0), all));
    }

    /** parseblock */
    method ParseBlock() returns (r: Option<Node>)
      requires ps <= |text|
      modifies this
      ensures old(ps) <= ps <= |text| && Matches(text, ShellParser.ParseBlock(old(Rest())), r, Rest())
      decreases |text| - ps, 1
    {
      hide Skip, ShellParser.GetToken, ShellParser.ParseRedirs, ShellParser.ParseLine;
      ghost var t := Rest();
      var paren := Peek({'('});
      if !paren {
        return None;
      }
      PeekSkips(t, {'('});
      OpenToken(Rest());
      var _, _ := GetToken();
      var inner := ParseLine();
      if inner.None? {
        return None;
      }
      ghost var close := Rest();
      PeekSkips(close, {')'});
      var ok := Peek({')'});
      if !ok {
        return None;
      }
      var _, _ := GetToken();
      var reds := ParseRedirs();
      if reds.None? {
        return None;
      }
      hide Redirections, AreRedirSpans;
      WrapTree(text, inner.value, reds.value);
      return Some(WrapNode(inner.value, reds.value));
    }

    /** parsepipe */
    method ParsePipe() returns (r: Option<Node>)
      requires ps <= |text|
      modifies this
      ensures old(ps) <= ps <= |text| && Matches(text, ShellParser.ParsePipe(old(Rest())), r, Rest())
      decreases |text| - ps, 3
    {
      hide Skip, ShellParser.Peek, ShellParser.GetToken, ShellParser.ParseExec;
      var left := ParseExec();
      if left.None? {
        return None;
      }
      ghost var t := Rest();
      PeekSkips(t, {'|'});
      var bar := Peek({'|'});
      if !bar {
        return left;
      }
      OpenToken(Rest());
      var _, _ := GetToken();
      var right := ParsePipe();
      if right.None? {
        return None;
      }
      return Some(PipeNode(left.value, right.value));
    }

    /** parseline */
    method ParseLine() returns (r: Option<Node>)
      requires ps <= |text|
      modifies this
      ensures old(ps) <= ps <= |text| && Matches(text, ShellParser.ParseLine(old(Rest())), r, Rest())
      decreases |text| - ps, 4
    {
      hide Skip, ShellParser.Peek, ShellParser.GetToken, ShellParser.ParsePipe, ShellParser.ParseBacks, ShellParser.ParseLine;
      ghost var t := Rest();
      var first := ParsePipe();
      LineSteps(t);
      if first.None? {
        return None;
      }
      var cmd := ParseAmps(first.value);
      hide Delimited, Tree;
      r := LineTail(cmd);
    }

    /** parseline from the semicolon on. */
    method LineTail(cmd: Node) returns (r: Option<Node>)
      requires ps <= |text| && Delimited(text, cmd) && Skip(Rest()) == Rest()
      modifies this
      ensures old(ps) <= ps <= |text| && Matches(text, TailSpec(Tree(text, cmd), old(Rest())), r, Rest())
      decreases |text| - ps, 3
    {
      hide Skip, ShellParser.Peek, ShellParser.GetToken, ShellParser.ParseLine;
      var semi := Peek({';'});
      if !semi {
        return Some(cmd);
      }
      OpenToken(Rest());
      var _, _ := GetToken();
      var right := ParseLine();
      if right.None? {
        return None;
      }
      return Some(ListNode(cmd, right.value));
    }

    /** The & loop of parseline. */
    method ParseAmps(first: Node) returns (cmd: Node)
      requires ps <= |text| && Delimited(text, first)
      modifies this
      ensures old(ps) <= ps <= |text| && Delimited(text, cmd) && Skip(Rest()) == Rest()
      ensures ShellParser.ParseBacks(Tree(text, first), old(Rest())) == Ok(Tree(text, cmd), Rest())
    {
      hide Skip, ShellParser.Peek, ShellParser.GetToken, ShellParser.ParseBacks;
      cmd := first;
      ghost var spec := ShellParser.ParseBacks(Tree(text, cmd), Rest());
      PeekSkips(Rest(), {'&'});
      BacksSkip(Tree(text, cmd), Rest());
      var amp := Peek({'&'});
      while amp
        invariant old(ps) <= ps <= |text| && Delimited(text, cmd) && Rest() == Skip(Rest())
        invariant amp == ShellParser.Peek(Rest(), {'&'}) && (amp ==> ps < |text| && text[ps] == '&')
        invariant spec == ShellParser.ParseBacks(Tree(text, cmd), Rest())
        decreases |text| - ps
      {
        OpenToken(Rest());
        BacksSkip(Tree(text, cmd), Rest());
        var _, _ := GetToken();
        cmd := BackNode(cmd);
        PeekSkips(Rest(), {'&'});
        BacksSkip(Tree(text, cmd), Rest());
        amp := Peek({'&'});
      }
      BacksSkip(Tree(text, cmd), Rest());
    }
  }

  lemma NoRedirs(text: string, p: Parse<seq<Redirection>>)
    ensures AreRedirSpans(text, []) && Prefixed(Redirections(text, []), p) == p
  {
    assert p.Ok? ==> [] + p.value == p.value;
  }

  lemma NoFile(t: string, rs: seq<Redirection>)
    requires ShellParser.Peek(t, {'<', '>'}) && ShellParser.GetToken(ShellParser.GetToken(t).rest).kind != 'a'
    ensures Prefixed(rs, ShellParser.ParseRedirs(t)).Panic?
  {
  }

  lemma LastRedir(rs: seq<Redirection>, t: string)
    requires !ShellParser.Peek(t, {'<', '>'}) && Skip(t) == t
    ensures Prefixed(rs, ShellParser.ParseRedirs(t)) == Ok(rs, t)
  {
    assert rs + [] == rs;
  }

  lemma SpanText(text: string, s: Span)
    requires IsSpan(text, s)
    ensures Text(text, s) == text[s.q..s.eq]
  {
  }

  function Prefixed(rs: seq<Redirection>, p: Parse<seq<Redirection>>): Parse<seq<Redirection>> {
    if p.Panic? then Panic else Ok(rs + p.value, p.rest)
  }

  lemma PrefixedMore(rs: seq<Redirection>, r: Redirection, p: Parse<seq<Redirection>>)
    ensures Prefixed(rs, if p.Panic? then Panic else Ok([r] + p.value, p.rest)) == Prefixed(rs + [r], p)
  {
    if p.Ok? {
      assert rs + ([r] + p.value) == rs + [r] + p.value;
    }
  }

  lemma Extend(text: string, rs: seq<RedirSpan>, r: RedirSpan)
    requires AreRedirSpans(text, rs) && IsSpan(text, r.file)
    ensures AreRedirSpans(text, rs + [r])
    ensures Redirections(text, rs + [r]) == Redirections(text, rs) + [Redirection(Text(text, r.file), r.mode)]
  {
  }

  /** Skipping white space first changes nothing. */
  lemma PeekSkips(t: string, toks: set<char>)
    ensures Skip(Skip(t)) == Skip(t)
    ensures ShellParser.Peek(Skip(t), toks) == ShellParser.Peek(t, toks)
    ensures ShellParser.GetToken(Skip(t)) == ShellParser.GetToken(t)
    ensures ShellParser.ParseRedirs(Skip(t)) == ShellParser.ParseRedirs(t)
  {
    SkipSkip(t);
  }

  function WithArgs(argv: seq<string>, rs: seq<Redirection>, p: Parse<Simple>): Parse<Simple> {
    if p.Panic? then Panic else Ok(Simple(argv + p.value.argv, rs + p.value.redirs), p.rest)
  }

  lemma NoArgs(text: string, p: Parse<Simple>)
    ensures AreSpans(text, []) && AreRedirSpans(text, []) && WithArgs(Texts(text, []), Redirections(text, []), p) == p
  {
    assert p.Ok? ==> [] + p.value.argv == p.value.argv && [] + p.value.redirs == p.value.redirs;
  }

  lemma ArgsSkip(t: string, argc: nat)
    ensures Skip(Skip(t)) == Skip(t)
    ensures ShellParser.ParseArgs(Skip(t), argc) == ShellParser.ParseArgs(t, argc)
    ensures ShellParser.Peek(Skip(t), {'|', ')', '&', ';'}) == ShellParser.Peek(t, {'|', ')', '&', ';'})
  {
    PeekSkips(t, {'|', ')', '&', ';'});
  }

  /** The loop ends at a stop symbol or at the end of the line. */
  lemma LastArg(text: string, argv: seq<Span>, reds: seq<RedirSpan>, t: string)
    requires Skip(t) == t && (ShellParser.Peek(t, {'|', ')', '&', ';'}) || ShellParser.GetToken(t).kind == '\0')
    ensures var rest := if ShellParser.Peek(t, {'|', ')', '&', ';'}) then t else ShellParser.GetToken(t).rest;
            WithArgs(Texts(text, argv), Redirections(text, reds), ShellParser.ParseArgs(t, |argv|))
            == Ok(Simple(Texts(text, argv), Redirections(text, reds)), rest)
  {
    assert Texts(text, argv) + [] == Texts(text, argv);
    assert Redirections(text, reds) + [] == Redirections(text, reds);
  }

  lemma BadArg(t: string, argv: seq<string>, rs: seq<Redirection>, argc: nat)
    requires !ShellParser.Peek(t, {'|', ')', '&', ';'}) && ShellParser.GetToken(t).kind != '\0'
    requires ShellParser.GetToken(t).kind != 'a' || argc + 1 >= MAXARGS
    ensures WithArgs(argv, rs, ShellParser.ParseArgs(t, argc)).Panic?
  {
  }

  lemma BadRedir(t: string, argv: seq<string>, rs: seq<Redirection>, argc: nat)
    requires !ShellParser.Peek(t, {'|', ')', '&', ';'}) && ShellParser.GetToken(t).kind == 'a' && argc + 1 < MAXARGS
    requires ShellParser.ParseRedirs(ShellParser.GetToken(t).rest).Panic?
    ensures WithArgs(argv, rs, ShellParser.ParseArgs(t, argc)).Panic?
  {
  }

  lemma ExtendArgs(text: string, argv: seq<Span>, word: Span, reds: seq<RedirSpan>, more: seq<RedirSpan>, p: Parse<Simple>)
    requires AreSpans(text, argv) && IsSpan(text, word) && AreRedirSpans(text, reds) && AreRedirSpans(text, more)
    ensures AreSpans(text, argv + [word]) && AreRedirSpans(text, reds + more)
    ensures WithArgs(Texts(text, argv), Redirections(text, reds),
                     if p.Panic? then Panic
                     else Ok(Simple([Text(text, word)] + p.value.argv, Redirections(text, more) + p.value.redirs), p.rest))
            == WithArgs(Texts(text, argv + [word]), Redirections(text, reds + more), p)
  {
    assert Texts(text, argv + [word]) == Texts(text, argv) + [Text(text, word)];
    RedirsAppend(text, reds, more);
    if p.Ok? {
      assert Texts(text, argv) + ([Text(text, word)] + p.value.argv) == Texts(text, argv) + [Text(text, word)] + p.value.argv;
      assert Redirections(text, reds) + (Redirections(text, more) + p.value.redirs)
          == Redirections(text, reds) + Redirections(text, more) + p.value.redirs;
    }
  }

  lemma RedirsAppend(text: string, a: seq<RedirSpan>, b: seq<RedirSpan>)
    requires AreRedirSpans(text, a) && AreRedirSpans(text, b)
    ensures AreRedirSpans(text, a + b) && Redirections(text, a + b) == Redirections(text, a) + Redirections(text, b)
  {
  }

  function WrapNode(n: Node, rs: seq<RedirSpan>): Node
    decreases |rs|
  {
    if rs == [] then n else WrapNode(RedirNode(n, rs[0].file, rs[0].mode), rs[1..])
  }

  lemma {:induction false} WrapTree(text: string, n: Node, rs: seq<RedirSpan>)
    requires Delimited(text, n) && AreRedirSpans(text, rs)
    ensures Delimited(text, WrapNode(n, rs)) && Tree(text, WrapNode(n, rs)) == Wrap(Tree(text, n), Redirections(text, rs))
    decreases |rs|
  {
    if rs != [] {
      WrapTree(text, RedirNode(n, rs[0].file, rs[0].mode), rs[1..]);
      assert Redirections(text, rs)[1..] == Redirections(text, rs[1..]);
    }
  }

  /** A parsing method does what the parsing function says. */
  ghost predicate Matches(text: string, spec: Parse<Cmd>, r: Option<Node>, rest: string) {
    && (r.None? <==> spec.Panic?)
    && (r.Some? ==> Delimited(text, r.value) && spec == Ok(Tree(text, r.value), rest))
  }

  lemma ExecSkip(t: string)
    ensures ShellParser.ParseExec(Skip(t)) == ShellParser.ParseExec(t)
    ensures ShellParser.ParseBlock(Skip(t)) == ShellParser.ParseBlock(t)
  {
    PeekSkips(t, {'('});
  }

  lemma BacksSkip(c: Cmd, t: string)
    ensures ShellParser.ParseBacks(c, Skip(t)) == ShellParser.ParseBacks(c, t)
    ensures ShellParser.ParseBacks(c, t) ==
            if ShellParser.Peek(t, {'&'}) then ShellParser.ParseBacks(Back(c), ShellParser.GetToken(t).rest) else Ok(c, Skip(t))
  {
    PeekSkips(t, {'&'});
  }

  /** parseline, one step. */
  function TailSpec(left: Cmd, t: string): Parse<Cmd> {
    if !ShellParser.Peek(t, {';'}) then Ok(left, Skip(t))
    else
      var right := ShellParser.ParseLine(ShellParser.GetToken(t).rest);
      if right.Panic? then Panic else Ok(List(left, right.value), right.rest)
  }

  lemma LineSteps(t: string)
    ensures var first := ShellParser.ParsePipe(t);
            ShellParser.ParseLine(t) ==
            if first.Panic? then Panic
            else
              var left := ShellParser.ParseBacks(first.value, first.rest);
              TailSpec(left.value, left.rest)
  {
  }

  lemma OpenToken(t: string)
    requires t != [] && IsOp(t[0])
    ensures ShellParser.GetToken(t).kind != '\0'
  {
    TokenOp(t);
  }

  // nulterminate.

  function Ends(ss: seq<Span>): set<nat> {
    set i | 0 <= i < |ss| :: ss[i].eq
  }

  /** Where nulterminate writes. */
  function CutsOf(n: Node): set<nat> {
    match n
    case ExecNode(argv) => Ends(argv)
    case RedirNode(cmd, file, _) => CutsOf(cmd) + {file.eq}
    case PipeNode(l, r) => CutsOf(l) + CutsOf(r)
    case ListNode(l, r) => CutsOf(l) + CutsOf(r)
    case BackNode(cmd) => CutsOf(cmd)
  }

  ghost predicate CutAt(before: seq<char>, after: seq<char>, cuts: set<nat>) {
    && |after| == |before|
    && forall k :: 0 <= k < |before| ==> after[k] == if k in cuts then '\0' else before[k]
  }

  /** The C string at position q. */
  function CString(buf: seq<char>, q: nat): string
    decreases |buf| - q
  {
    if q < |buf| && buf[q] != '\0' then [buf[q]] + CString(buf, q + 1) else []
  }

  method NulTerminateExec(buf: array<char>, argv: seq<Span>)
    requires forall i :: 0 <= i < |argv| ==> argv[i].eq < buf.Length
    modifies buf
    ensures CutAt(old(buf[..]), buf[..], Ends(argv))
  {
    var i := 0;
    while i < |argv|
      invariant 0 <= i <= |argv|
      invariant CutAt(old(buf[..]), buf[..], Ends(argv[..i]))
    {
      ghost var before := buf[..];
      buf[argv[i].eq] := '\0';
      assert Ends(argv[..i + 1]) == Ends(argv[..i]) + {argv[i].eq} by {
        EndsStep(argv, i);
      }
      i := i + 1;
    }
    assert argv[..i] == argv;
  }

  lemma EndsStep(argv: seq<Span>, i: nat)
    requires i < |argv|
    ensures Ends(argv[..i + 1]) == Ends(argv[..i]) + {argv[i].eq}
  {
    forall x | x in Ends(argv[..i + 1]) ensures x in Ends(argv[..i]) + {argv[i].eq} {
      var k :| 0 <= k < i + 1 && argv[..i + 1][k].eq == x;
      assert k < i ==> argv[..i][k].eq == x;
    }
    forall x | x in Ends(argv[..i]) + {argv[i].eq} ensures x in Ends(argv[..i + 1]) {
      if x != argv[i].eq {
        var k :| 0 <= k < i && argv[..i][k].eq == x;
        assert argv[..i + 1][k].eq == x;
      } else {
        assert argv[..i + 1][i].eq == x;
      }
    }
  }

  lemma CutTwice(a: seq<char>, b: seq<char>, c: seq<char>, s: set<nat>, t: set<nat>)
    requires CutAt(a, b, s) && CutAt(b, c, t)
    ensures CutAt(a, c, s + t)
  {
  }

  ghost predicate Within(n: Node, length: nat) {
    forall k :: k in CutsOf(n) ==> k < length
  }

  lemma WithinParts(n: Node, length: nat)
    requires Within(n, length)
    ensures n.PipeNode? ==> Within(n.left, length) && Within(n.right, length)
    ensures n.ListNode? ==> Within(n.left, length) && Within(n.right, length)
    ensures n.BackNode? ==> Within(n.cmd, length)
    ensures n.RedirNode? ==> Within(n.cmd, length) && n.file.eq < length
  {
    if n.PipeNode? || n.ListNode? {
      assert CutsOf(n) == CutsOf(n.left) + CutsOf(n.right);
    } else if n.BackNode? {
      assert CutsOf(n) == CutsOf(n.cmd);
    } else if n.RedirNode? {
      assert CutsOf(n) == CutsOf(n.cmd) + {n.file.eq};
    }
  }

  /** nulterminate: a NUL at the end of every word of the tree, and nowhere else. */
  method NulTerminate(buf: array<char>, n: Node)
    requires Within(n, buf.Length)
    modifies buf
    ensures CutAt(old(buf[..]), buf[..], CutsOf(n))
    decreases n
  {
    ghost var before := buf[..];
    WithinParts(n, buf.Length);
    match n
    case ExecNode(argv) =>
      forall i | 0 <= i < |argv| ensures argv[i].eq < buf.Length {
        assert argv[i].eq in CutsOf(n);
      }
      NulTerminateExec(buf, argv);
    case RedirNode(cmd, file, _) =>
      NulTerminate(buf, cmd);
      buf[file.eq] := '\0';
    case PipeNode(l, r) =>
      NulTerminate(buf, l);
      ghost var mid := buf[..];
      NulTerminate(buf, r);
      CutTwice(before, mid, buf[..], CutsOf(l), CutsOf(r));
    case ListNode(l, r) =>
      NulTerminate(buf, l);
      ghost var mid := buf[..];
      NulTerminate(buf, r);
      CutTwice(before, mid, buf[..], CutsOf(l), CutsOf(r));
    case BackNode(cmd) =>
      NulTerminate(buf, cmd);
  }

  /** The command tree read off the buffer, each word as a C string. */
  function CTree(buf: seq<char>, n: Node): Cmd {
    match n
    case ExecNode(argv) => Exec(seq(|argv|, i requires 0 <= i < |argv| => CString(buf, argv[i].q)))
    case RedirNode(cmd, file, mode) => Redir(CTree(buf, cmd), CString(buf, file.q), mode)
    case PipeNode(l, r) => Pipe(CTree(buf, l), CTree(buf, r))
    case ListNode(l, r) => List(CTree(buf, l), CTree(buf, r))
    case BackNode(cmd) => Back(CTree(buf, cmd))
  }

  /** No cut falls inside a word. */
  ghost predicate BetweenWords(text: string, cuts: set<nat>) {
    forall k :: k in cuts ==> k <= |text| && (k < |text| ==> !IsWord(text[k]))
  }

  lemma {:induction false} CutsBetweenWords(text: string, n: Node)
    requires Delimited(text, n)
    ensures BetweenWords(text, CutsOf(n))
  {
    match n
    case ExecNode(argv) =>
    case RedirNode(cmd, file, _) => CutsBetweenWords(text, cmd);
    case PipeNode(l, r) =>
      CutsBetweenWords(text, l);
      CutsBetweenWords(text, r);
    case ListNode(l, r) =>
      CutsBetweenWords(text, l);
      CutsBetweenWords(text, r);
    case BackNode(cmd) => CutsBetweenWords(text, cmd);
  }

  lemma {:induction false} CStringIsWord(text: string, buf: seq<char>, cuts: set<nat>, q: nat, eq: nat)
    requires q <= eq <= |text| && eq in cuts && '\0' !in text
    requires CutAt(text + ['\0'], buf, cuts) && BetweenWords(text, cuts)
    requires forall i :: q <= i < eq ==> IsWord(text[i])
    ensures CString(buf, q) == text[q..eq]
    decreases eq - q
  {
    if q < eq {
      CStringIsWord(text, buf, cuts, q + 1, eq);
      assert buf[q] == text[q] && text[q] in text;
      assert text[q..eq] == [text[q]] + text[q + 1..eq];
    }
  }

  /** After nulterminate, every pointer of the tree reads as exactly its word. */
  lemma {:induction false} WordsCutOut(text: string, buf: seq<char>, cuts: set<nat>, n: Node)
    requires Delimited(text, n) && CutsOf(n) <= cuts && '\0' !in text
    requires CutAt(text + ['\0'], buf, cuts) && BetweenWords(text, cuts)
    ensures CTree(buf, n) == Tree(text, n)
    decreases n
  {
    match n
    case ExecNode(argv) =>
      forall i | 0 <= i < |argv| ensures CString(buf, argv[i].q) == Text(text, argv[i]) {
        assert IsSpan(text, argv[i]) && argv[i].eq in Ends(argv);
        CStringIsWord(text, buf, cuts, argv[i].q, argv[i].eq);
      }
    case RedirNode(cmd, file, _) =>
      WordsCutOut(text, buf, cuts, cmd);
      CStringIsWord(text, buf, cuts, file.q, file.eq);
    case PipeNode(l, r) =>
      WordsCutOut(text, buf, cuts, l);
      WordsCutOut(text, buf, cuts, r);
    case ListNode(l, r) =>
      WordsCutOut(text, buf, cuts, l);
      WordsCutOut(text, buf, cuts, r);
    case BackNode(cmd) =>
      WordsCutOut(text, buf, cuts, cmd);
  }

  /** parsecmd on a NUL-terminated line: it stops the shell exactly when the parsing function
      does, and otherwise leaves in the buffer, as C strings, exactly the parsed words. */
  method ParseCommand(buf: array<char>) returns (r: Option<Node>)
    requires buf.Length > 0 && buf[buf.Length - 1] == '\0'
    requires forall i :: 0 <= i < buf.Length - 1 ==> buf[i] != '\0'
    modifies buf
    ensures var spec := ParseCmd(old(buf[..buf.Length - 1]));
            && (r.None? <==> spec.Panic?)
            && (r.Some? ==> CTree(buf[..], r.value) == spec.value)
  {
    hide Skip, ShellParser.ParseLine, Tree, CTree, CString;
    var text := buf[..buf.Length - 1];
    ghost var before := buf[..];
    assert before == text + ['\0'];
    var parser := new Parser(text);
    assert parser.Rest() == text;
    r := parser.ParseLine();
    if r.None? {
      return;
    }
    var _ := parser.Peek({});
    if parser.ps != |text| {
      return None;
    }
    CutsBetweenWords(text, r.value);
    NulTerminate(buf, r.value);
    WordsCutOut(text, buf[..], CutsOf(r.value), r.value);
  }
}
