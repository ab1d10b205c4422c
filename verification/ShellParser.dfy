/** The shell's parser (HW3/sh.c) as functions from the remaining input to a
    command tree and what is left, and a printer whose output it parses back. */
module ShellParser {
  datatype Mode = In | Out  // (O_RDONLY, fd 0) and (O_WRONLY|O_CREATE, fd 1)

  datatype Cmd =
    | Exec(argv: seq<string>)
    | Redir(cmd: Cmd, file: string, mode: Mode)
    | Pipe(left: Cmd, right: Cmd)
    | List(left: Cmd, right: Cmd)
    | Back(cmd: Cmd)

  datatype Redirection = Redirection(file: string, mode: Mode)

  /** A parser either stops the shell or yields a value and the rest of the input. */
  datatype Parse<+T> = Ok(value: T, rest: string) | Panic

  const MAXARGS: nat := 10

  predicate IsSpace(c: char) {
    c == ' ' || c == '\t' || c == '\r' || c == '\n' || c == '\U{0B}'
  }

  predicate IsSymbol(c: char) {
    c == '<' || c == '|' || c == '>' || c == '&' || c == ';' || c == '(' || c == ')'
  }

  /** Characters of a word; NUL ends a line and is none. */
  predicate IsWord(c: char) {
    !IsSpace(c) && !IsSymbol(c) && c != '\0'
  }

  /** Symbols that are a token by themselves; > is not, because of >>. */
  predicate IsOp(c: char) {
    IsSymbol(c) && c != '>'
  }

  function Skip(t: string): (r: string)
    ensures |r| <= |t|
    ensures r != [] ==> !IsSpace(r[0])
  {
    if t != [] && IsSpace(t[0]) then Skip(t[1..]) else t
  }

  function WordLength(t: string): (n: nat)
    ensures n <= |t|
    ensures forall i :: 0 <= i < n ==> IsWord(t[i])
    ensures n < |t| ==> !IsWord(t[n])
  {
    if t != [] && IsWord(t[0]) then 1 + WordLength(t[1..]) else 0
  }

  /** gettoken: the token's kind ('a' for a word, '+' for >>, NUL at the end), its
      length, and the input after it and the white space that follows. */
  datatype Token = Token(kind: char, length: nat, rest: string)

  function GetToken(t: string): (r: Token)
    ensures |r.rest| <= |t|
    ensures r.kind != '\0' ==> |r.rest| < |t|
  {
    var s := Skip(t);
    if s == [] || s[0] == '\0' then Token('\0', 0, s)
    else if IsOp(s[0]) then Token(s[0], 1, Skip(s[1..]))
    else if s[0] == '>' then
      if |s| > 1 && s[1] == '>' then Token('+', 2, Skip(s[2..])) else Token('>', 1, Skip(s[1..]))
    else
      var n := WordLength(s);
      Token('a', n, Skip(s[n..]))
  }

  /** peek: does the next token start with one of these characters? */
  predicate Peek(t: string, toks: set<char>) {
    var s := Skip(t);
    s != [] && s[0] in toks
  }

  /** parseredirs: the redirections at the front of the input. */
  function ParseRedirs(t: string): (r: Parse<seq<Redirection>>)
    ensures r.Ok? ==> |r.rest| <= |t|
    decreases |t|
  {
    if !Peek(t, {'<', '>'}) then Ok([], Skip(t))
    else
      var op := GetToken(t);
      var file := GetToken(op.rest);
      if file.kind != 'a' then Panic
      else
        var more := ParseRedirs(file.rest);
        if more.Panic? then Panic
        else
          Ok([Redirection(Skip(op.rest)[..file.length], if op.kind == '<' then In else Out)] + more.value, more.rest)
  }

  function Wrap(c: Cmd, rs: seq<Redirection>): Cmd
    decreases |rs|
  {
    if rs == [] then c else Wrap(Redir(c, rs[0].file, rs[0].mode), rs[1..])
  }

  datatype Simple = Simple(argv: seq<string>, redirs: seq<Redirection>)

  /** The argument loop of parseexec, with `argc` arguments already read. */
  function ParseArgs(t: string, argc: nat): (r: Parse<Simple>)
    ensures r.Ok? ==> |r.rest| <= |t|
    ensures r.Ok? && argc < MAXARGS ==> argc + |r.value.argv| < MAXARGS
    decreases |t|
  {
    if Peek(t, {'|', ')', '&', ';'}) then Ok(Simple([], []), Skip(t))
    else
      var tok := GetToken(t);
      if tok.kind == '\0' then Ok(Simple([], []), tok.rest)
      else if tok.kind != 'a' then Panic
      else if argc + 1 >= MAXARGS then Panic
      else
        var reds := ParseRedirs(tok.rest);
        if reds.Panic? then Panic
        else
          var more := ParseArgs(reds.rest, argc + 1);
          if more.Panic? then Panic
          else Ok(Simple([Skip(t)[..tok.length]] + more.value.argv, reds.value + more.value.redirs), more.rest)
  }

  /** One turn of the argument loop. */
  lemma ArgsStep(t: string, argc: nat)
    requires !Peek(t, {'|', ')', '&', ';'}) && GetToken(t).kind == 'a' && argc + 1 < MAXARGS
    requires ParseRedirs(GetToken(t).rest).Ok?
    ensures GetToken(t).length <= |Skip(t)|
    ensures var reds := ParseRedirs(GetToken(t).rest);
            var more := ParseArgs(reds.rest, argc + 1);
            ParseArgs(t, argc) ==
            if more.Panic? then Panic
            else Ok(Simple([Skip(t)[..GetToken(t).length]] + more.value.argv, reds.value + more.value.redirs), more.rest)
  {
  }

  /** One turn of the redirection loop. */
  lemma RedirsStep(t: string)
    requires Peek(t, {'<', '>'}) && GetToken(GetToken(t).rest).kind == 'a'
    ensures var op := GetToken(t);
            var file := GetToken(op.rest);
            var more := ParseRedirs(file.rest);
            && file.length <= |Skip(op.rest)|
            && ParseRedirs(t) ==
               if more.Panic? then Panic
               else Ok([Redirection(Skip(op.rest)[..file.length], if op.kind == '<' then In else Out)] + more.value, more.rest)
  {
  }

  function ParseExec(t: string): (r: Parse<Cmd>)
    ensures r.Ok? ==> |r.rest| <= |t|
    decreases |t|, 2
  {
    if Peek(t, {'('}) then ParseBlock(t)
    else
      var reds := ParseRedirs(t);
      if reds.Panic? then Panic
      else
        var args := ParseArgs(reds.rest, 0);
        if args.Panic? then Panic
        else Ok(Wrap(Exec(args.value.argv), reds.value + args.value.redirs), args.rest)
  }

  function ParseBlock(t: string): (r: Parse<Cmd>)
    ensures r.Ok? ==> |r.rest| <= |t|
    decreases |t|, 1
  {
    if !Peek(t, {'('}) then Panic
    else
      var inner := ParseLine(GetToken(t).rest);
      if inner.Panic? || !Peek(inner.rest, {')'}) then Panic
      else
        var reds := ParseRedirs(GetToken(inner.rest).rest);
        if reds.Panic? then Panic else Ok(Wrap(inner.value, reds.value), reds.rest)
  }

  function ParsePipe(t: string): (r: Parse<Cmd>)
    ensures r.Ok? ==> |r.rest| <= |t|
    decreases |t|, 3
  {
    var left := ParseExec(t);
    if left.Panic? then Panic
    else if !Peek(left.rest, {'|'}) then Ok(left.value, Skip(left.rest))
    else
      var right := ParsePipe(GetToken(left.rest).rest);
      if right.Panic? then Panic else Ok(Pipe(left.value, right.value), right.rest)
  }

  /** The & loop of parseline. */
  function ParseBacks(c: Cmd, t: string): (r: Parse<Cmd>)
    ensures r.Ok? && |r.rest| <= |t|
    decreases |t|
  {
    if Peek(t, {'&'}) then ParseBacks(Back(c), GetToken(t).rest) else Ok(c, Skip(t))
  }

  function ParseLine(t: string): (r: Parse<Cmd>)
    ensures r.Ok? ==> |r.rest| <= |t|
    decreases |t|, 4
  {
    var first := ParsePipe(t);
    if first.Panic? then Panic
    else
      var left := ParseBacks(first.value, first.rest);
      if !Peek(left.rest, {';'}) then Ok(left.value, Skip(left.rest))
      else
        var right := ParseLine(GetToken(left.rest).rest);
        if right.Panic? then Panic else Ok(List(left.value, right.value), right.rest)
  }

  /** parsecmd: the whole line must be consumed. */
  function ParseCmd(t: string): (r: Parse<Cmd>)
    ensures r.Ok? ==> r.rest == []
  {
    var r := ParseLine(t);
    if r.Panic? || Skip(r.rest) != [] then Panic else Ok(r.value, [])
  }

  // Printing.

  predicate IsToken(w: string) {
    w != [] && forall i :: 0 <= i < |w| ==> IsWord(w[i])
  }

  predicate AreTokens(argv: seq<string>) {
    forall i :: 0 <= i < |argv| ==> IsToken(argv[i])
  }

  predicate AreFiles(rs: seq<Redirection>) {
    forall i :: 0 <= i < |rs| ==> IsToken(rs[i].file)
  }

  /** Trees the parser can build: at most nine arguments, proper words. */
  predicate Printable(c: Cmd) {
    match c
    case Exec(argv) => |argv| < MAXARGS && AreTokens(argv)
    case Redir(cmd, file, _) => Printable(cmd) && IsToken(file)
    case Pipe(l, r) => Printable(l) && Printable(r)
    case List(l, r) => Printable(l) && Printable(r)
    case Back(cmd) => Printable(cmd)
  }

  function PrintArgs(argv: seq<string>): string {
    if argv == [] then [] else argv[0] + " " + PrintArgs(argv[1..])
  }

  /** A parenthesised printing; only a chain of redirections shares its parentheses. */
  function Print(c: Cmd): string
    decreases c, 0
  {
    match c
    case Exec(argv) => PrintArgs(argv)
    case Redir(cmd, file, mode) => (if cmd.Redir? then Print(cmd) else Block(cmd)) + PrintRedir(Redirection(file, mode))
    case Pipe(l, r) => Block(l) + "|" + Block(r)
    case List(l, r) => Block(l) + ";" + Block(r)
    case Back(cmd) => Block(cmd) + "&"
  }

  function Block(c: Cmd): string
    decreases c, 1
  {
    "(" + Print(c) + ")"
  }

  function PrintRedir(r: Redirection): string {
    (if r.mode.In? then "<" else ">") + r.file
  }

  function PrintRedirs(rs: seq<Redirection>): string {
    if rs == [] then [] else PrintRedir(rs[0]) + PrintRedirs(rs[1..])
  }

  // Parsing what was printed.

  /** Input at which a redirection list, a word and white space all end. */
  predicate Stops(t: string) {
    t == [] || (t[0] == ')' || t[0] == '|' || t[0] == ';' || t[0] == '&')
  }

  lemma {:induction false} WordThen(w: string, rest: string)
    requires (forall i :: 0 <= i < |w| ==> IsWord(w[i])) && (rest == [] || !IsWord(rest[0]))
    ensures WordLength(w + rest) == |w|
  {
    if w == [] {
      assert w + rest == rest;
    } else {
      assert (w + rest)[1..] == w[1..] + rest;
      WordThen(w[1..], rest);
    }
  }

  lemma TokenWord(w: string, rest: string)
    requires IsToken(w) && (rest == [] || !IsWord(rest[0]))
    ensures Skip(w + rest) == w + rest && GetToken(w + rest) == Token('a', |w|, Skip(rest))
    ensures (w + rest)[..|w|] == w
  {
    WordThen(w, rest);
    assert (w + rest)[0] == w[0] && IsWord(w[0]);
    assert (w + rest)[|w|..] == rest;
  }

  /** A one-character operator at the front of the input. */
  lemma TokenOp(t: string)
    requires t != [] && (IsOp(t[0]) || (t[0] == '>' && (|t| == 1 || t[1] != '>')))
    ensures Skip(t) == t && GetToken(t) == Token(t[0], 1, Skip(t[1..]))
  {
  }

  lemma PeekAt(t: string, toks: set<char>)
    requires t == [] || !IsSpace(t[0])
    ensures Skip(t) == t && Peek(t, toks) == (t != [] && t[0] in toks)
  {
  }

  lemma Assoc(a: string, b: string, c: string)
    ensures a + b + c == a + (b + c)
  {
  }

  lemma Cons(c: char, t: string)
    ensures ([c] + t)[0] == c && ([c] + t)[1..] == t
  {
  }

  lemma RedirsFront(rs: seq<Redirection>, more: string)
    requires Stops(more)
    ensures var t := PrintRedirs(rs) + more;
            Skip(t) == t && (t == [] || !IsWord(t[0])) && Peek(t, {'<', '>'}) == (rs != [])
  {
    var t := PrintRedirs(rs) + more;
    if rs != [] {
      assert t[0] == PrintRedir(rs[0])[0];
    } else {
      assert t == more;
    }
    PeekAt(t, {'<', '>'});
  }

  /** One redirection and what follows it, as the parser sees it. */
  lemma RedirShape(r: Redirection, rest: string)
    requires IsToken(r.file) && (rest == [] || !IsWord(rest[0]))
    ensures var t := PrintRedir(r) + rest;
            && GetToken(t) == Token(if r.mode.In? then '<' else '>', 1, r.file + rest)
            && GetToken(r.file + rest) == Token('a', |r.file|, Skip(rest))
            && Skip(r.file + rest)[..|r.file|] == r.file
  {
    var op := if r.mode.In? then '<' else '>';
    var after := r.file + rest;
    TokenWord(r.file, rest);
    assert IsWord(after[0]);
    Cons(op, after);
    Assoc([op], r.file, rest);
    TokenOp([op] + after);
  }

  lemma TailFiles(rs: seq<Redirection>)
    requires rs != [] && AreFiles(rs)
    ensures IsToken(rs[0].file) && AreFiles(rs[1..])
  {
  }

  lemma ParsesRedir(r: Redirection, rest: string, rs: seq<Redirection>, more: string)
    requires IsToken(r.file) && (rest == [] || !IsWord(rest[0])) && Skip(rest) == rest
    requires Peek(PrintRedir(r) + rest, {'<', '>'}) && ParseRedirs(rest) == Ok(rs, more)
    ensures ParseRedirs(PrintRedir(r) + rest) == Ok([r] + rs, more)
  {
    hide Skip, Peek, IsWord, GetToken, PrintRedir, IsToken, ParseRedirs;
    RedirShape(r, rest);
    RedirsStep(PrintRedir(r) + rest);
  }

  lemma {:induction false} ParsesRedirs(rs: seq<Redirection>, more: string)
    requires Stops(more) && AreFiles(rs)
    ensures ParseRedirs(PrintRedirs(rs) + more) == Ok(rs, more)
  {
    RedirsFront(rs, more);
    if rs == [] {
      assert PrintRedirs(rs) + more == more;
    } else {
      TailFiles(rs);
      Assoc(PrintRedir(rs[0]), PrintRedirs(rs[1..]), more);
      RedirsFront(rs[1..], more);
      ParsesRedirs(rs[1..], more);
      hide ParseRedirs, Skip, Peek, IsWord, PrintRedir, IsToken, AreFiles, Stops;
      ParsesRedir(rs[0], PrintRedirs(rs[1..]) + more, rs[1..], more);
      assert [rs[0]] + rs[1..] == rs;
    }
  }

  lemma WordFront(w: string, rest: string)
    requires IsToken(w)
    ensures var t := w + rest;
            Skip(t) == t && !Peek(t, {'<', '>'}) && !Peek(t, {'('}) && !Peek(t, {'|', ')', '&', ';'})
  {
    assert (w + rest)[0] == w[0] && IsWord(w[0]);
  }

  lemma ArgsFront(argv: seq<string>, more: string)
    requires Stops(more) && AreTokens(argv)
    ensures var t := PrintArgs(argv) + more;
            Skip(t) == t && !Peek(t, {'<', '>'}) && !Peek(t, {'('}) && Peek(t, {'|', ')', '&', ';'}) == (argv == [] && more != [])
  {
    if argv == [] {
      assert PrintArgs(argv) + more == more;
    } else {
      hide Skip, Peek, IsToken, PrintArgs;
      ArgsShape(argv, more);
      WordFront(argv[0], " " + (PrintArgs(argv[1..]) + more));
    }
  }

  lemma ArgsShape(argv: seq<string>, more: string)
    requires argv != []
    ensures PrintArgs(argv) + more == argv[0] + (" " + (PrintArgs(argv[1..]) + more))
  {
    Assoc(argv[0], " ", PrintArgs(argv[1..]));
    Assoc(argv[0], " " + PrintArgs(argv[1..]), more);
    Assoc(" ", PrintArgs(argv[1..]), more);
  }

  lemma SkipBlank(t: string)
    requires Skip(t) == t
    ensures Skip(" " + t) == t
  {
    Cons(' ', t);
  }

  /** One argument and what follows it, as the parser sees it. */
  lemma ArgShape(w: string, rest: string)
    requires IsToken(w) && Skip(rest) == rest
    ensures var t := w + (" " + rest);
            GetToken(t) == Token('a', |w|, rest) && Skip(t)[..|w|] == w
  {
    SkipBlank(rest);
    Cons(' ', rest);
    TokenWord(w, " " + rest);
  }

  lemma {:induction false} ParsesArgs(argv: seq<string>, argc: nat, more: string)
    requires Stops(more) && argc + |argv| < MAXARGS && AreTokens(argv)
    ensures ParseArgs(PrintArgs(argv) + more, argc) == Ok(Simple(argv, []), more)
  {
    ArgsFront(argv, more);
    if argv == [] {
      assert PrintArgs(argv) + more == more;
    } else {
      hide Skip, Peek, IsWord, GetToken, Stops, IsToken, PrintArgs;
      var rest := PrintArgs(argv[1..]) + more;
      ArgsShape(argv, more);
      ArgsFront(argv[1..], more);
      ArgShape(argv[0], rest);
      assert ParseRedirs(rest) == Ok([], rest);
      ArgsStep(PrintArgs(argv) + more, argc);
      ParsesArgs(argv[1..], argc + 1, more);
      hide ParseArgs;
      assert [argv[0]] + argv[1..] == argv;
      var none: seq<Redirection> := [];
      assert none + none == none;
    }
  }

  function Core(c: Cmd): (r: Cmd)
    ensures !r.Redir?
  {
    if c.Redir? then Core(c.cmd) else c
  }

  function Redirs(c: Cmd): seq<Redirection> {
    if c.Redir? then Redirs(c.cmd) + [Redirection(c.file, c.mode)] else []
  }

  lemma {:induction false} WrapSnoc(c: Cmd, rs: seq<Redirection>, r: Redirection)
    ensures Wrap(c, rs + [r]) == Redir(Wrap(c, rs), r.file, r.mode)
    decreases |rs|
  {
    if rs == [] {
      assert rs + [r] == [r];
    } else {
      assert (rs + [r])[1..] == rs[1..] + [r];
      WrapSnoc(Redir(c, rs[0].file, rs[0].mode), rs[1..], r);
    }
  }

  lemma {:induction false} PrintRedirsSnoc(rs: seq<Redirection>, r: Redirection)
    ensures PrintRedirs(rs + [r]) == PrintRedirs(rs) + PrintRedir(r)
  {
    if rs == [] {
      assert rs + [r] == [r];
    } else {
      assert (rs + [r])[1..] == rs[1..] + [r];
      PrintRedirsSnoc(rs[1..], r);
    }
  }

  /** A chain of redirections prints as one block followed by the redirections. */
  lemma {:induction false} Chain(c: Cmd)
    requires Printable(c)
    ensures Wrap(Core(c), Redirs(c)) == c && Printable(Core(c))
    ensures c.Redir? ==> Print(c) == Block(Core(c)) + PrintRedirs(Redirs(c))
    ensures AreFiles(Redirs(c))
    decreases c
  {
    if c.Redir? {
      var r := Redirection(c.file, c.mode);
      Chain(c.cmd);
      WrapSnoc(Core(c.cmd), Redirs(c.cmd), r);
      PrintRedirsSnoc(Redirs(c.cmd), r);
    }
  }

  /** A parenthesised command followed by redirections, given that its inside parses. */
  lemma ParsesBlock(c: Cmd, rs: seq<Redirection>, more: string)
    requires Stops(more) && AreFiles(rs)
    requires var close := ")" + (PrintRedirs(rs) + more);
             ParseLine(Print(c) + close) == Ok(c, close) && Skip(Print(c) + close) == Print(c) + close
    ensures ParseExec(Block(c) + (PrintRedirs(rs) + more)) == Ok(Wrap(c, rs), more)
  {
    var tail := PrintRedirs(rs) + more;
    var close := ")" + tail;
    var inside := Print(c) + close;
    var t := "(" + inside;
    BlockShape(Print(c), tail);
    RedirsFront(rs, more);
    ParsesRedirs(rs, more);
    OpensWith('(', inside);
    OpensWith(')', tail);
    hide Skip, Peek, IsWord, GetToken, Stops, IsToken, PrintRedirs, Print, ParseRedirs, ParseLine;
    assert ParseBlock(t) == Ok(Wrap(c, rs), more);
  }

  lemma BlockShape(p: string, tail: string)
    ensures "(" + p + ")" + tail == "(" + (p + (")" + tail))
  {
    Assoc("(", p, ")");
    Assoc("(", p + ")", tail);
    Assoc(p, ")", tail);
  }

  lemma OpensWith(c: char, t: string)
    requires IsOp(c) && Skip(t) == t
    ensures Peek([c] + t, {c}) && GetToken([c] + t).rest == t && Skip([c] + t) == [c] + t
  {
    Cons(c, t);
    TokenOp([c] + t);
  }

  /** The printing starts with no white space. */
  lemma {:induction false} PrintFront(c: Cmd, more: string)
    requires Printable(c) && Stops(more)
    ensures Skip(Print(c) + more) == Print(c) + more
  {
    match c
    case Exec(argv) => ArgsFront(argv, more);
    case Redir(cmd, file, mode) =>
      Chain(c);
      assert Print(c)[0] == '(';
    case Pipe(l, r) => assert Print(c)[0] == '(';
    case List(l, r) => assert Print(c)[0] == '(';
    case Back(cmd) => assert Print(c)[0] == '(';
  }

  /** A block on its own, by the induction hypothesis of the theorem below. */
  lemma ParsesAlone(c: Cmd, more: string)
    requires Printable(c) && Stops(more)
    requires ParseLine(Print(c) + (")" + more)) == Ok(c, ")" + more)
    ensures ParseExec(Block(c) + more) == Ok(c, more)
    ensures Skip(Block(c) + more) == Block(c) + more && Skip(more) == more
  {
    assert PrintRedirs([]) + more == more;
    PrintFront(c, ")" + more);
    BlockShape(Print(c), more);
    OpensWith('(', Print(c) + (")" + more));
    hide ParseLine, ParseExec, Print;
    ParsesBlock(c, [], more);
  }

  /** After an operator at which the left operand stopped. */
  lemma AfterOp(op: char, right: string)
    requires (op == '|' || op == ';' || op == '&') && Skip(right) == right
    ensures Stops([op] + right) && GetToken([op] + right).rest == right
    ensures Peek([op] + right, {'|'}) == (op == '|') && Peek([op] + right, {';'}) == (op == ';') && Peek([op] + right, {'&'}) == (op == '&')
    ensures Skip([op] + right) == [op] + right
  {
    assert ([op] + right)[1..] == right;
  }

  lemma NoOp(more: string)
    requires more == [] || more[0] == ')'
    ensures Stops(more) && Skip(more) == more && !Peek(more, {'|'}) && !Peek(more, {';'}) && !Peek(more, {'&'})
  {
  }

  /** Print then parse is the identity, in any context where a line may end. */
  lemma {:induction false} ParsesPrinted(c: Cmd, more: string)
    requires Printable(c) && (more == [] || more[0] == ')')
    ensures ParseLine(Print(c) + more) == Ok(c, more)
    decreases c, 1
  {
    NoOp(more);
    match c
    case Exec(argv) =>
      ArgsFront(argv, more);
      ParsesArgs(argv, 0, more);
      ExecLine(argv, more);
    case Redir(cmd, file, mode) =>
      Chain(c);
      CoreSmaller(c);
      var close := ")" + (PrintRedirs(Redirs(c)) + more);
      ParsesPrinted(Core(c), close);
      PrintFront(Core(c), close);
      ParsesBlock(Core(c), Redirs(c), more);
      Assoc(Block(Core(c)), PrintRedirs(Redirs(c)), more);
      OneCommand(c, Print(c) + more, more);
    case Pipe(l, r) =>
      var right := Block(r) + more;
      ParsesPrinted(r, ")" + more);
      ParsesAlone(r, more);
      AfterOp('|', right);
      ParsesPrinted(l, ")" + ("|" + right));
      ParsesAlone(l, "|" + right);
      Assoc(Block(l), "|", Block(r));
      Assoc(Block(l), "|" + Block(r), more);
      Assoc("|", Block(r), more);
      PipeLine(l, r, Print(c) + more, right, more);
    case List(l, r) =>
      var right := Block(r) + more;
      ParsesPrinted(r, ")" + more);
      ParsesAlone(r, more);
      OneCommand(r, right, more);
      AfterOp(';', right);
      ParsesPrinted(l, ")" + (";" + right));
      ParsesAlone(l, ";" + right);
      Assoc(Block(l), ";", Block(r));
      Assoc(Block(l), ";" + Block(r), more);
      Assoc(";", Block(r), more);
      ListLine(l, r, Print(c) + more, right, more);
    case Back(cmd) =>
      AfterOp('&', more);
      ParsesPrinted(cmd, ")" + ("&" + more));
      ParsesAlone(cmd, "&" + more);
      Assoc(Block(cmd), "&", more);
      BackLine(cmd, Print(c) + more, more);
  }

  lemma CoreSmaller(c: Cmd)
    requires c.Redir?
    ensures Core(c) < c
  {
  }

  lemma ExecLine(argv: seq<string>, more: string)
    requires more == [] || more[0] == ')'
    requires var t := PrintArgs(argv) + more;
             Skip(t) == t && !Peek(t, {'<', '>'}) && !Peek(t, {'('}) && ParseArgs(t, 0) == Ok(Simple(argv, []), more)
    ensures ParseLine(PrintArgs(argv) + more) == Ok(Exec(argv), more)
  {
    var t := PrintArgs(argv) + more;
    NoOp(more);
    hide GetToken, Skip, Peek, PrintArgs, ParseArgs;
    assert ParseRedirs(t) == Ok([], t);
    assert ParseExec(t) == Ok(Exec(argv), more);
    OneCommand(Exec(argv), t, more);
  }

  /** A line that is a single command. */
  lemma OneCommand(c: Cmd, t: string, more: string)
    requires ParseExec(t) == Ok(c, more) && (more == [] || more[0] == ')')
    ensures ParsePipe(t) == Ok(c, more) && ParseLine(t) == Ok(c, more)
  {
    NoOp(more);
    hide GetToken, Skip, Peek, ParseExec;
  }

  lemma PipeLine(l: Cmd, r: Cmd, t: string, right: string, more: string)
    requires ParseExec(t) == Ok(l, "|" + right) && ParseExec(right) == Ok(r, more)
    requires Skip(right) == right && (more == [] || more[0] == ')') && |right| < |t|
    ensures ParseLine(t) == Ok(Pipe(l, r), more)
  {
    NoOp(more);
    AfterOp('|', right);
    OneCommand(r, right, more);
    hide GetToken, Skip, Peek, ParseExec;
    assert ParsePipe(t) == Ok(Pipe(l, r), more);
  }

  lemma ListLine(l: Cmd, r: Cmd, t: string, right: string, more: string)
    requires ParseExec(t) == Ok(l, ";" + right) && ParseLine(right) == Ok(r, more)
    requires Skip(right) == right && (more == [] || more[0] == ')') && |right| < |t|
    ensures ParseLine(t) == Ok(List(l, r), more)
  {
    AfterOp(';', right);
    hide GetToken, Skip, Peek, ParseExec;
    assert ParsePipe(t) == Ok(l, ";" + right);
    assert ParseBacks(l, ";" + right) == Ok(l, ";" + right);
  }

  lemma BackLine(c: Cmd, t: string, more: string)
    requires ParseExec(t) == Ok(c, "&" + more) && (more == [] || more[0] == ')')
    ensures ParseLine(t) == Ok(Back(c), more)
  {
    NoOp(more);
    AfterOp('&', more);
    hide GetToken, Skip, Peek, ParseExec;
    assert ParsePipe(t) == Ok(c, "&" + more);
    assert ParseBacks(Back(c), more) == Ok(Back(c), more);
    assert ParseBacks(c, "&" + more) == Ok(Back(c), more);
  }

  /** parsecmd accepts the printing of every tree it could build and rebuilds that tree. */
  lemma PrintThenParse(c: Cmd)
    requires Printable(c)
    ensures ParseCmd(Print(c)) == Ok(c, [])
  {
    ParsesPrinted(c, []);
    assert Print(c) + [] == Print(c);
  }

  // The printable trees are exactly the parser's range.

  lemma WordToken(t: string)
    ensures GetToken(t).kind == 'a' ==> GetToken(t).length <= |Skip(t)| && IsToken(Skip(t)[..GetToken(t).length])
  {
  }

  lemma {:induction false} RedirsAreTokens(t: string)
    ensures ParseRedirs(t).Ok? ==> AreFiles(ParseRedirs(t).value)
    decreases |t|
  {
    if Peek(t, {'<', '>'}) {
      var op := GetToken(t);
      var file := GetToken(op.rest);
      WordToken(op.rest);
      if file.kind == 'a' {
        RedirsAreTokens(file.rest);
      }
    }
  }

  lemma {:induction false} ArgsAreTokens(t: string, argc: nat)
    requires argc < MAXARGS
    ensures var r := ParseArgs(t, argc);
            r.Ok? ==> AreTokens(r.value.argv) && AreFiles(r.value.redirs)
    decreases |t|
  {
    hide GetToken, Skip, Peek, IsToken, ParseRedirs;
    var tok := GetToken(t);
    if !Peek(t, {'|', ')', '&', ';'}) && tok.kind == 'a' && argc + 1 < MAXARGS {
      var reds := ParseRedirs(tok.rest);
      if reds.Ok? {
        hide AreTokens, AreFiles, ParseArgs;
        WordToken(t);
        RedirsAreTokens(tok.rest);
        ArgsStep(t, argc);
        ArgsAreTokens(reds.rest, argc + 1);
        var more := ParseArgs(reds.rest, argc + 1);
        if more.Ok? {
          FilesConcat(reds.value, more.value.redirs);
          TokensCons(Skip(t)[..tok.length], more.value.argv);
        }
      }
    }
  }

  lemma FilesConcat(a: seq<Redirection>, b: seq<Redirection>)
    requires AreFiles(a) && AreFiles(b)
    ensures AreFiles(a + b)
  {
  }

  lemma TokensCons(w: string, argv: seq<string>)
    requires IsToken(w) && AreTokens(argv)
    ensures AreTokens([w] + argv)
  {
  }

  lemma {:induction false} WrapPrintable(c: Cmd, rs: seq<Redirection>)
    requires Printable(c) && AreFiles(rs)
    ensures Printable(Wrap(c, rs))
    decreases |rs|
  {
    if rs != [] {
      WrapPrintable(Redir(c, rs[0].file, rs[0].mode), rs[1..]);
    }
  }

  lemma {:induction false} ExecPrintable(t: string)
    ensures ParseExec(t).Ok? ==> Printable(ParseExec(t).value)
    decreases |t|, 2
  {
    hide GetToken, Skip, IsToken, ParseRedirs, ParseArgs;
    if Peek(t, {'('}) {
      BlockPrintable(t);
    } else {
      RedirsAreTokens(t);
      var reds := ParseRedirs(t);
      if reds.Ok? {
        ArgsAreTokens(reds.rest, 0);
        var args := ParseArgs(reds.rest, 0);
        if args.Ok? {
          WrapPrintable(Exec(args.value.argv), reds.value + args.value.redirs);
        }
      }
    }
  }

  lemma {:induction false} BlockPrintable(t: string)
    requires Peek(t, {'('})
    ensures ParseBlock(t).Ok? ==> Printable(ParseBlock(t).value)
    decreases |t|, 1
  {
    var inside := GetToken(t).rest;
    assert |inside| < |t|;
    LinePrintable(inside);
    hide GetToken, Skip, IsToken, ParseRedirs, ParseLine;
    var inner := ParseLine(inside);
    if inner.Ok? && Peek(inner.rest, {')'}) {
      var after := GetToken(inner.rest).rest;
      RedirsAreTokens(after);
      if ParseRedirs(after).Ok? {
        WrapPrintable(inner.value, ParseRedirs(after).value);
      }
    }
  }

  lemma {:induction false} PipePrintable(t: string)
    ensures ParsePipe(t).Ok? ==> Printable(ParsePipe(t).value)
    decreases |t|, 3
  {
    ExecPrintable(t);
    var left := ParseExec(t);
    if left.Ok? && Peek(left.rest, {'|'}) {
      assert |GetToken(left.rest).rest| < |t|;
      hide GetToken, Skip, IsToken, ParseExec;
      PipePrintable(GetToken(left.rest).rest);
    }
  }

  lemma {:induction false} BacksPrintable(c: Cmd, t: string)
    requires Printable(c)
    ensures Printable(ParseBacks(c, t).value)
    decreases |t|
  {
    if Peek(t, {'&'}) {
      BacksPrintable(Back(c), GetToken(t).rest);
    }
  }

  lemma {:induction false} LinePrintable(t: string)
    ensures ParseLine(t).Ok? ==> Printable(ParseLine(t).value)
    decreases |t|, 4
  {
    PipePrintable(t);
    var first := ParsePipe(t);
    if first.Ok? {
      BacksPrintable(first.value, first.rest);
      var left := ParseBacks(first.value, first.rest);
      if Peek(left.rest, {';'}) {
        assert |GetToken(left.rest).rest| < |t|;
        hide GetToken, Skip, IsToken, ParsePipe, ParseBacks;
        LinePrintable(GetToken(left.rest).rest);
      }
    }
  }

  /** A tree is the parse of some line exactly when it is printable. */
  lemma RangeOfParser(c: Cmd)
    ensures Printable(c) <==> exists t :: ParseCmd(t) == Ok(c, [])
  {
    if Printable(c) {
      PrintThenParse(c);
    }
    forall t | ParseCmd(t) == Ok(c, []) ensures Printable(c) {
      LinePrintable(t);
    }
  }
}
