/** The matcher of HW3/grep.c against a denotational meaning of its patterns. Strings are
    sequences; their end stands for the terminating NUL. */
module Grep {
  // What patterns mean.

  datatype Item = One(c: char) | Star(c: char)

  /** A sequence of items, possibly anchored to the end of the text. */
  datatype Pattern = Pattern(items: seq<Item>, anchored: bool)

  /** A star belongs to the character before it, even before a final dollar; a dollar elsewhere
      is an ordinary character. */
  function Parse(re: string): Pattern {
    if re == "" then Pattern([], false)
    else if |re| >= 2 && re[1] == '*' then
      var p := Parse(re[2..]); Pattern([Star(re[0])] + p.items, p.anchored)
    else if re == "$" then Pattern([], true)
    else var p := Parse(re[1..]); Pattern([One(re[0])] + p.items, p.anchored)
  }

  /** How a pattern is written. */
  function Print(p: Pattern): string
    decreases |p.items|
  {
    if p.items == [] then if p.anchored then "$" else ""
    else
      var rest := Print(Pattern(p.items[1..], p.anchored));
      match p.items[0]
      case One(c) => [c] + rest
      case Star(c) => [c, '*'] + rest
  }

  /** Patterns that can be written: a single character is not followed by an asterisk, which would make
      it a star, and a dollar at the end is an anchor. */
  predicate Writable(p: Pattern) {
    && (forall i :: 0 <= i < |p.items| - 1 && p.items[i].One? ==> p.items[i + 1].c != '*')
    && (!p.anchored && p.items != [] ==> p.items[|p.items| - 1] != One('$'))
  }

  lemma WritableRest(p: Pattern)
    requires p.items != [] && Writable(p)
    ensures Writable(Pattern(p.items[1..], p.anchored))
  {
    var q := Pattern(p.items[1..], p.anchored);
    forall i | 0 <= i < |q.items| - 1 && q.items[i].One? ensures q.items[i + 1].c != '*' {
      assert q.items[i] == p.items[i + 1] && q.items[i + 1] == p.items[i + 2];
    }
  }

  /** The first character of the text is that of the first item. */
  lemma PrintFront(p: Pattern)
    ensures p.items == [] ==> Print(p) == if p.anchored then "$" else ""
    ensures p.items != [] ==> Print(p) != "" && Print(p)[0] == p.items[0].c
  {
  }

  /** Reading a pattern is the inverse of writing it. */
  lemma {:induction false} ParsePrint(p: Pattern)
    requires Writable(p)
    ensures Parse(Print(p)) == p
    decreases |p.items|
  {
    if p.items != [] {
      var q := Pattern(p.items[1..], p.anchored);
      var c, rest, re := p.items[0].c, Print(q), Print(p);
      WritableRest(p);
      ParsePrint(q);
      PrintFront(q);
      assert p.items == [p.items[0]] + q.items;
      if p.items[0].Star? {
        assert re[2..] == rest;
      } else {
        assert re[1..] == rest;
        assert q.items != [] ==> q.items[0] == p.items[1];
      }
    }
  }

  /** And every text is the writing of the pattern it is read as. */
  lemma {:induction false} PrintParse(re: string)
    ensures Writable(Parse(re)) && Print(Parse(re)) == re
    decreases |re|
  {
    if re != "" && re != "$" {
      var star := |re| >= 2 && re[1] == '*';
      var rest := if star then re[2..] else re[1..];
      PrintParse(rest);
      PrintFront(Parse(rest));
      var item := if star then Star(re[0]) else One(re[0]);
      assert Parse(re) == Pattern([item] + Parse(rest).items, Parse(rest).anchored);
      assert re == (if star then [re[0], '*'] else [re[0]]) + rest;
      PrintMore(item, Parse(rest));
    }
  }

  lemma PrintMore(item: Item, q: Pattern)
    requires Writable(q) && (item.One? && q.items != [] ==> q.items[0].c != '*')
    requires item == One('$') ==> q.items != [] || q.anchored
    ensures var p := Pattern([item] + q.items, q.anchored);
            Writable(p) && Print(p) == (if item.One? then [item.c] else [item.c, '*']) + Print(q)
  {
    var p := Pattern([item] + q.items, q.anchored);
    assert Pattern(p.items[1..], p.anchored) == q;
    forall i | 0 <= i < |p.items| - 1 && p.items[i].One? ensures p.items[i + 1].c != '*' {
      assert p.items[i + 1] == q.items[i];
      if i > 0 {
        assert p.items[i] == q.items[i - 1];
      }
    }
  }

  predicate Fits(c: char, x: char) {
    c == '.' || c == x
  }

  predicate AllFit(c: char, w: string) {
    forall i :: 0 <= i < |w| ==> Fits(c, w[i])
  }

  predicate Piece(item: Item, w: string) {
    match item
    case One(c) => |w| == 1 && Fits(c, w[0])
    case Star(c) => AllFit(c, w)
  }

  function Concat(pieces: seq<string>): string {
    if pieces == [] then "" else pieces[0] + Concat(pieces[1..])
  }

  /** w can be cut into consecutive pieces, one for each item. */
  ghost predicate Denotes(items: seq<Item>, w: string) {
    exists pieces: seq<string> :: Cuts(items, w, pieces)
  }

  ghost predicate Cuts(items: seq<Item>, w: string, pieces: seq<string>) {
    |pieces| == |items| && Concat(pieces) == w && forall i :: 0 <= i < |items| ==> Piece(items[i], pieces[i])
  }

  /** Some prefix of text, all of it for an anchored pattern, is denoted by the items. */
  ghost predicate Here(p: Pattern, text: string) {
    exists k :: 0 <= k <= |text| && (p.anchored ==> k == |text|) && Denotes(p.items, text[..k])
  }

  /** What match decides. */
  ghost predicate Matches(re: string, text: string) {
    if re != "" && re[0] == '^' then Here(Parse(re[1..]), text)
    else exists s :: 0 <= s <= |text| && Here(Parse(re), text[s..])
  }

  // Peeling one item off.

  lemma DenotesNil(w: string)
    ensures Denotes([], w) <==> w == ""
  {
    assert w == "" ==> Cuts([], w, []);
  }

  lemma DenotesCons(item: Item, items: seq<Item>, w: string)
    ensures Denotes([item] + items, w) <==> exists j :: 0 <= j <= |w| && Piece(item, w[..j]) && Denotes(items, w[j..])
  {
    if Denotes([item] + items, w) {
      var pieces :| Cuts([item] + items, w, pieces);
      var j := |pieces[0]|;
      assert w[..j] == pieces[0] && w[j..] == Concat(pieces[1..]);
      assert Cuts(items, w[j..], pieces[1..]) by {
        forall i | 0 <= i < |items| ensures Piece(items[i], pieces[1..][i]) {
          assert ([item] + items)[i + 1] == items[i];
        }
      }
    }
    if exists j :: 0 <= j <= |w| && Piece(item, w[..j]) && Denotes(items, w[j..]) {
      var j :| 0 <= j <= |w| && Piece(item, w[..j]) && Denotes(items, w[j..]);
      var rest :| Cuts(items, w[j..], rest);
      var pieces := [w[..j]] + rest;
      assert pieces[1..] == rest && w == w[..j] + w[j..];
      assert Cuts([item] + items, w, pieces);
    }
  }

  /** The item takes a piece from the front and the rest of the pattern matches what follows. */
  lemma HereCons(item: Item, p: Pattern, text: string)
    ensures Here(Pattern([item] + p.items, p.anchored), text) <==>
            exists j :: 0 <= j <= |text| && Piece(item, text[..j]) && Here(p, text[j..])
  {
    hide Denotes, Piece;
    var q := Pattern([item] + p.items, p.anchored);
    if Here(q, text) {
      var k :| 0 <= k <= |text| && (p.anchored ==> k == |text|) && Denotes(q.items, text[..k]);
      DenotesCons(item, p.items, text[..k]);
      var j :| 0 <= j <= k && Piece(item, text[..k][..j]) && Denotes(p.items, text[..k][j..]);
      assert text[..k][..j] == text[..j] && text[..k][j..] == text[j..][..k - j];
      assert Here(p, text[j..]);
    }
    if exists j :: 0 <= j <= |text| && Piece(item, text[..j]) && Here(p, text[j..]) {
      var j :| 0 <= j <= |text| && Piece(item, text[..j]) && Here(p, text[j..]);
      var k :| 0 <= k <= |text[j..]| && (p.anchored ==> k == |text[j..]|) && Denotes(p.items, text[j..][..k]);
      assert text[..j + k][..j] == text[..j] && text[..j + k][j..] == text[j..][..k];
      DenotesCons(item, p.items, text[..j + k]);
      assert Denotes(q.items, text[..j + k]);
    }
  }

  lemma HereNil(anchored: bool, text: string)
    ensures Here(Pattern([], anchored), text) <==> !anchored || text == ""
  {
    DenotesNil("");
    assert text[..0] == "";
    if Here(Pattern([], anchored), text) {
      var k :| 0 <= k <= |text| && (anchored ==> k == |text|) && Denotes([], text[..k]);
      DenotesNil(text[..k]);
    }
  }

  lemma HereOne(c: char, p: Pattern, text: string)
    ensures Here(Pattern([One(c)] + p.items, p.anchored), text) <==> text != "" && Fits(c, text[0]) && Here(p, text[1..])
  {
    HereCons(One(c), p, text);
    if text != "" {
      assert |text[..1]| == 1 && text[..1][0] == text[0];
      assert Piece(One(c), text[..1]) <==> Fits(c, text[0]);
    }
  }

  // The matcher.

  method Match(re: string, text: string) returns (r: bool)
    ensures r <==> Matches(re, text)
  {
    if re != "" && re[0] == '^' {
      r := Matchhere(re[1..], text);
      return;
    }
    var i := 0;
    while true
      invariant 0 <= i <= |text| && forall s :: 0 <= s < i ==> !Here(Parse(re), text[s..])
      decreases |text| - i
    {
      var here := Matchhere(re, text[i..]);
      if here {
        return true;
      }
      if i == |text| {
        return false;
      }
      i := i + 1;
    }
  }

  method Matchhere(re: string, text: string) returns (r: bool)
    ensures r <==> Here(Parse(re), text)
    decreases |re|, 0
  {
    HereNil(false, text);
    HereNil(true, text);
    if re == "" {
      return true;
    }
    if |re| >= 2 && re[1] == '*' {
      HereCons(Star(re[0]), Parse(re[2..]), text);
      r := Matchstar(re[0], re[2..], text);
      return;
    }
    if re == "$" {
      return text == "";
    }
    HereOne(re[0], Parse(re[1..]), text);
    if text != "" && (re[0] == '.' || re[0] == text[0]) {
      r := Matchhere(re[1..], text[1..]);
      return;
    }
    return false;
  }

  method Matchstar(c: char, re: string, text: string) returns (r: bool)
    ensures r <==> exists j :: 0 <= j <= |text| && Piece(Star(c), text[..j]) && Here(Parse(re), text[j..])
    decreases |re|, 1
  {
    var i := 0;
    while true
      invariant 0 <= i <= |text| && AllFit(c, text[..i]) && forall j :: 0 <= j < i ==> !Here(Parse(re), text[j..])
      decreases |text| - i
    {
      var here := Matchhere(re, text[i..]);
      if here {
        assert Piece(Star(c), text[..i]);
        return true;
      }
      if i == |text| || !(text[i] == c || c == '.') {
        forall j | i < j <= |text| ensures !Piece(Star(c), text[..j]) {
          assert text[..j][i] == text[i];
        }
        return false;
      }
      assert text[..i + 1] == text[..i] + [text[i]];
      i := i + 1;
    }
  }
}
