/** How the remote shell reads a command line: token recognition and quote removal of IEEE Std
    1003.1-2017, Shell Command Language, sections 2.2.1 (Escape Character), 2.2.2 (Single-Quotes),
    2.3 (Token Recognition) and 2.7 (IO_NUMBER). Input that would start an expansion, a comment, a
    here-document or double quotes is refused rather than guessed at. */
module Shell {
  import opened Domain
  import opened Strings

  datatype Token = Word(text: string) | Operator(op: string) | IoNumber(digits: string)

  datatype Mode =
    | Between
    | InWord(text: string, bare: bool)  // bare: nothing in the word was quoted
    | InQuote(text: string)
    | Escaped(prior: Mode)
    | InOperator(op: string)
    | Refused

  datatype Scanner = Scanner(mode: Mode, tokens: seq<Token>)

  predicate Blank(c: char) { c == ' ' || c == '\t' }

  predicate Redirection(c: char) { c == '<' || c == '>' }

  predicate OperatorChar(c: char) {
    Redirection(c) || c == '&' || c == '|' || c == ';' || c == '(' || c == ')' || c == '\n'
  }

  predicate Expanding(c: char) { c == '"' || c == '$' || c == '`' || c == '*' || c == '?' }

  /** Characters that stand for themselves in the middle of a word. */
  predicate Plain(c: char) {
    c != '\0' && c != '\'' && c != '\\' && !Blank(c) && !OperatorChar(c) && !Expanding(c)
  }

  /** `&&`, `||`, `;;`, `>>`, `<&`, `>&`, `<>` and `>|`. */
  predicate TwoCharOperator(op: string) {
    |op| == 2 && (
      || (op[0] == op[1] && (op[0] == '&' || op[0] == '|' || op[0] == ';' || op[0] == '>'))
      || (Redirection(op[0]) && op[1] == '&')
      || (op[0] == '<' && op[1] == '>')
      || (op[0] == '>' && op[1] == '|'))
  }

  /** A word ended by `next`: digits directly before a redirection are a descriptor number. */
  function Delimited(text: string, bare: bool, next: char): Token {
    if bare && text != "" && AllDigits(text) && Redirection(next) then IoNumber(text) else Word(text)
  }

  /** `c` where no token is under construction. */
  function Fresh(tokens: seq<Token>, c: char): Scanner {
    if c == '\'' then Scanner(InQuote(""), tokens)
    else if c == '\\' then Scanner(Escaped(Between), tokens)
    else if Expanding(c) || c == '#' || c == '~' then Scanner(Refused, tokens)
    else if Blank(c) then Scanner(Between, tokens)
    else if OperatorChar(c) then Scanner(InOperator([c]), tokens)
    else Scanner(InWord([c], true), tokens)
  }

  function Step(m: Scanner, c: char): Scanner {
    if c == '\0' then m.(mode := Refused)
    else
      match m.mode
      case Refused => m
      case Between => Fresh(m.tokens, c)
      case InQuote(t) => m.(mode := if c == '\'' then InWord(t, false) else InQuote(t + [c]))
      case InWord(t, b) =>
        if c == '\'' then m.(mode := InQuote(t))
        else if c == '\\' then m.(mode := Escaped(m.mode))
        else if Expanding(c) then m.(mode := Refused)
        else if Blank(c) then Scanner(Between, m.tokens + [Word(t)])
        else if OperatorChar(c) then Scanner(InOperator([c]), m.tokens + [Delimited(t, b, c)])
        else m.(mode := InWord(t + [c], b))
      case InOperator(op) =>
        if TwoCharOperator(op + [c]) then m.(mode := InOperator(op + [c]))
        else if op + [c] == "<<" then m.(mode := Refused)
        else if c == '\\' then m.(mode := Escaped(m.mode))
        else Fresh(m.tokens + [Operator(op)], c)
      case Escaped(prior) =>
        if c == '\n' then m.(mode := prior)
        else
          match prior
          case InWord(t, _) => m.(mode := InWord(t + [c], false))
          case InOperator(op) => Scanner(InWord([c], false), m.tokens + [Operator(op)])
          case _ => m.(mode := InWord([c], false))
  }

  function Scan(m: Scanner, s: string): Scanner
    decreases s
  {
    if s == [] then m else Scan(Step(m, s[0]), s[1..])
  }

  function Finish(m: Scanner): Option<seq<Token>> {
    match m.mode
    case Between => Some(m.tokens)
    case InWord(t, _) => Some(m.tokens + [Word(t)])
    case InOperator(op) => Some(m.tokens + [Operator(op)])
    case _ => None
  }

  function Tokenize(s: string): Option<seq<Token>> {
    Finish(Scan(Scanner(Between, []), s))
  }

  lemma {:induction false} ScanAppend(m: Scanner, a: string, b: string)
    ensures Scan(m, a + b) == Scan(Scan(m, a), b)
    decreases a
  {
    if a == [] {
      assert a + b == b;
    } else {
      ScanAppend(Step(m, a[0]), a[1..], b);
      assert (a + b)[1..] == a[1..] + b;
    }
  }

  lemma ScanChar(m: Scanner, c: char)
    ensures Scan(m, [c]) == Step(m, c)
  {
    assert Scan(Step(m, c), [c][1..]) == Step(m, c);
  }

  lemma {:induction false} RefusedForGood(m: Scanner, s: string)
    requires m.mode.Refused?
    ensures Scan(m, s).mode.Refused?
    decreases s
  {
    if s == [] {
    } else {
      RefusedForGood(Step(m, s[0]), s[1..]);
    }
  }

  /** A line of one character: a blank is nothing, an operator character is an operator, what would open a quote,
      an escape, an expansion or a comment is refused, and anything else is a word. */
  lemma OneCharacter(c: char)
    ensures Tokenize([c]) ==
      if c == ' ' || c == '\t' then Some([])
      else if c == '<' || c == '>' || c == '&' || c == '|' || c == ';' || c == '(' || c == ')' || c == '\n' then
        Some([Operator([c])])
      else if c == '\0' || c == '\'' || c == '\\' || c == '"' || c == '$' || c == '`' || c == '*' || c == '?' ||
              c == '#' || c == '~' then None
      else Some([Word([c])])
  {
    ScanChar(Scanner(Between, []), c);
    assert [] + [Operator([c])] == [Operator([c])] && [] + [Word([c])] == [Word([c])];
  }

  /** Two operator characters in a row are one operator if they spell one, and two otherwise; a here-document is
      refused. */
  lemma OperatorPair(c: char, d: char)
    requires OperatorChar(c) && OperatorChar(d)
    ensures Tokenize([c, d]) ==
      if c == '<' && d == '<' then None
      else if (c == '&' && d == '&') || (c == '|' && d == '|') || (c == ';' && d == ';') || (c == '>' && d == '>') ||
              (c == '<' && d == '&') || (c == '>' && d == '&') || (c == '<' && d == '>') || (c == '>' && d == '|') then
        Some([Operator([c, d])])
      else Some([Operator([c]), Operator([d])])
  {
    hide Scan;
    var m := Scanner(InOperator([c]), []);
    assert Scan(Scanner(Between, []), [c, d]) == Step(m, d) by {
      ScanAppend(Scanner(Between, []), [c], [d]);
      ScanChar(Scanner(Between, []), c);
      ScanChar(m, d);
      assert [c] + [d] == [c, d];
    }
    SecondOperator(c, d);
  }

  lemma SecondOperator(c: char, d: char)
    requires OperatorChar(c) && OperatorChar(d)
    ensures Finish(Step(Scanner(InOperator([c]), []), d)) ==
      if c == '<' && d == '<' then None
      else if (c == '&' && d == '&') || (c == '|' && d == '|') || (c == ';' && d == ';') || (c == '>' && d == '>') ||
              (c == '<' && d == '&') || (c == '>' && d == '&') || (c == '<' && d == '>') || (c == '>' && d == '|') then
        Some([Operator([c, d])])
      else Some([Operator([c]), Operator([d])])
  {
    var op := [c] + [d];
    assert |op| == 2 && op[0] == c && op[1] == d && op == [c, d];
    assert op == "<<" <==> c == '<' && d == '<' by {
      assert "<<"[0] == '<' && "<<"[1] == '<';
    }
    var m := Scanner(InOperator([c]), []);
    if TwoCharOperator(op) {
      assert Step(m, d) == Scanner(InOperator(op), []) && [] + [Operator(op)] == [Operator(op)];
    } else if op == "<<" {
      assert Step(m, d).mode == Refused;
    } else {
      assert Step(m, d) == Fresh([] + [Operator([c])], d) == Scanner(InOperator([d]), [] + [Operator([c])]);
      assert [] + [Operator([c])] + [Operator([d])] == [Operator([c]), Operator([d])];
    }
  }

  /** What would start an expansion is refused in the middle of a word too, and behind quotes. */
  lemma ExpansionRefused(a: string, c: char, rest: string)
    requires c == '"' || c == '$' || c == '`' || c == '*' || c == '?'
    requires Scan(Scanner(Between, []), a).mode.InWord?
    ensures Tokenize(a + ([c] + rest)) == None
  {
    hide Scan;
    var m := Scan(Scanner(Between, []), a);
    ScanAppend(Scanner(Between, []), a, [c] + rest);
    ScanAppend(m, [c], rest);
    ScanChar(m, c);
    RefusedForGood(Step(m, c), rest);
  }

  /** A backslash makes a word of the next character, and joins lines before a newline. */
  lemma EscapedCharacter(c: char)
    ensures Tokenize(['\\', c]) == if c == '\0' then None else if c == '\n' then Some([]) else Some([Word([c])])
  {
    hide Scan;
    var m := Scanner(Escaped(Between), []);
    assert Scan(Scanner(Between, []), ['\\', c]) == Step(m, c) by {
      ScanAppend(Scanner(Between, []), ['\\'], [c]);
      ScanChar(Scanner(Between, []), '\\');
      ScanChar(m, c);
      assert ['\\'] + [c] == ['\\', c];
    }
    assert [] + [Word([c])] == [Word([c])];
  }

  // ---------------------------------------------------------------- shellEscape

  function QuoteBody(v: string): string { ReplaceAll(v, '\'', "'\\''") }

  function ShellEscape(v: string): string {
    "'" + QuoteBody(v) + "'"
  }

  /** The text, quote by quote: up to the first single quote it is copied, and that quote closes the quotation,
      stands escaped outside it and opens the next. */
  lemma ShellEscapeText(a: string, b: string)
    requires '\'' !in a
    ensures ShellEscape(a) == "'" + a + "'"
    ensures ShellEscape(a + "'" + b) == "'" + a + "'\\'" + ShellEscape(b)
  {
    hide ReplaceAll;
    ReplaceNothing(a, '\'', "'\\''");
    ReplaceFirst(a, b, '\'', "'\\''");
    assert a + ['\''] + b == a + "'" + b;
    assert "'\\''" == "'\\'" + "'";
    Requoted("'", a, "'\\'", "'", QuoteBody(b));
  }

  lemma Requoted(q: string, a: string, e: string, r: string, b: string)
    ensures q + (a + (e + r) + b) + r == q + a + e + (r + b + r)
  {
  }

  /** Inside quotes the body adds exactly `v`, and the quote is still open after it. */
  lemma {:induction false} ScanQuoteBody(toks: seq<Token>, t: string, v: string)
    requires '\0' !in v
    ensures Scan(Scanner(InQuote(t), toks), QuoteBody(v)) == Scanner(InQuote(t + v), toks)
    decreases v
  {
    var m := Scanner(InQuote(t), toks);
    if v == [] {
      assert t + v == t;
    } else {
      var m' := Scanner(InQuote(t + [v[0]]), toks);
      if v[0] == '\'' {
        var m1, m2 := Step(m, '\''), Scanner(Escaped(InWord(t, false)), toks);
        var m3 := Scanner(InWord(t + ['\''], false), toks);
        assert Scan(m, "'\\''") == m' by {
          assert Step(m1, '\\') == m2 && Step(m2, '\'') == m3 && Step(m3, '\'') == m';
          assert "'\\''" == ['\''] + (['\\'] + (['\''] + ['\'']));
          ScanAppend(m, ['\''], ['\\'] + (['\''] + ['\'']));
          ScanAppend(m1, ['\\'], ['\''] + ['\'']);
          ScanAppend(m2, ['\''], ['\'']);
          ScanChar(m, '\'');
          ScanChar(m1, '\\');
          ScanChar(m2, '\'');
          ScanChar(m3, '\'');
        }
        ScanAppend(m, "'\\''", QuoteBody(v[1..]));
      } else {
        ScanChar(m, v[0]);
        ScanAppend(m, [v[0]], QuoteBody(v[1..]));
      }
      ScanQuoteBody(toks, t + [v[0]], v[1..]);
      assert t + [v[0]] + v[1..] == t + v;
    }
  }

  function TextOf(mode: Mode): string {
    match mode
    case InWord(t, _) => t
    case _ => ""
  }

  /** Wherever a word may start or continue, an escaped string extends it by exactly that string. */
  lemma ScanEscaped(m: Scanner, v: string)
    requires m.mode.Between? || m.mode.InWord?
    requires '\0' !in v
    ensures Scan(m, ShellEscape(v)) == Scanner(InWord(TextOf(m.mode) + v, false), m.tokens)
  {
    var t := TextOf(m.mode);
    var open, body := Scanner(InQuote(t), m.tokens), Scanner(InQuote(t + v), m.tokens);
    ScanAppend(m, "'" + QuoteBody(v), "'");
    ScanAppend(m, "'", QuoteBody(v));
    ScanChar(m, '\'');
    ScanQuoteBody(m.tokens, t, v);
    ScanChar(body, '\'');
  }

  lemma {:induction false} NulRefused(m: Scanner, v: string)
    requires '\0' in v
    ensures Scan(m, QuoteBody(v)).mode.Refused?
    decreases v
  {
    var head := if v[0] == '\'' then "'\\''" else [v[0]];
    ScanAppend(m, head, QuoteBody(v[1..]));
    if v[0] == '\0' {
      ScanChar(m, '\0');
      RefusedForGood(Step(m, '\0'), QuoteBody(v[1..]));
    } else {
      NulRefused(Scan(m, head), v[1..]);
    }
  }

  /** The quoting round trip, exactly: the shell reads an escaped string back as one word equal to it,
      the empty string included, if and only if the string has no NUL. */
  lemma ShellEscapeRoundTrip(v: string)
    ensures Tokenize(ShellEscape(v)) == Some([Word(v)]) <==> '\0' !in v
  {
    var m := Scanner(Between, []);
    if '\0' in v {
      ScanAppend(m, "'" + QuoteBody(v), "'");
      ScanAppend(m, "'", QuoteBody(v));
      NulRefused(Scan(m, "'"), v);
      RefusedForGood(Scan(m, "'" + QuoteBody(v)), "'");
    } else {
      ScanEscaped(m, v);
      assert "" + v == v && [] + [Word(v)] == [Word(v)];
    }
  }

  // ---------------------------------------------------------------- words and lines

  /** A word of a command line is written as literal text next to escaped values. */
  datatype Piece = Bare(text: string) | Quoted(value: string)

  function PieceText(p: Piece): string {
    match p case Bare(t) => t case Quoted(v) => ShellEscape(v)
  }

  function PieceMeaning(p: Piece): string {
    match p case Bare(t) => t case Quoted(v) => v
  }

  function Written(pieces: seq<Piece>): string {
    if pieces == [] then "" else PieceText(pieces[0]) + Written(pieces[1..])
  }

  function Meant(pieces: seq<Piece>): string {
    if pieces == [] then "" else PieceMeaning(pieces[0]) + Meant(pieces[1..])
  }

  predicate AllBare(pieces: seq<Piece>) {
    pieces == [] || (pieces[0].Bare? && AllBare(pieces[1..]))
  }

  lemma SinglePiece(p: Piece)
    ensures Written([p]) == PieceText(p) && Meant([p]) == PieceMeaning(p) && AllBare([p]) == p.Bare?
    ensures GoodPieces([p]) == GoodPiece(p)
  {
    assert [p][1..] == [];
    assert PieceText(p) + "" == PieceText(p) && PieceMeaning(p) + "" == PieceMeaning(p);
  }

  predicate AllPlain(s: string) {
    forall c :: c in s ==> Plain(c)
  }

  predicate GoodPiece(p: Piece) {
    match p
    case Bare(t) => t != "" && AllPlain(t)
    case Quoted(v) => '\0' !in v
  }

  predicate GoodPieces(pieces: seq<Piece>) {
    pieces == [] || (GoodPiece(pieces[0]) && GoodPieces(pieces[1..]))
  }

  predicate GoodWord(pieces: seq<Piece>) {
    && pieces != []
    && GoodPieces(pieces)
    && (pieces[0].Bare? ==> pieces[0].text[0] != '#' && pieces[0].text[0] != '~')
  }

  lemma {:induction false} ScanBare(toks: seq<Token>, t: string, b: bool, w: string)
    requires AllPlain(w)
    ensures Scan(Scanner(InWord(t, b), toks), w) == Scanner(InWord(t + w, b), toks)
    decreases w
  {
    if w == [] {
      assert t + w == t;
    } else {
      assert w[0] in w;
      ScanBare(toks, t + [w[0]], b, w[1..]);
      assert t + [w[0]] + w[1..] == t + w;
    }
  }

  /** Digits directly before a redirection are a descriptor number; any other word there is a word, and so are
      digits before another operator. */
  lemma WordThenOperator(w: string, c: char)
    requires w != "" && AllPlain(w) && w[0] != '#' && w[0] != '~' && OperatorChar(c)
    ensures var number := (c == '<' || c == '>') && AllDigits(w);
      Tokenize(w + [c]) == Some([if number then IoNumber(w) else Word(w), Operator([c])])
  {
    hide Scan, AllPlain, AllDigits;
    var start, head, tail := Scanner(Between, []), [w[0]], w[1..];
    var m := Scanner(InWord(w, true), []);
    assert Scan(start, w) == m by {
      FirstPlain(w);
      ScanAppend(start, head, tail);
      ScanChar(start, w[0]);
      ScanBare([], head, true, tail);
      assert head + tail == w;
    }
    ScanAppend(start, w, [c]);
    ScanChar(m, c);
    var t := Delimited(w, true, c);
    assert [] + [t] == [t] && [t] + [Operator([c])] == [t, Operator([c])];
  }

  lemma FirstPlain(w: string)
    requires w != "" && AllPlain(w)
    ensures Plain(w[0]) && AllPlain(w[1..])
  {
  }

  lemma ScanPiece(m: Scanner, p: Piece)
    requires m.mode.InWord? && GoodPiece(p)
    ensures Scan(m, PieceText(p)) == Scanner(InWord(m.mode.text + PieceMeaning(p), m.mode.bare && p.Bare?), m.tokens)
  {
    match p
    case Bare(t) => ScanBare(m.tokens, m.mode.text, m.mode.bare, t);
    case Quoted(v) => ScanEscaped(m, v);
  }

  lemma {:induction false} ScanPieces(toks: seq<Token>, t: string, b: bool, pieces: seq<Piece>)
    requires GoodPieces(pieces)
    ensures Scan(Scanner(InWord(t, b), toks), Written(pieces))
         == Scanner(InWord(t + Meant(pieces), b && AllBare(pieces)), toks)
    decreases pieces
  {
    if pieces == [] {
      assert t + Meant(pieces) == t;
    } else {
      var p, rest := pieces[0], pieces[1..];
      var t', b' := t + PieceMeaning(p), b && p.Bare?;
      ScanPieces(toks, t', b', rest);
      ScanPiece(Scanner(InWord(t, b), toks), p);
      ScanTwo(Scanner(InWord(t, b), toks), Scanner(InWord(t', b'), toks), PieceText(p), Written(rest));
      Assoc(t, PieceMeaning(p), Meant(rest));
    }
  }

  lemma ScanTwo(m: Scanner, m': Scanner, a: string, b: string)
    requires Scan(m, a) == m'
    ensures Scan(m, a + b) == Scan(m', b)
  {
    ScanAppend(m, a, b);
  }

  lemma ScanFirstPiece(toks: seq<Token>, p: Piece)
    requires GoodPiece(p) && (p.Bare? ==> p.text[0] != '#' && p.text[0] != '~')
    ensures Scan(Scanner(Between, toks), PieceText(p)) == Scanner(InWord(PieceMeaning(p), p.Bare?), toks)
  {
    match p
    case Bare(t) =>
      assert t[0] in t;
      ScanBare(toks, [t[0]], true, t[1..]);
      assert [t[0]] + t[1..] == t;
    case Quoted(v) =>
      ScanEscaped(Scanner(Between, toks), v);
      assert "" + v == v;
  }

  /** A word written from its pieces is scanned as one word, the concatenation of what they mean. */
  lemma ScanWord(toks: seq<Token>, pieces: seq<Piece>)
    requires GoodWord(pieces)
    ensures Scan(Scanner(Between, toks), Written(pieces)) == Scanner(InWord(Meant(pieces), AllBare(pieces)), toks)
  {
    ScanAppend(Scanner(Between, toks), PieceText(pieces[0]), Written(pieces[1..]));
    ScanFirstPiece(toks, pieces[0]);
    ScanPieces(toks, PieceMeaning(pieces[0]), pieces[0].Bare?, pieces[1..]);
  }

  // ---------------------------------------------------------------- command lines

  /** What a command line is made of: words, operators, and the number before a redirection. */
  datatype Chunk = Arg(pieces: seq<Piece>) | Op(op: string) | Fd(digit: char)

  /** A chunk and whether a blank separates it from the one before. */
  datatype Part = Part(blank: bool, chunk: Chunk)

  function ChunkText(c: Chunk): string {
    match c
    case Arg(ps) => Written(ps)
    case Op(op) => op
    case Fd(d) => [d]
  }

  function TokenOf(c: Chunk): Token {
    match c
    case Arg(ps) => Word(Meant(ps))
    case Op(op) => Operator(op)
    case Fd(d) => IoNumber([d])
  }

  function PartText(p: Part): string {
    (if p.blank then " " else "") + ChunkText(p.chunk)
  }

  /** The command line as text. */
  function Render(parts: seq<Part>): string {
    if parts == [] then "" else Render(parts[..|parts| - 1]) + PartText(parts[|parts| - 1])
  }

  /** The command line as the list of tokens it is meant to be. */
  function Tokens(parts: seq<Part>): seq<Token> {
    seq(|parts|, i requires 0 <= i < |parts| => TokenOf(parts[i].chunk))
  }

  predicate GoodChunk(c: Chunk) {
    match c
    case Arg(ps) => GoodWord(ps)
    case Op(op) => (|op| == 1 && OperatorChar(op[0])) || TwoCharOperator(op)
    case Fd(d) => IsDigit(d)
  }

  /** Two chunks that keep their identity side by side: a blank will do unless the first is a descriptor
      number; without one, a word and an operator alternate, and only a number may touch a redirection. */
  predicate Follows(c: Chunk, next: Part)
    requires GoodChunk(next.chunk)
  {
    if next.blank then !c.Fd?
    else
      match c
      case Arg(_) => next.chunk.Op? && !Redirection(next.chunk.op[0])
      case Op(_) => next.chunk.Arg?
      case Fd(_) => next.chunk.Op? && Redirection(next.chunk.op[0])
  }

  predicate GoodParts(parts: seq<Part>) {
    && (forall i :: 0 <= i < |parts| ==> GoodChunk(parts[i].chunk))
    && (forall i :: 0 < i < |parts| ==> Follows(parts[i - 1].chunk, parts[i]))
    && (parts != [] ==> !parts[0].blank && !parts[|parts| - 1].chunk.Fd?)
  }

  /** The scanner's mode when the last thing it read was this chunk. */
  function ModeAfter(c: Chunk): Mode {
    match c
    case Arg(ps) => InWord(Meant(ps), AllBare(ps))
    case Op(op) => InOperator(op)
    case Fd(d) => InWord([d], true)
  }

  lemma TwoCharsAreOperators(op: string)
    requires TwoCharOperator(op)
    ensures |op| == 2 && OperatorChar(op[0]) && OperatorChar(op[1]) && op == [op[0]] + [op[1]]
  {
  }

  /** From a state that hands an operator character to a fresh operator, the whole operator is read. */
  lemma ScanOperator(m: Scanner, op: string, toks: seq<Token>)
    requires GoodChunk(Op(op))
    requires Step(m, op[0]) == Scanner(InOperator([op[0]]), toks)
    ensures Scan(m, op) == Scanner(InOperator(op), toks)
  {
    ScanChar(m, op[0]);
    if |op| == 1 {
      assert op == [op[0]];
    } else {
      TwoCharsAreOperators(op);
      ScanAppend(m, [op[0]], [op[1]]);
      ScanChar(Scanner(InOperator([op[0]]), toks), op[1]);
    }
  }

  lemma ScanChunk(toks: seq<Token>, c: Chunk)
    requires GoodChunk(c)
    ensures Scan(Scanner(Between, toks), ChunkText(c)) == Scanner(ModeAfter(c), toks)
  {
    match c
    case Arg(ps) => ScanWord(toks, ps);
    case Op(op) => FreshOperator(toks, op);
    case Fd(d) => ScanChar(Scanner(Between, toks), d);
  }

  lemma FreshOperator(toks: seq<Token>, op: string)
    requires GoodChunk(Op(op))
    ensures Scan(Scanner(Between, toks), op) == Scanner(InOperator(op), toks)
  {
    hide Scan;
    if TwoCharOperator(op) { TwoCharsAreOperators(op); }
    ScanOperator(Scanner(Between, toks), op, toks);
  }

  lemma NotAnOperator(op: string, c: char)
    requires op != "" && !OperatorChar(c)
    ensures !TwoCharOperator(op + [c]) && op + [c] != "<<"
  {
    assert (op + [c])[|op|] == c;
    if TwoCharOperator(op + [c]) {
      TwoCharsAreOperators(op + [c]);
    }
  }

  lemma BlankEndsChunk(toks: seq<Token>, c: Chunk)
    requires GoodChunk(c) && !c.Fd?
    ensures Scan(Scanner(ModeAfter(c), toks), " ") == Scanner(Between, toks + [TokenOf(c)])
  {
    ScanChar(Scanner(ModeAfter(c), toks), ' ');
    if c.Op? {
      NotAnOperator(c.op, ' ');
    }
  }

  lemma OperatorEndsWord(toks: seq<Token>, c: Chunk, op: string)
    requires GoodChunk(c) && GoodChunk(Op(op)) && Follows(c, Part(false, Op(op)))
    ensures Scan(Scanner(ModeAfter(c), toks), op) == Scanner(InOperator(op), toks + [TokenOf(c)])
  {
    if TwoCharOperator(op) { TwoCharsAreOperators(op); }
    ScanOperator(Scanner(ModeAfter(c), toks), op, toks + [TokenOf(c)]);
  }

  lemma WordEndsOperator(toks: seq<Token>, op: string, ps: seq<Piece>)
    requires GoodChunk(Op(op)) && GoodWord(ps)
    ensures Scan(Scanner(InOperator(op), toks), Written(ps)) ==
            Scan(Scanner(Between, toks + [Operator(op)]), Written(ps))
  {
    var c := PieceText(ps[0])[0];
    assert !OperatorChar(c) && c != '\\' && c != '\0' by {
      if ps[0].Bare? { assert c in ps[0].text; }
    }
    NotAnOperator(op, c);
    assert Written(ps)[0] == c;
  }

  lemma NextPart(toks: seq<Token>, c: Chunk, next: Part)
    requires GoodChunk(c) && GoodChunk(next.chunk) && Follows(c, next)
    ensures Scan(Scanner(ModeAfter(c), toks), (if next.blank then " " else "") + ChunkText(next.chunk))
         == Scanner(ModeAfter(next.chunk), toks + [TokenOf(c)])
  {
    var m, text := Scanner(ModeAfter(c), toks), ChunkText(next.chunk);
    ScanChunk(toks + [TokenOf(c)], next.chunk);
    if next.blank {
      ScanAppend(m, " ", text);
      BlankEndsChunk(toks, c);
    } else {
      assert "" + text == text;
      if next.chunk.Op? {
        OperatorEndsWord(toks, c, text);
      } else {
        WordEndsOperator(toks, c.op, next.chunk.pieces);
      }
    }
  }

  lemma {:induction false} ScanParts(parts: seq<Part>)
    requires parts != [] && !parts[0].blank
    requires forall i :: 0 <= i < |parts| ==> GoodChunk(parts[i].chunk)
    requires forall i :: 0 < i < |parts| ==> Follows(parts[i - 1].chunk, parts[i])
    ensures Scan(Scanner(Between, []), Render(parts))
         == Scanner(ModeAfter(parts[|parts| - 1].chunk), Tokens(parts[..|parts| - 1]))
  {
    hide Scan, Written, Meant;
    var n := |parts| - 1;
    var last, tail := parts[n], (if parts[n].blank then " " else "") + ChunkText(parts[n].chunk);
    if n == 0 {
      assert Render(parts[..0]) == "" && "" + tail == tail == ChunkText(last.chunk);
      ScanChunk([], last.chunk);
      assert Tokens(parts[..0]) == [];
    } else {
      ScanParts(parts[..n]);
      ScanAppend(Scanner(Between, []), Render(parts[..n]), tail);
      NextPart(Tokens(parts[..n - 1]), parts[n - 1].chunk, last);
      assert parts[..n][..n - 1] == parts[..n - 1];
      assert Tokens(parts[..n - 1]) + [TokenOf(parts[n - 1].chunk)] == Tokens(parts[..n]);
    }
  }

  lemma EmptyLine()
    ensures Tokenize("") == Some([])
  {
  }

  /** The printer's inverse is the shell: every well-formed command line is read back as its own tokens. */
  lemma RenderRoundTrip(parts: seq<Part>)
    requires GoodParts(parts)
    ensures Tokenize(Render(parts)) == Some(Tokens(parts))
  {
    hide Scan, Written, Meant, AllBare, GoodChunk;
    if parts == [] {
      EmptyLine();
      assert Tokens(parts) == [];
    } else {
      var n := |parts| - 1;
      ScanParts(parts);
      assert Tokens(parts[..n]) + [TokenOf(parts[n].chunk)] == Tokens(parts);
    }
  }

  function EscapedArg(first: bool, v: string): Part { Part(!first, Arg([Quoted(v)])) }

  /** An argument vector of arbitrary NUL-free strings, each escaped, arrives unchanged. */
  lemma ArgvRoundTrip(argv: seq<string>)
    requires forall v :: v in argv ==> '\0' !in v
    ensures var parts := seq(|argv|, i requires 0 <= i < |argv| => EscapedArg(i == 0, argv[i]));
      Tokenize(Render(parts)) == Some(seq(|argv|, i requires 0 <= i < |argv| => Word(argv[i])))
  {
    var parts := seq(|argv|, i requires 0 <= i < |argv| => EscapedArg(i == 0, argv[i]));
    forall i | 0 <= i < |argv| ensures GoodChunk(parts[i].chunk) && TokenOf(parts[i].chunk) == Word(argv[i]) {
      assert argv[i] in argv;
      SinglePiece(Quoted(argv[i]));
    }
    RenderRoundTrip(parts);
    assert Tokens(parts) == seq(|argv|, i requires 0 <= i < |argv| => Word(argv[i]));
  }
}
