/**
 A reader for a small part of the shell language, after the Shell Command
 Language chapter of POSIX.1-2017: quoting (section 2.2), token recognition
 (section 2.3), reserved words (section 2.4), quote removal (section 2.6.7),
 output redirection (section 2.7.2), here-documents (section 2.7.4), and the
 assignments in front of a simple command (sections 2.9.1 and 2.10.2). Text that
 would need anything else, an expansion, a control operator or a compound
 command say, is not read at all.
 */
module ShellReader {
  import opened Wrappers
  import opened Text

  /** A word is quoted if any of it was; in an assignment only the name counts. */
  datatype Token = Word(text: string, quoted: bool) | Operator(op: string)

  /** The word being recognized, its quotes already removed. */
  datatype Current = NoWord | InWord(text: string, quoted: bool)
  {
    function Text(): string { if NoWord? then "" else text }
    function Quoted(): bool { InWord? && quoted }
    /** With a quoted piece added the word is quoted, except in the value of an assignment. */
    function Quote(piece: string): Current {
      InWord(Text() + piece, Quoted() || !IsAssignment(Text()))
    }
    function Tokens(): seq<Token> { if NoWord? then [] else [Word(text, quoted)] }
  }

  /** The tokens up to an unquoted newline, and the text after it. */
  datatype Line = Line(tokens: seq<Token>, rest: string)

  predicate IsBlank(c: char) { c == ' ' || c == '\t' }

  /** Unquoted, these would start an operator, an expansion or a comment. */
  predicate IsSpecial(c: char) { c in "|&;()$`\"*?[#~{}" }

  predicate IsOrdinary(c: char) {
    !IsBlank(c) && !IsSpecial(c) && c !in "\n'\\<>"
  }

  /** The position of the first c, or the length if there is none. */
  function IndexOf(s: string, c: char): (k: nat)
    ensures k <= |s|
    ensures c !in s[..k]
    ensures k < |s| ==> s[k] == c
    ensures c in s ==> k < |s|
  {
    if s == "" || s[0] == c then 0
    else
      var k := 1 + IndexOf(s[1..], c);
      assert s[..k] == [s[0]] + s[1..][..k - 1];
      k
  }

  predicate IsNameStart(c: char) { 'a' <= c <= 'z' || 'A' <= c <= 'Z' || c == '_' }

  predicate IsName(s: string) {
    s != "" && IsNameStart(s[0]) && forall c :: c in s ==> IsNameStart(c) || '0' <= c <= '9'
  }

  /** A name and "=", or "+=" as bash has it. */
  predicate IsAssignment(s: string) {
    var k := IndexOf(s, '=');
    k < |s| && (IsName(s[..k]) || (k > 0 && s[k - 1] == '+' && IsName(s[..k - 1])))
  }

  /** The reserved words by length, those that only bash has at the end. */
  predicate IsReserved(s: string) {
    match |s|
    case 1 => s == "!" || s == "{" || s == "}"
    case 2 => s == "do" || s == "fi" || s == "if" || s == "in" || s == "[[" || s == "]]"
    case 3 => s == "for"
    case 4 => s == "case" || s == "done" || s == "elif" || s == "else" || s == "esac" || s == "then" || s == "time"
    case 5 => s == "until" || s == "while"
    case 6 => s == "coproc" || s == "select"
    case 8 => s == "function"
    case _ => false
  }

  function Prepend(tokens: seq<Token>, line: Option<Line>): Option<Line> {
    match line
    case None => None
    case Some(l) => Some(Line(tokens + l.tokens, l.rest))
  }

  function LexLine(s: string, cur: Current): (line: Option<Line>)
    ensures line.Some? && s != "" ==> |line.value.rest| < |s|
    ensures line.Some? && s == "" ==> line.value.rest == ""
    decreases |s|
  {
    if s == "" then Some(Line(cur.Tokens(), ""))
    else
      var c, t := s[0], s[1..];
      if c == '\n' then Some(Line(cur.Tokens(), t))
      else if IsBlank(c) then Prepend(cur.Tokens(), LexLine(t, NoWord))
      else if c == '\'' then
        var k := IndexOf(t, '\'');
        if k == |t| then None else LexLine(t[k + 1..], cur.Quote(t[..k]))
      else if c == '\\' then
        if t == "" then None
        else if t[0] == '\n' then LexLine(t[1..], cur)
        else LexLine(t[1..], cur.Quote([t[0]]))
      else if c == '<' || c == '>' then
        if cur.InWord? then None
        else if t != "" && t[0] == c then Prepend([Operator([c, c])], LexLine(t[1..], NoWord))
        else Prepend([Operator([c])], LexLine(t, NoWord))
      else if IsSpecial(c) then None
      else LexLine(t, InWord(cur.Text() + [c], cur.Quoted()))
  }

  // ---- Commands ----

  datatype Redirect = Redirect(append: bool, path: string)

  /** A simple command with its assignments, here-document and output redirection. */
  datatype Command = Command(assignments: seq<string>, words: seq<string>, input: Option<string>, output: Option<Redirect>)

  /** A command whose here-document, named by its delimiter, is still to be read. */
  datatype Pending = Pending(assignments: seq<string>, words: seq<string>, delimiter: Option<string>, output: Option<Redirect>)

  /** Reserved words are recognized only as a first word, and unquoted. */
  predicate StartsReserved(tokens: seq<Token>) {
    tokens != [] && tokens[0].Word? && !tokens[0].quoted && IsReserved(tokens[0].text)
  }

  function ParseCommand(tokens: seq<Token>): Option<Pending> {
    if StartsReserved(tokens) then None else ParseSimple(tokens, false)
  }

  /**
   Assignments are recognized until the first other word, which starts the
   command. Only a quoted delimiter keeps the here-document from being expanded.
   */
  function ParseSimple(tokens: seq<Token>, started: bool): Option<Pending> {
    if tokens == [] then Some(Pending([], [], None, None))
    else
      match tokens[0]
      case Word(text, quoted) =>
        var assigns := !started && !quoted && IsAssignment(text);
        (match ParseSimple(tokens[1..], !assigns)
         case None => None
         case Some(c) =>
           if assigns then Some(c.(assignments := [text] + c.assignments))
           else Some(c.(words := [text] + c.words)))
      case Operator(op) =>
        if |tokens| == 1 || tokens[1].Operator? then None
        else
          match ParseSimple(tokens[2..], started)
          case None => None
          case Some(c) =>
            if op == "<<" && tokens[1].quoted && c.delimiter.None? then
              Some(c.(delimiter := Some(tokens[1].text)))
            else if (op == ">" || op == ">>") && c.output.None? then
              Some(c.(output := Some(Redirect(op == ">>", tokens[1].text))))
            else None
  }

  datatype Here = Here(body: string, rest: string)

  /** The lines before the first that is the delimiter, and the text after that line. */
  function ReadHere(s: string, delimiter: string): (here: Option<Here>)
    ensures here.Some? ==> |here.value.rest| <= |s|
    decreases |s|
  {
    var k := IndexOf(s, '\n');
    if k == |s| then None
    else if s[..k] == delimiter then Some(Here("", s[k + 1..]))
    else
      match ReadHere(s[k + 1..], delimiter)
      case None => None
      case Some(h) => Some(h.(body := s[..k + 1] + h.body))
  }

  function Cons(c: Command, cs: Option<seq<Command>>): Option<seq<Command>> {
    if cs.None? then None else Some([c] + cs.value)
  }

  function ReadScript(s: string): Option<seq<Command>>
    decreases |s|
  {
    if s == "" then Some([])
    else
      match LexLine(s, NoWord)
      case None => None
      case Some(line) =>
        if line.tokens == [] then ReadScript(line.rest)
        else
          match ParseCommand(line.tokens)
          case None => None
          case Some(c) =>
            match c.delimiter
            case None => Cons(Command(c.assignments, c.words, None, c.output), ReadScript(line.rest))
            case Some(d) =>
              match ReadHere(line.rest, d)
              case None => None
              case Some(h) => Cons(Command(c.assignments, c.words, Some(h.body), c.output), ReadScript(h.rest))
  }

  // ---- How the reader treats printed pieces ----

  lemma {:induction false} LexPlain(w: string, rest: string, cur: Current)
    requires w != "" && forall c :: c in w ==> IsOrdinary(c)
    ensures LexLine(w + rest, cur) == LexLine(rest, InWord(cur.Text() + w, cur.Quoted()))
    decreases |w|
  {
    var s := w + rest;
    var cur' := InWord(cur.Text() + [w[0]], cur.Quoted());
    assert IsOrdinary(w[0]);
    assert s[1..] == w[1..] + rest;
    assert LexLine(s, cur) == LexLine(w[1..] + rest, cur');
    if |w| == 1 {
      assert w[1..] + rest == rest && [w[0]] == w;
    } else {
      LexPlain(w[1..], rest, cur');
      assert cur'.Text() + w[1..] == cur.Text() + w;
    }
  }

  lemma {:induction false} IndexOfFirst(w: string, c: char, rest: string)
    requires c !in w
    ensures var s := w + [c] + rest;
            IndexOf(s, c) == |w| && s[..|w|] == w && s[..|w| + 1] == w + [c] && s[|w| + 1..] == rest
    decreases |w|
  {
    if w != "" {
      assert (w + [c] + rest)[1..] == w[1..] + [c] + rest;
      IndexOfFirst(w[1..], c, rest);
    }
  }

  /** What follows an assignment in the same word is part of its value. */
  lemma StaysAssignment(s: string, t: string)
    requires IsAssignment(s)
    ensures IsAssignment(s + t)
  {
    var k := IndexOf(s, '=');
    assert s + t == s[..k] + "=" + (s[k + 1..] + t);
    IndexOfFirst(s[..k], '=', s[k + 1..] + t);
    assert (s + t)[..k] == s[..k];
    if !IsName(s[..k]) {
      assert (s + t)[..k - 1] == s[..k - 1];
    }
  }

  lemma QuoteTwice(cur: Current, a: string, b: string)
    ensures cur.Quote(a).Quote(b) == cur.Quote(a + b)
  {
    if IsAssignment(cur.Text()) {
      StaysAssignment(cur.Text(), a);
    }
    assert cur.Text() + a + b == cur.Text() + (a + b);
  }

  lemma LexQuoted(w: string, rest: string, cur: Current)
    requires '\'' !in w
    ensures LexLine("'" + w + "'" + rest, cur) == LexLine(rest, cur.Quote(w))
  {
    assert ("'" + w + "'" + rest)[1..] == w + "'" + rest;
    IndexOfFirst(w, '\'', rest);
  }

  /** What an opening quote does with the text after it. */
  lemma LexOpen(t: string, cur: Current)
    ensures var k := IndexOf(t, '\'');
            LexLine("'" + t, cur) == if k == |t| then None else LexLine(t[k + 1..], cur.Quote(t[..k]))
  {
    assert ("'" + t)[1..] == t;
  }

  lemma LexEscaped(rest: string, cur: Current)
    ensures LexLine("\\'" + rest, cur) == LexLine(rest, cur.Quote("'"))
  {
    var s := "\\'" + rest;
    assert s[1..] == "'" + rest && s[1..][1..] == rest;
  }

  lemma LexBlank(rest: string, cur: Current)
    ensures LexLine(" " + rest, cur) == Prepend(cur.Tokens(), LexLine(rest, NoWord))
  {
    assert (" " + rest)[1..] == rest;
  }

  lemma LexNewline(rest: string, cur: Current)
    ensures LexLine("\n" + rest, cur) == Some(Line(cur.Tokens(), rest))
  {
    assert ("\n" + rest)[1..] == rest;
  }

  /** A doubled redirection operator, or a single one not followed by its like. */
  lemma LexOperator(c: char, rest: string)
    requires c == '<' || c == '>'
    ensures LexLine([c, c] + rest, NoWord) == Prepend([Operator([c, c])], LexLine(rest, NoWord))
    ensures rest != "" && rest[0] != c ==>
              LexLine([c] + rest, NoWord) == Prepend([Operator([c])], LexLine(rest, NoWord))
  {
    assert ([c, c] + rest)[1..] == [c] + rest && ([c] + rest)[1..] == rest;
  }

  /** The body of a here-document comes back if no line of it is the delimiter. */
  lemma {:induction false} HereBody(body: string, delimiter: string, tail: string)
    requires body == "" || body[|body| - 1] == '\n'
    requires '\n' !in delimiter && !Contains(body, delimiter)
    ensures ReadHere(body + delimiter + "\n" + tail, delimiter) == Some(Here(body, tail))
    decreases |body|
  {
    if body == "" {
      assert body + delimiter + "\n" + tail == delimiter + "\n" + tail;
      IndexOfFirst(delimiter, '\n', tail);
    } else {
      assert '\n' in body;
      var k := IndexOf(body, '\n');
      var first, rest := body[..k], body[k + 1..];
      assert body == first + "\n" + rest;
      var after := rest + delimiter + "\n" + tail;
      Assoc(first + "\n", rest, delimiter);
      Assoc(first + "\n", rest + delimiter, "\n");
      Assoc(first + "\n", rest + delimiter + "\n", tail);
      IndexOfFirst(first, '\n', after);
      OccursInPart(first, rest, delimiter);
      HereBody(rest, delimiter, tail);
    }
  }

  lemma OccursInPart(first: string, rest: string, sub: string)
    ensures first == sub || Contains(rest, sub) ==> Contains(first + "\n" + rest, sub)
  {
    var whole := first + "\n" + rest;
    if first == sub {
      assert OccursAt(whole, sub, 0);
    }
    if i :| OccursAt(rest, sub, i) {
      assert whole[|first| + 1..] == rest;
      assert whole[|first| + 1 + i..|first| + 1 + i + |sub|] == rest[i..i + |sub|];
      assert OccursAt(whole, sub, |first| + 1 + i);
    }
  }
}
